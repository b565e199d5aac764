/**
 * The older config engine of the root-level `config.py`: the same
 * `key=value` file format as `resources/config/config.py`, read with the
 * same line grammar, but entries have no listeners, a parse error is
 * reported as `False` instead of being ignored silently, and the file is
 * only re-read when its modification time is strictly newer than the last
 * read. `MainConfig` is its one concrete option table.
 */
module LegacyConfigs {
  import opened Wrappers
  import opened Strings
  import opened ParserUtil
  import opened ConfigFormat
  import opened ConfigStore
  import opened FileSystem
  import GamemodeConfigs

  type OptionDecl = GamemodeConfigs.OptionDecl

  const DictionaryLocation: string := "dictionary_location"
  const NumberLives: string := "number_of_lives"
  const GamemodesDir: string := "gamemodes_directory"

  /** The word lists of `MainConfig`: two lists to read, then two to subtract. */
  const MainWordLists: seq<string> :=
    ["./words.txt", "./words_alpha.txt", "-./profanity-list.txt", "-./word-blacklist.txt"]

  /** The calls of `MainConfig._add_config_options`, in order. */
  const MainSchema: seq<OptionDecl> := [
    GamemodeConfigs.OptionDecl(DictionaryLocation, StringListParser, "Path to the word list the game uses", ListVal(MainWordLists)),
    GamemodeConfigs.OptionDecl(NumberLives, IntParser, "Number of lives the player has", IntVal(8)),
    GamemodeConfigs.OptionDecl(GamemodesDir, StringParser, "Directory to load gamemode configs from", StrVal("./gamemodes/"))
  ]

  // ---------------------------------------------------------------------
  // Entries and reading a file, as values
  // ---------------------------------------------------------------------

  /**
   * `Entry.parse`: on a parse error the entry is unchanged and the answer
   * is `False` (`None`); otherwise the entry takes the parsed value and
   * the answer is that value.
   */
  function EntryParseLegacy(s: Slot, text: string): (r: (Slot, Option<Value>))
    requires SlotTyped(s)
    ensures SlotTyped(r.0) && r.0.(value := s.value) == s
    ensures r.1.None? <==> Parse(s.parser, text).Err?
    ensures r.1.None? ==> r.0 == s
    ensures r.1.Some? ==> r.1.value == r.0.value && Conforms(s.parser, r.0.value)
  {
    ParseConforms(s.parser, text);
    match Parse(s.parser, text)
    case Err(_) => (s, None)
    case Ok(v) => (s.(value := v), Some(v))
  }

  /** Parsing an entry's own text gives its value back, and the entry is unchanged. */
  lemma ParseOwnText(s: Slot)
    requires SlotTyped(s) && Conforms(s.parser, s.value)
    ensures EntryParseLegacy(s, Stringify(s.parser, s.value)) == (s, Some(s.value))
  {
    RoundTrip(s.parser, s.value);
  }

  /**
   * On an entry holding a value its parser can produce, the legacy parse
   * leaves the value `parse_and_set` of `resources/config/config.py` leaves.
   */
  lemma EntryParseLegacyAgrees(s: Slot, name: string, text: string)
    requires SlotTyped(s) && Conforms(s.parser, s.value)
    ensures EntryParseLegacy(s, text).0 == ParseAndSet(s, name, text).0
  {
    EntryParseAgrees(s, text);
  }

  /** One line of `load_from_file`: an assignment to a known key is handed to that entry's parse. */
  function LoadLine(st: Store, line: string): (r: Store)
    requires StoreTyped(st)
    ensures StoreTyped(r) && SameSchema(st, r)
  {
    match ClassifyLine(line)
    case Assignment(key, text) =>
      if key in st then st[key := EntryParseLegacy(st[key], text).0] else st
    case _ => st
  }

  /** `load_from_file` over the whole file. */
  function Load(st: Store, lines: seq<string>): (r: Store)
    requires StoreTyped(st)
    ensures StoreTyped(r) && SameSchema(st, r)
  {
    if |lines| == 0 then st else LoadLine(Load(st, lines[..|lines| - 1]), lines[|lines| - 1])
  }

  lemma LoadSnoc(st: Store, lines: seq<string>, i: nat)
    requires StoreTyped(st) && i < |lines|
    ensures Load(st, lines[..i + 1]) == LoadLine(Load(st, lines[..i]), lines[i])
  {
    assert lines[..i + 1][..i] == lines[..i];
  }

  /**
   * On entries holding values their parsers can produce, the legacy reading
   * of a file leaves the same values as the reload of
   * `resources/config/config.py`: the two engines share one grammar.
   */
  lemma {:induction false} LoadAgrees(st: Store, lines: seq<string>)
    requires StoreTyped(st) && StoreConforms(st)
    ensures Load(st, lines) == Reload(st, lines).0
  {
    if |lines| > 0 {
      var init := lines[..|lines| - 1];
      LoadAgrees(st, init);
      var mid := Reload(st, init).0;
      forall k | k in st ensures Conforms(mid[k].parser, mid[k].value) {
        ReloadValue(st, init, k);
      }
      match ClassifyLine(lines[|lines| - 1])
      case Assignment(k, text) =>
        if k in mid {
          EntryParseAgrees(mid[k], text);
        }
      case _ =>
    }
  }

  /**
   * After reading a file each entry holds the value of the last line for it
   * that parsed, or its old value: the later line wins, unknown keys and
   * unparsable values change nothing.
   */
  lemma LoadValue(st: Store, lines: seq<string>, key: string)
    requires StoreTyped(st) && StoreConforms(st) && key in st
    ensures Load(st, lines)[key].value ==
      match LastParsed(lines, key, st[key].parser)
      case Some(v) => v
      case None => st[key].value
  {
    LoadAgrees(st, lines);
    ReloadValue(st, lines, key);
  }

  /**
   * Reading back the file written at construction changes nothing: every
   * entry already holds what its line says.
   */
  lemma LoadWrittenFile(st: Store, keys: seq<string>)
    requires StoreTyped(st) && StoreConforms(st)
    requires forall k :: k in st ==> st[k].value == st[k].default
    requires forall i :: 0 <= i < |keys| ==> keys[i] in st && WellFormedKey(keys[i])
    requires forall k :: k in st ==> NoLeadingSpace(Stringify(st[k].parser, st[k].default))
    ensures Load(st, DefaultFile(st, keys)) == st
  {
    assert ResetAll(st) == st;
    DefaultFileReadsBack(st, keys);
    LoadAgrees(st, DefaultFile(st, keys));
  }

  /** The three keys of `MainConfig` are distinct and fit the format, and each default survives being written. */
  lemma MainSchemaFacts()
    ensures GamemodeConfigs.DistinctNames(MainSchema)
    ensures forall i :: 0 <= i < |MainSchema| ==> WellFormedKey(MainSchema[i].name)
    ensures forall i :: 0 <= i < |MainSchema| ==> Conforms(MainSchema[i].parser, MainSchema[i].default)
    ensures forall i :: 0 <= i < |MainSchema| ==> NoLeadingSpace(Stringify(MainSchema[i].parser, MainSchema[i].default))
  {
    MainKeys();
    MainWordListsConform();
    MainListText();
    assert Stringify(IntParser, IntVal(8)) == "8";
    forall i | 0 <= i < |MainSchema|
      ensures Conforms(MainSchema[i].parser, MainSchema[i].default)
      ensures NoLeadingSpace(Stringify(MainSchema[i].parser, MainSchema[i].default))
    {
    }
  }

  /** The three keys are distinct well-formed keys. */
  lemma MainKeys()
    ensures GamemodeConfigs.DistinctNames(MainSchema)
    ensures forall i :: 0 <= i < |MainSchema| ==> WellFormedKey(MainSchema[i].name)
  {
    var names := [DictionaryLocation, NumberLives, GamemodesDir];
    assert forall i :: 0 <= i < 3 ==> MainSchema[i].name == names[i];
    assert names[0][0] == 'd' && names[1][0] == 'n' && names[2][0] == 'g';
    forall i | 0 <= i < 3 ensures WellFormedKey(names[i]) {
      GamemodeConfigs.SnakeCaseKey(names[i]);
    }
  }

  /** The word lists of `MainConfig` are a list value its parser can produce. */
  lemma MainWordListsConform()
    ensures Conforms(StringListParser, ListVal(MainWordLists))
  {
    forall k | 0 <= k < |MainWordLists| ensures '|' !in MainWordLists[k] {
    }
  }

  /** The joined word lists start with the first path, so not with a space. */
  lemma MainListText()
    ensures NoLeadingSpace(Stringify(StringListParser, ListVal(MainWordLists)))
  {
    assert Join(MainWordLists, '|') == "./words.txt" + "|" + Join(MainWordLists[1..], '|');
  }

  /** A fresh `MainConfig` reads its own default file back unchanged. */
  lemma MainDefaultsReadBack(st: Store)
    requires GamemodeConfigs.IsStoreOf(st, MainSchema)
    ensures Load(st, DefaultFile(st, GamemodeConfigs.Names(MainSchema))) == st
  {
    MainSchemaFacts();
    var keys := GamemodeConfigs.Names(MainSchema);
    forall k | k in st
      ensures SlotTyped(st[k]) && Conforms(st[k].parser, st[k].value) && st[k].value == st[k].default
      ensures NoLeadingSpace(Stringify(st[k].parser, st[k].default))
    {
      var i :| 0 <= i < |keys| && keys[i] == k;
      assert st[k] == GamemodeConfigs.DeclSlot(MainSchema[i]);
    }
    LoadWrittenFile(st, keys);
  }

  /** `check_file_changes`: the file is re-read only when it is strictly newer than the last read. */
  predicate ChangedSince(files: map<Path, FileData>, path: Path, lastRead: nat) {
    path in files && files[path].mtime > lastRead
  }

  // ---------------------------------------------------------------------
  // The objects
  // ---------------------------------------------------------------------

  class Entry {
    const name: string
    const parser: Parser
    const description: string
    const defaultValue: Value
    var value: Value

    function AsSlot(): Slot
      reads this
    {
      Slot(parser, description, defaultValue, value, [])
    }

    /** `Entry(name, validator, description, default_value)`: the value starts at the default. */
    constructor (name: string, parser: Parser, description: string, defaultValue: Value)
      ensures this.name == name
      ensures AsSlot() == Slot(parser, description, defaultValue, defaultValue, [])
    {
      this.name := name;
      this.parser := parser;
      this.description := description;
      this.defaultValue := defaultValue;
      value := defaultValue;
    }

    /** `parse(value)`: replace the value by the parsed one if it differs. */
    method Parse(text: string) returns (r: Option<Value>)
      requires SlotTyped(AsSlot())
      modifies this
      ensures (AsSlot(), r) == EntryParseLegacy(old(AsSlot()), text)
    {
      match ParserUtil.Parse(parser, text)
      case Err(_) =>
        r := None;
      case Ok(parsed) =>
        if parsed != value {
          value := parsed;
        }
        r := Some(value);
    }

    /** What `write(file)` writes: the description as comments, `name=value`, a blank line. */
    function Block(): (lines: seq<string>)
      requires HasType(parser, value)
      reads this
    {
      EntryBlock(name, description, Stringify(parser, value))
    }
  }

  class Config {
    const path: Path
    const fs: Disk
    var cache: map<string, Entry>
    /** The keys of `config_cache` in insertion order. */
    var keys: seq<string>
    var lastRead: nat
    /** The entries as registration left them, before the file was read. */
    ghost var defaults: Store

    ghost predicate Valid()
      reads this`cache, this`keys, cache.Values
    {
      && (forall k :: k in cache ==> cache[k].name == k && SlotTyped(cache[k].AsSlot()))
      && (forall k :: k in cache <==> k in keys)
      && (forall i, j :: 0 <= i < j < |keys| ==> keys[i] != keys[j])
    }

    function Store(): Store
      reads this`cache, cache.Values
    {
      map k | k in cache :: cache[k].AsSlot()
    }

    /**
     * `Config(config_location)` with the option table of the subclass:
     * register the options, then create the default file if there is none,
     * else read the file.
     */
    constructor (path: Path, fs: Disk, decls: seq<OptionDecl>)
      requires fs.Valid() && GamemodeConfigs.DistinctNames(decls)
      requires forall i :: 0 <= i < |decls| ==> HasType(decls[i].parser, decls[i].default)
      modifies fs
      ensures Valid() && fs.Valid() && this.path == path && this.fs == fs
      ensures keys == GamemodeConfigs.Names(decls) && GamemodeConfigs.IsStoreOf(defaults, decls)
      ensures StoreTyped(defaults) && forall i :: 0 <= i < |keys| ==> keys[i] in defaults
      ensures path !in old(fs.files) ==>
        && Store() == defaults && lastRead == old(fs.clock)
        && fs.files == old(fs.files)[path := FileData(DefaultFile(defaults, keys), old(fs.clock))]
        && fs.clock == old(fs.clock) + 1
      ensures path in old(fs.files) ==>
        && Store() == Load(defaults, old(fs.files[path].lines)) && lastRead == old(fs.files[path].mtime)
        && fs.files == old(fs.files) && fs.clock == old(fs.clock)
      ensures fs.dirs == old(fs.dirs)
    {
      this.path := path;
      this.fs := fs;
      cache := map[];
      keys := [];
      lastRead := 0;
      defaults := map[];
      new;
      AddConfigOptions(decls);
      defaults := Store();
      Open();
    }

    /** The end of the constructor: create the default file if there is none, else read the file. */
    method Open()
      requires Valid() && fs.Valid() && defaults == Store()
      requires forall k :: k in cache ==> cache[k].value == cache[k].defaultValue
      modifies fs, this`lastRead, cache.Values
      ensures Valid() && fs.Valid() && fs.dirs == old(fs.dirs) && keys == old(keys) && defaults == old(defaults)
      ensures StoreTyped(defaults) && forall i :: 0 <= i < |keys| ==> keys[i] in defaults
      ensures path !in old(fs.files) ==>
        && Store() == defaults && lastRead == old(fs.clock)
        && fs.files == old(fs.files)[path := FileData(DefaultFile(defaults, keys), old(fs.clock))]
        && fs.clock == old(fs.clock) + 1
      ensures path in old(fs.files) ==>
        && Store() == Load(defaults, old(fs.files[path].lines)) && lastRead == old(fs.files[path].mtime)
        && fs.files == old(fs.files) && fs.clock == old(fs.clock)
    {
      if path !in fs.files {
        CreateDefaultFile();
      } else {
        LoadFromFile();
      }
    }

    /**
     * `_add_config_option(name, validator, description, default)`: a new
     * entry holding its default. Registering a name again replaces the
     * earlier entry but keeps its place in the order.
     */
    method AddConfigOption(name: string, parser: Parser, description: string, defaultValue: Value)
      requires Valid() && HasType(parser, defaultValue)
      modifies this
      ensures Valid() && lastRead == old(lastRead) && defaults == old(defaults)
      ensures keys == if name in old(cache) then old(keys) else old(keys) + [name]
      ensures name in cache && fresh(cache[name]) && cache == old(cache)[name := cache[name]]
      ensures Store() == old(Store())[name := Slot(parser, description, defaultValue, defaultValue, [])]
    {
      var e := new Entry(name, parser, description, defaultValue);
      Insert(e);
    }

    /** `config_cache[name] = entry`: a new key goes last, an existing key keeps its place. */
    method Insert(e: Entry)
      requires Valid() && SlotTyped(e.AsSlot())
      modifies this`cache, this`keys
      ensures Valid()
      ensures keys == if e.name in old(cache) then old(keys) else old(keys) + [e.name]
      ensures cache == old(cache)[e.name := e]
      ensures Store() == old(Store())[e.name := e.AsSlot()]
    {
      ghost var before := Store();
      if e.name !in cache {
        keys := keys + [e.name];
      }
      cache := cache[e.name := e];
      ghost var after := before[e.name := e.AsSlot()];
      assert Store().Keys == after.Keys;
      forall k | k in after ensures Store()[k] == after[k] {
        if k != e.name {
          assert cache[k] == old(cache[k]);
        }
      }
    }

    /** The subclass's `_add_config_options`: its declarations registered in order. */
    method AddConfigOptions(decls: seq<OptionDecl>)
      requires Valid() && cache == map[] && keys == []
      requires GamemodeConfigs.DistinctNames(decls)
      requires forall i :: 0 <= i < |decls| ==> HasType(decls[i].parser, decls[i].default)
      modifies this
      ensures Valid() && lastRead == old(lastRead)
      ensures keys == GamemodeConfigs.Names(decls) && GamemodeConfigs.IsStoreOf(Store(), decls)
      ensures forall k :: k in cache ==> fresh(cache[k]) && cache[k].value == cache[k].defaultValue
    {
      assert Store() == map[];
      assert GamemodeConfigs.Names(decls[..0]) == [];
      for i := 0 to |decls|
        invariant Valid() && lastRead == old(lastRead)
        invariant keys == GamemodeConfigs.Names(decls[..i]) && GamemodeConfigs.IsStoreOf(Store(), decls[..i])
        invariant forall k :: k in cache ==> fresh(cache[k]) && cache[k].value == cache[k].defaultValue
      {
        AddNext(decls, i);
      }
      assert decls[..|decls|] == decls;
    }

    /** One declaration of that loop: registered under its name, last in the order. */
    method AddNext(decls: seq<OptionDecl>, i: nat)
      requires Valid() && i < |decls| && GamemodeConfigs.DistinctNames(decls)
      requires HasType(decls[i].parser, decls[i].default)
      requires keys == GamemodeConfigs.Names(decls[..i]) && GamemodeConfigs.IsStoreOf(Store(), decls[..i])
      modifies this
      ensures Valid() && lastRead == old(lastRead)
      ensures keys == GamemodeConfigs.Names(decls[..i + 1]) && GamemodeConfigs.IsStoreOf(Store(), decls[..i + 1])
      ensures decls[i].name in cache && fresh(cache[decls[i].name]) && cache == old(cache)[decls[i].name := cache[decls[i].name]]
      ensures cache[decls[i].name].value == cache[decls[i].name].defaultValue
    {
      var d := decls[i];
      GamemodeConfigs.StoreOfSnoc(Store(), decls, i);
      AddConfigOption(d.name, d.parser, d.description, d.default);
    }

    /** The missing-file branch of the constructor: every entry written in order, then the time recorded. */
    method CreateDefaultFile()
      requires Valid() && fs.Valid()
      requires forall k :: k in cache ==> cache[k].value == cache[k].defaultValue
      modifies fs, this`lastRead
      ensures Valid() && Store() == old(Store())
      ensures fs.Valid() && fs.files == old(fs.files)[path := FileData(DefaultFile(old(Store()), keys), old(fs.clock))]
      ensures fs.clock == old(fs.clock) + 1 && fs.dirs == old(fs.dirs) && lastRead == old(fs.clock)
    {
      var lines := DefaultLines();
      var now := fs.clock;
      WriteFile(lines);
      RecordRead(now);
    }

    /** `_last_read = ...`: only the time changes. */
    method RecordRead(t: nat)
      requires Valid()
      modifies this`lastRead
      ensures Valid() && Store() == old(Store()) && lastRead == t
    {
      lastRead := t;
    }

    /** Replace the config file; the entries are untouched. */
    method WriteFile(lines: seq<string>)
      requires Valid() && fs.Valid()
      modifies fs
      ensures Valid() && Store() == old(Store())
      ensures fs.Valid() && fs.files == old(fs.files)[path := FileData(lines, old(fs.clock))]
      ensures fs.clock == old(fs.clock) + 1 && fs.dirs == old(fs.dirs)
    {
      fs.Write(path, lines);
    }

    /** The loop of the missing-file branch: `entry.write(file)` for every entry, in order. */
    method DefaultLines() returns (lines: seq<string>)
      requires Valid()
      requires forall k :: k in cache ==> cache[k].value == cache[k].defaultValue
      ensures StoreTyped(Store()) && lines == DefaultFile(Store(), keys)
    {
      ghost var st := Store();
      assert StoreTyped(st);
      lines := [];
      for i := 0 to |keys|
        invariant lines == DefaultFile(st, keys[..i])
      {
        DefaultFileSnoc(st, keys, i);
        lines := lines + cache[keys[i]].Block();
      }
      assert keys[..|keys|] == keys;
    }

    /** `load_from_file`: every line in order, then the time recorded. */
    method LoadFromFile()
      requires Valid() && path in fs.files
      modifies this`lastRead, cache.Values
      ensures Valid() && Store() == Load(old(Store()), fs.files[path].lines)
      ensures lastRead == fs.files[path].mtime
    {
      LoadLines(fs.files[path].lines);
      RecordRead(fs.files[path].mtime);
    }

    /** The loop of `load_from_file`: each line handed to the entry it assigns. */
    method LoadLines(lines: seq<string>)
      requires Valid()
      modifies cache.Values
      ensures Valid() && Store() == Load(old(Store()), lines)
    {
      ghost var st0 := Store();
      for i := 0 to |lines|
        invariant Valid()
        invariant Store() == Load(st0, lines[..i])
      {
        LoadNext(st0, lines, i);
      }
      assert lines[..|lines|] == lines;
    }

    /** One iteration of the loop of `load_from_file`. */
    method LoadNext(ghost st0: Store, lines: seq<string>, i: nat)
      requires Valid() && StoreTyped(st0) && i < |lines| && Store() == Load(st0, lines[..i])
      modifies cache.Values
      ensures Valid() && Store() == Load(st0, lines[..i + 1])
    {
      LoadSnoc(st0, lines, i);
      match ClassifyLine(lines[i])
      case Assignment(key, text) =>
        if key in cache {
          ParseEntry(key, text);
        }
      case _ =>
    }

    /** One assignment to a known key: that entry, and only it, parses the text. */
    method ParseEntry(key: string, text: string)
      requires Valid() && key in cache
      modifies cache[key]
      ensures Valid()
      ensures Store() == old(Store())[key := EntryParseLegacy(old(Store())[key], text).0]
    {
      ghost var before := Store();
      var _ := cache[key].Parse(text);
      forall k | k in cache ensures Store()[k] == before[key := EntryParseLegacy(before[key], text).0][k] {
        if k != key {
          assert cache[k].name != cache[key].name;
        }
      }
    }

    /**
     * `check_file_changes`: re-read the file when it is strictly newer than
     * the last read. A missing file raises in `os.stat` (`found` is false)
     * and nothing changes.
     */
    method CheckFileChanges() returns (found: bool)
      requires Valid()
      modifies this`lastRead, cache.Values
      ensures Valid() && found == (path in fs.files)
      ensures ChangedSince(fs.files, path, old(lastRead)) ==>
        Store() == Load(old(Store()), fs.files[path].lines) && lastRead == fs.files[path].mtime
      ensures !ChangedSince(fs.files, path, old(lastRead)) ==>
        Store() == old(Store()) && lastRead == old(lastRead)
    {
      found := path in fs.files;
      if found && fs.files[path].mtime > lastRead {
        LoadFromFile();
      }
    }

    /**
     * `get_option(key)`: check for changes, then answer the entry's value
     * (not the entry). An unknown key raises `KeyError` (`None`).
     */
    method GetOption(key: string) returns (r: Option<Value>)
      requires Valid()
      modifies this`lastRead, cache.Values
      ensures Valid()
      ensures ChangedSince(fs.files, path, old(lastRead)) ==>
        Store() == Load(old(Store()), fs.files[path].lines) && lastRead == fs.files[path].mtime
      ensures !ChangedSince(fs.files, path, old(lastRead)) ==>
        Store() == old(Store()) && lastRead == old(lastRead)
      ensures r == if path in fs.files && key in Store() then Some(Store()[key].value) else None
    {
      var found := CheckFileChanges();
      if found && key in cache {
        r := Some(cache[key].value);
      } else {
        r := None;
      }
    }
  }
}
