/**
 * `GamemodeConfig` of `resources/config/gamemodeconfig.py`: the eight
 * options of a hangman gamemode's config file and the enums they use.
 */
module GamemodeConfigs {
  import opened Wrappers
  import opened Strings
  import opened ParserUtil
  import opened ConfigFormat
  import opened ConfigStore
  import opened Resources
  import opened FileSystem
  import opened Configs

  const DisplayName: string := "display_name"
  const GameType: string := "gamemode"
  const Description: string := "description"
  const NumberLives: string := "number_of_lives"
  const WordList: string := "word_list_paths"
  const CreateThread: string := "create_thread"
  const CloseThreadAction: string := "close_thread_action"
  const Guessers: string := "guessers"

  /** The member names of `games.Gamemode`. */
  const GamemodeMembers: seq<string> := ["SINGLEPLAYER"]
  /** The member names of `GamemodeConfig.GuessPublicity`. */
  const GuessPublicityMembers: seq<string> := ["PRIVATE", "PUBLIC"]
  /** The member names of `GamemodeConfig.ClosingThreadActions`. */
  const ClosingThreadActionsMembers: seq<string> := ["NOTHING", "ARCHIVE", "LOCK", "DELETE"]

  const GuessersMsg: string :=
    "\nCan all users guess or only the user who started the game?\n\nValid options:\n"
    + "private - (default) Only the user who started the game can guess\n"
    + "public - Any user can guess\n"

  const CloseThreadMsg: string :=
    "\nWhat should happen to the thread when the game is over?\nOnly applies if create_thread is true.\n\nValid options:\n"
    + "nothing - Do nothing\n"
    + "archive - Archive the thread, removing it from the sidebar UI\n"
    + "lock - (default) Lock the thread, archiving it and preventing further\n"
    + "       messages from being sent in it.\n"
    + "delete - Delete the thread. WARNING: This action is irreversible\n"

  /** The word lists of the default gamemode: two lists to read, then two to subtract. */
  const DefaultWordLists: seq<string> :=
    ["./words.txt", "./words_alpha.txt", "-./profanity-list.txt", "-./word-blacklist.txt"]

  /** One `_add_config_option(name, validator, description, default)` call. */
  datatype OptionDecl = OptionDecl(name: string, parser: Parser, description: string, default: Value)

  /** The calls of `_add_config_options`, in order. */
  const Schema: seq<OptionDecl> := [
    OptionDecl(DisplayName, StringParser, "Displayed name of this gamemode", StrVal("Hangman")),
    OptionDecl(GameType, EnumParser("Gamemode", GamemodeMembers), "Gamemode this game should be", EnumVal("SINGLEPLAYER")),
    OptionDecl(Description, StringParser, "Description of gamemode (shown in discord UI)", StrVal("Just hangman")),
    OptionDecl(NumberLives, IntParser, "Number of lives the player has", IntVal(8)),
    OptionDecl(WordList, WordListParser, "Paths to the word lists the game uses", WordListVal(Join(DefaultWordLists, '|'))),
    OptionDecl(CreateThread, BoolParser, "Whether or not a thread should be created to play the game", BoolVal(true)),
    OptionDecl(CloseThreadAction, EnumParser("ClosingThreadActions", ClosingThreadActionsMembers), CloseThreadMsg, EnumVal("LOCK")),
    OptionDecl(Guessers, EnumParser("GuessPublicity", GuessPublicityMembers), GuessersMsg, EnumVal("PRIVATE"))
  ]

  /** The option names of a list of declarations, in order. */
  function Names(decls: seq<OptionDecl>): (r: seq<string>)
    ensures |r| == |decls| && forall i :: 0 <= i < |decls| ==> r[i] == decls[i].name
  {
    seq(|decls|, i requires 0 <= i < |decls| => decls[i].name)
  }

  /** No two declarations share a name. */
  predicate DistinctNames(decls: seq<OptionDecl>) {
    forall i, j :: 0 <= i < j < |decls| ==> decls[i].name != decls[j].name
  }

  /** The slot a declaration registers: its default, no listeners. */
  function DeclSlot(d: OptionDecl): (s: Slot)
    ensures s.value == s.default == d.default && s.listeners == []
  {
    Slot(d.parser, d.description, d.default, d.default, [])
  }

  /**
   * `st` is the store left by registering `decls` on a config with no option:
   * one slot per declared name, holding that declaration's default and no
   * listener.
   */
  ghost predicate IsStoreOf(st: Store, decls: seq<OptionDecl>) {
    (forall k :: k in st <==> k in Names(decls))
    && forall i :: 0 <= i < |decls| ==> decls[i].name in st && st[decls[i].name] == DeclSlot(decls[i])
  }

  /** The keys in registration order. */
  const OptionNames: seq<string> :=
    [DisplayName, GameType, Description, NumberLives, WordList, CreateThread, CloseThreadAction, Guessers]

  predicate KeyChar(c: char) { 'a' <= c <= 'z' || c == '_' }

  /** A snake-case name can be a key of the file format. */
  lemma SnakeCaseKey(name: string)
    requires |name| > 0 && forall i :: 0 <= i < |name| ==> KeyChar(name[i])
    ensures WellFormedKey(name)
  {
  }

  /** The eight keys are distinct, so no registration overwrites another, and each survives the file format. */
  lemma SchemaKeys()
    ensures Names(Schema) == OptionNames && DistinctNames(Schema)
    ensures forall i :: 0 <= i < |OptionNames| ==> WellFormedKey(OptionNames[i])
  {
    SchemaNames();
    OptionNamesDistinct();
    OptionNamesWellFormed();
  }

  lemma SchemaNames()
    ensures Names(Schema) == OptionNames
  {
    var n := Names(Schema);
    assert n[0] == DisplayName && n[1] == GameType && n[2] == Description && n[3] == NumberLives;
    assert n[4] == WordList && n[5] == CreateThread && n[6] == CloseThreadAction && n[7] == Guessers;
  }

  /** Two names differ when their lengths or their first two characters do. */
  lemma OptionNamesDistinct()
    ensures forall i, j :: 0 <= i < j < |OptionNames| ==> OptionNames[i] != OptionNames[j]
  {
    forall i, j | 0 <= i < j < |OptionNames| ensures OptionNames[i] != OptionNames[j] {
      var a, b := OptionNames[i], OptionNames[j];
      assert |a| != |b| || a[0] != b[0] || a[1] != b[1];
    }
  }

  lemma OptionNamesWellFormed()
    ensures forall i :: 0 <= i < |OptionNames| ==> WellFormedKey(OptionNames[i])
  {
    forall i | 0 <= i < |OptionNames| ensures WellFormedKey(OptionNames[i]) {
      SnakeCaseKey(OptionNames[i]);
    }
  }

  /** Every default is a value its parser produces, so its text parses back to it. */
  lemma SchemaDefaults()
    ensures forall i :: 0 <= i < |Schema| ==> Conforms(Schema[i].parser, Schema[i].default)
    ensures forall i :: 0 <= i < |Schema| ==>
      Parse(Schema[i].parser, Stringify(Schema[i].parser, Schema[i].default)) == Ok(Schema[i].default)
  {
    forall i | 0 <= i < |Schema|
      ensures Conforms(Schema[i].parser, Schema[i].default)
      ensures Parse(Schema[i].parser, Stringify(Schema[i].parser, Schema[i].default)) == Ok(Schema[i].default)
    {
      assert Upper("SINGLEPLAYER") == "SINGLEPLAYER";
      assert Upper("LOCK") == "LOCK";
      assert Upper("PRIVATE") == "PRIVATE";
      RoundTrip(Schema[i].parser, Schema[i].default);
    }
  }

  /** The word-list default splits into two plain paths followed by two `-` paths. */
  lemma DefaultWordListSegments()
    ensures Split(Schema[4].default.spec, '|') == DefaultWordLists
    ensures forall k :: 0 <= k < 2 ==> DefaultWordLists[k][0] != '-' && DefaultWordLists[k][0] != '&'
    ensures forall k :: 2 <= k < 4 ==> DefaultWordLists[k][0] == '-'
  {
    assert DefaultWordLists[2][0] == '-' && DefaultWordLists[3][0] == '-';
    forall k | 0 <= k < |DefaultWordLists| ensures '|' !in DefaultWordLists[k] {
    }
    SplitJoin(DefaultWordLists, '|');
  }

  /**
   * `_add_config_options`: the eight `_add_config_option` calls, in order,
   * on a config that has no option yet.
   */
  method AddConfigOptions(c: Config)
    requires c.Valid() && c.cache == map[] && c.keys == []
    modifies c
    ensures c.Valid() && fresh(c.Repr - old(c.Repr)) && c.lastRead == old(c.lastRead)
    ensures Registered(c, Schema)
  {
    SchemaKeys();
    SchemaDefaults();
    RegisterAll(c, Schema);
  }

  /** The config holds exactly the given declarations, registered in that order. */
  ghost predicate Registered(c: Config, done: seq<OptionDecl>)
    reads c, c.Entries()
  {
    c.keys == Names(done) && IsStoreOf(c.Store(), done)
  }

  /** Registering distinct, well-typed declarations in turn on a config that has no option yet. */
  method RegisterAll(c: Config, decls: seq<OptionDecl>)
    requires c.Valid() && c.cache == map[] && c.keys == []
    requires DistinctNames(decls)
    requires forall i :: 0 <= i < |decls| ==> HasType(decls[i].parser, decls[i].default)
    modifies c
    ensures c.Valid() && fresh(c.Repr - old(c.Repr)) && c.lastRead == old(c.lastRead)
    ensures Registered(c, decls)
  {
    assert c.Store() == map[];
    assert Registered(c, decls[..0]);
    var i := 0;
    while i < |decls|
      invariant 0 <= i <= |decls|
      invariant c.Valid() && fresh(c.Repr - old(c.Repr)) && c.lastRead == old(c.lastRead)
      invariant Registered(c, decls[..i])
    {
      Register(c, decls, i);
      i := i + 1;
    }
    assert decls[..i] == decls;
  }

  /** The `i`-th `_add_config_option(name, validator, description, default)` call. */
  method Register(c: Config, decls: seq<OptionDecl>, i: nat)
    requires i < |decls| && DistinctNames(decls) && HasType(decls[i].parser, decls[i].default)
    requires c.Valid() && Registered(c, decls[..i])
    modifies c
    ensures c.Valid() && fresh(c.Repr - old(c.Repr)) && c.lastRead == old(c.lastRead)
    ensures Registered(c, decls[..i + 1])
  {
    var d := decls[i];
    StoreOfSnoc(c.Store(), decls, i);
    c.AddConfigOption(d.name, d.parser, d.description, d.default);
  }

  /** Registering one more, fresh, declaration extends the names by one and the store by one slot. */
  lemma StoreOfSnoc(st: Store, decls: seq<OptionDecl>, i: nat)
    requires i < |decls| && DistinctNames(decls) && IsStoreOf(st, decls[..i])
    ensures decls[i].name !in Names(decls[..i]) && decls[i].name !in st
    ensures Names(decls[..i + 1]) == Names(decls[..i]) + [decls[i].name]
    ensures IsStoreOf(st[decls[i].name := DeclSlot(decls[i])], decls[..i + 1])
  {
    var pre := decls[..i];
    var post := decls[..i + 1];
    assert Names(post) == Names(pre) + [decls[i].name];
    forall j | 0 <= j < i + 1
      ensures post[j].name in st[decls[i].name := DeclSlot(decls[i])]
      ensures st[decls[i].name := DeclSlot(decls[i])][post[j].name] == DeclSlot(post[j])
    {
      if j < i {
        assert post[j] == pre[j];
      }
    }
  }

  /** `GamemodeConfig(path, task_handler)`: the options, then the first `reload`. */
  method NewGamemodeConfig(path: Path, fs: Disk, trace: Trace, nullEvent: Event) returns (c: Config)
    requires nullEvent.isSet
    ensures c.Valid() && fresh(c.Repr)
    ensures c.path == path && c.fs == fs && c.trace == trace && c.lastRead == None
    ensures Registered(c, Schema)
    ensures c.manager.state == Initializing && c.manager.jobs == [ReloadJob] && !c.manager.readyEvent.isSet
  {
    c := new Config(path, fs, trace, nullEvent);
    AddConfigOptions(c);
    var _ := c.Reload();
  }

  /**
   * The default file written for the store of well-formed declarations whose
   * default texts survive the format reads back to that same store, firing
   * no listener.
   */
  lemma StoreOfReadsBack(st: Store, decls: seq<OptionDecl>)
    requires IsStoreOf(st, decls)
    requires forall i :: 0 <= i < |decls| ==> WellFormedKey(decls[i].name) && HasType(decls[i].parser, decls[i].default)
    requires forall i :: 0 <= i < |decls| ==> NoLeadingSpace(Stringify(decls[i].parser, decls[i].default))
    ensures StoreTyped(st) && ResetAll(st) == st
    ensures ConfigStore.Reload(st, DefaultFile(st, Names(decls))) == (st, [])
  {
    forall k | k in st
      ensures SlotTyped(st[k]) && NoLeadingSpace(Stringify(st[k].parser, st[k].default))
      ensures st[k].value == st[k].default
    {
      var i :| 0 <= i < |decls| && Names(decls)[i] == k;
    }
    assert ResetAll(st) == st;
    DefaultFileReadsBack(st, Names(decls));
  }

  /** The default file of a new gamemode reads back to its defaults, firing no listener. */
  lemma DefaultFileIsStable(st: Store)
    requires IsStoreOf(st, Schema)
    ensures StoreTyped(st) && ConfigStore.Reload(st, DefaultFile(st, Names(Schema))) == (st, [])
  {
    SchemaKeys();
    SchemaTexts();
    StoreOfReadsBack(st, Schema);
  }

  /** No default's text starts with a space. */
  lemma SchemaTexts()
    ensures forall i :: 0 <= i < |Schema| ==> HasType(Schema[i].parser, Schema[i].default)
    ensures forall i :: 0 <= i < |Schema| ==> NoLeadingSpace(Stringify(Schema[i].parser, Schema[i].default))
  {
    SchemaDefaults();
    forall i | 0 <= i < |Schema| ensures NoLeadingSpace(Stringify(Schema[i].parser, Schema[i].default)) {
      var t := Stringify(Schema[i].parser, Schema[i].default);
      if Schema[i].parser.EnumParser? {
        assert t[0] == LowerChar(Schema[i].default.member[0]);
      }
    }
  }
}
