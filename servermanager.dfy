/**
 * `resources/servermanager.py`: the per-server bookkeeping of gamemodes,
 * without the Discord user interface. Gamemode names are validated,
 * escaped into file-name form and prettified for display; the `gamemodes`
 * dictionary is reconciled against the server's directory, seeded from the
 * default configs, and mirrored into the choice lists of the `/play` and
 * `/config gamemode edit` commands.
 */
module ServerManagers {
  import opened Wrappers
  import opened Strings
  import opened ParserUtil
  import opened Resources
  import opened FileSystem
  import opened Configs
  import opened GamemodeConfigs

  // ---------------------------------------------------------------------
  // Display helpers
  // ---------------------------------------------------------------------

  /** `_all_same_case` */
  predicate AllSameCase(s: string) {
    s == Lower(s) || s == Upper(s)
  }

  /** A string is all one case exactly when it has no upper-case letter or no lower-case letter. */
  lemma AllSameCaseMeaning(s: string)
    ensures AllSameCase(s) <==> IsLowerCase(s) || IsUpperCase(s)
  {
    if IsLowerCase(s) {
      assert s == Lower(s);
    }
    if IsUpperCase(s) {
      assert s == Upper(s);
    }
    if s == Lower(s) {
      forall i | 0 <= i < |s| ensures !IsUpperLetter(s[i]) {
        assert s[i] == LowerChar(s[i]);
      }
    }
    if s == Upper(s) {
      forall i | 0 <= i < |s| ensures !IsLowerLetter(s[i]) {
        assert s[i] == UpperChar(s[i]);
      }
    }
  }

  /**
   * `str.title()`: a letter is upper-cased when it starts the string or
   * follows a character that is not a letter, and lower-cased otherwise.
   */
  function Title(s: string): (r: string)
    ensures |r| == |s|
    ensures forall i :: 0 <= i < |s| && (i == 0 || !IsLetter(s[i - 1])) ==> r[i] == UpperChar(s[i])
    ensures forall i :: 0 < i < |s| && IsLetter(s[i - 1]) ==> r[i] == LowerChar(s[i])
  {
    var r := seq(|s|, i requires 0 <= i < |s| => TitleChar(i > 0 && IsLetter(s[i - 1]), s[i]));
    assert forall i :: 0 <= i < |s| ==> r[i] == TitleChar(i > 0 && IsLetter(s[i - 1]), s[i]);
    r
  }

  /** One character of `str.title()`, given whether a letter precedes it. */
  function TitleChar(afterLetter: bool, c: char): char {
    if afterLetter then LowerChar(c) else UpperChar(c)
  }

  /** Title-casing keeps the letters where they are, so it is idempotent. */
  lemma TitleIdempotent(s: string)
    ensures Title(Title(s)) == Title(s)
  {
    var t := Title(s);
    forall i | 0 <= i < |s| ensures Title(t)[i] == t[i] {
      if i > 0 {
        assert IsLetter(t[i - 1]) <==> IsLetter(s[i - 1]);
      }
    }
  }

  /** The words of a camel-case name: concatenated they give the name; each later word starts at an upper-case letter and holds no other. */
  ghost predicate CamelSplit(name: string, words: seq<string>) {
    && Concat(words) == name
    && (forall k :: 0 <= k < |words| ==> |words[k]| > 0)
    && (forall k :: 0 < k < |words| ==> IsUpperLetter(words[k][0]))
    && (forall k, j :: 0 <= k < |words| && 0 < j < |words[k]| ==> !IsUpperLetter(words[k][j]))
  }

  function Concat(words: seq<string>): string {
    if |words| == 0 then "" else Concat(words[..|words| - 1]) + words[|words| - 1]
  }

  /** The name with a space inserted before every upper-case letter but the first character. */
  function SpacedCamel(s: string): string {
    if |s| == 0 then ""
    else SpacedCamel(s[..|s| - 1]) + (if |s| > 1 && IsUpperLetter(s[|s| - 1]) then [' ', s[|s| - 1]] else [s[|s| - 1]])
  }

  /** The camel-case branch of `_prettify`: start a word at the first character and at every upper-case letter. */
  method CamelWords(name: string) returns (words: seq<string>)
    ensures CamelSplit(name, words)
    ensures Join(words, ' ') == SpacedCamel(name)
  {
    words := [];
    for i := 0 to |name|
      invariant CamelSplit(name[..i], words)
      invariant Join(words, ' ') == SpacedCamel(name[..i])
      invariant i > 0 <==> |words| > 0
    {
      if IsUpperLetter(name[i]) || |words| == 0 {
        CamelNewWord(name, words, i);
        words := words + [[name[i]]];
      } else {
        CamelSameWord(name, words, i);
        words := words[..|words| - 1] + [words[|words| - 1] + [name[i]]];
      }
    }
    assert name[..|name|] == name;
  }

  /** The spaced form of one more character of the name. */
  lemma SpacedCamelSnoc(name: string, i: nat)
    requires i < |name|
    ensures SpacedCamel(name[..i + 1]) ==
      SpacedCamel(name[..i]) + (if i > 0 && IsUpperLetter(name[i]) then [' ', name[i]] else [name[i]])
  {
    assert name[..i + 1][..i] == name[..i];
  }

  /** Concatenating one more word appends it. */
  lemma ConcatSnoc(words: seq<string>, w: string)
    ensures Concat(words + [w]) == Concat(words) + w
  {
    assert (words + [w])[..|words|] == words;
  }

  /** Extending the last word extends the concatenation. */
  lemma ConcatExtendLast(words: seq<string>, c: char)
    requires |words| > 0
    ensures Concat(words[..|words| - 1] + [words[|words| - 1] + [c]]) == Concat(words) + [c]
  {
    var n := |words| - 1;
    assert (words[..n] + [words[n] + [c]])[..n] == words[..n];
    assert words[..n + 1] == words;
  }

  /** An upper-case letter, or the first character, starts a new word. */
  lemma CamelNewWord(name: string, words: seq<string>, i: nat)
    requires i < |name| && CamelSplit(name[..i], words) && Join(words, ' ') == SpacedCamel(name[..i])
    requires i > 0 <==> |words| > 0
    requires IsUpperLetter(name[i]) || |words| == 0
    ensures CamelSplit(name[..i + 1], words + [[name[i]]])
    ensures Join(words + [[name[i]]], ' ') == SpacedCamel(name[..i + 1])
  {
    NewWordSplit(name, words, i);
    NewWordJoin(name, words, i);
  }

  lemma NewWordSplit(name: string, words: seq<string>, i: nat)
    requires i < |name| && CamelSplit(name[..i], words)
    requires IsUpperLetter(name[i]) || |words| == 0
    ensures CamelSplit(name[..i + 1], words + [[name[i]]])
  {
    var ws := words + [[name[i]]];
    ConcatSnoc(words, [name[i]]);
    assert name[..i + 1] == name[..i] + [name[i]];
    forall k, j | 0 <= k < |ws| && 0 < j < |ws[k]| ensures !IsUpperLetter(ws[k][j]) {
      assert k < |words|;
      assert ws[k] == words[k];
    }
    forall k | 0 < k < |ws| ensures IsUpperLetter(ws[k][0]) {
      if k < |words| {
        assert ws[k] == words[k];
      }
    }
    forall k | 0 <= k < |ws| ensures |ws[k]| > 0 {
      if k < |words| {
        assert ws[k] == words[k];
      }
    }
  }

  lemma NewWordJoin(name: string, words: seq<string>, i: nat)
    requires i < |name| && Join(words, ' ') == SpacedCamel(name[..i])
    requires i > 0 <==> |words| > 0
    requires IsUpperLetter(name[i]) || |words| == 0
    ensures Join(words + [[name[i]]], ' ') == SpacedCamel(name[..i + 1])
  {
    SpacedCamelSnoc(name, i);
    if |words| > 0 {
      JoinSnoc(words, [name[i]], ' ');
    }
  }

  /** Any other character extends the last word. */
  lemma CamelSameWord(name: string, words: seq<string>, i: nat)
    requires i < |name| && CamelSplit(name[..i], words) && Join(words, ' ') == SpacedCamel(name[..i])
    requires i > 0 && |words| > 0 && !IsUpperLetter(name[i])
    ensures CamelSplit(name[..i + 1], words[..|words| - 1] + [words[|words| - 1] + [name[i]]])
    ensures Join(words[..|words| - 1] + [words[|words| - 1] + [name[i]]], ' ') == SpacedCamel(name[..i + 1])
  {
    SameWordSplit(name, words, i);
    SameWordJoin(name, words, i);
  }

  lemma SameWordSplit(name: string, words: seq<string>, i: nat)
    requires i < |name| && CamelSplit(name[..i], words)
    requires |words| > 0 && !IsUpperLetter(name[i])
    ensures CamelSplit(name[..i + 1], words[..|words| - 1] + [words[|words| - 1] + [name[i]]])
  {
    var c := name[i];
    var n := |words| - 1;
    var ws := words[..n] + [words[n] + [c]];
    assert name[..i + 1] == name[..i] + [c];
    ConcatExtendLast(words, c);
    forall k, j | 0 <= k < |ws| && 0 < j < |ws[k]| ensures !IsUpperLetter(ws[k][j]) {
      if k < n {
        assert ws[k] == words[k];
      } else if j < |words[n]| {
        assert ws[k][j] == words[n][j];
      }
    }
    forall k | 0 < k < |ws| ensures IsUpperLetter(ws[k][0]) {
      if k < n {
        assert ws[k] == words[k];
      } else {
        assert ws[k][0] == words[n][0];
      }
    }
    forall k | 0 <= k < |ws| ensures |ws[k]| > 0 {
      if k < n {
        assert ws[k] == words[k];
      }
    }
  }

  lemma SameWordJoin(name: string, words: seq<string>, i: nat)
    requires i < |name| && Join(words, ' ') == SpacedCamel(name[..i])
    requires i > 0 && |words| > 0 && !IsUpperLetter(name[i])
    ensures Join(words[..|words| - 1] + [words[|words| - 1] + [name[i]]], ' ') == SpacedCamel(name[..i + 1])
  {
    SpacedCamelSnoc(name, i);
    JoinExtendLast(words, name[i], ' ');
  }

  /**
   * `_prettify`: a snake-case name is split at `_`, a same-case name is one
   * word, any other name is split before its upper-case letters; the words
   * are joined with spaces and title-cased.
   */
  method Prettify(name: string) returns (r: string)
    ensures '_' in name ==> r == Title(ReplaceChar(name, '_', ' '))
    ensures '_' !in name && AllSameCase(name) ==> r == Title(name)
    ensures '_' !in name && !AllSameCase(name) ==> r == Title(SpacedCamel(name))
  {
    if '_' in name {
      var words := Split(name, '_');
      JoinSplitReplace(name, '_', ' ');
      r := Title(Join(words, ' '));
    } else if AllSameCase(name) {
      r := Title(name);
    } else {
      var words := CamelWords(name);
      r := Title(Join(words, ' '));
    }
  }

  /**
   * `_stringify` for the values a config holds: a bool or int as `str`
   * gives it, a string as itself, an enum member by its lower-case name.
   * Lists and word-list managers print as Python objects, which is not
   * modelled (`None`).
   */
  function DisplayString(v: Value): (r: Option<string>)
    ensures r.None? <==> v.ListVal? || v.WordListVal?
  {
    match v
    case BoolVal(b) => Some(if b then "True" else "False")
    case IntVal(i) => Some(IntToString(i))
    case StrVal(s) => Some(s)
    case EnumVal(m) => Some(Lower(m))
    case ListVal(_) => None
    case WordListVal(_) => None
  }

  /** The editor shows a scalar value the way the config file stores it. */
  lemma DisplayIsFileText(p: Parser, v: Value)
    requires HasType(p, v) && !p.StringListParser? && !p.WordListParser?
    ensures DisplayString(v) == Some(Stringify(p, v))
  {
  }

  // ---------------------------------------------------------------------
  // Gamemode names
  // ---------------------------------------------------------------------

  /** `_ALLOWED_FIRST_CHARS` */
  predicate AllowedFirstChar(c: char) { IsLetter(c) }

  /** `_ALLOWED_CHARS` */
  predicate AllowedChar(c: char) { IsLetter(c) || IsDigit(c) || c == '-' || c == '_' || c == ' ' }

  datatype NameError =
    | Empty
    | TooLong
    | BadFirstChar(first: char)
    | BadChars(found: set<char>)

  /** What a valid gamemode name is: 1 to 50 characters, a letter first, only allowed characters. */
  predicate ValidName(name: string) {
    1 <= |name| <= 50 && AllowedFirstChar(name[0]) && forall i :: 0 <= i < |name| ==> AllowedChar(name[i])
  }

  /** `_get_name_error`: the first check that fails, in order, or `None`. */
  function GetNameError(name: string): (r: Option<NameError>)
    ensures r.None? <==> ValidName(name)
    ensures |name| < 1 ==> r == Some(Empty)
    ensures 1 <= |name| && |name| > 50 ==> r == Some(TooLong)
    ensures 1 <= |name| <= 50 && !AllowedFirstChar(name[0]) ==> r == Some(BadFirstChar(name[0]))
    ensures r.Some? && r.value.BadChars? ==>
      && 1 <= |name| <= 50 && AllowedFirstChar(name[0])
      && r.value.found == (set i | 0 <= i < |name| && !AllowedChar(name[i]) :: name[i])
      && r.value.found != {}
  {
    if |name| < 1 then Some(Empty)
    else if |name| > 50 then Some(TooLong)
    else if !AllowedFirstChar(name[0]) then Some(BadFirstChar(name[0]))
    else
      var invalid := set i | 0 <= i < |name| && !AllowedChar(name[i]) :: name[i];
      assert forall i :: 0 <= i < |name| && !AllowedChar(name[i]) ==> name[i] in invalid;
      if invalid != {} then Some(BadChars(invalid)) else None
  }

  /** `_escaped_name`: lower-case, spaces become `-`. */
  function EscapedName(name: string): (r: string)
    ensures |r| == |name|
  {
    ReplaceChar(Lower(name), ' ', '-')
  }

  /** The characters an escaped valid name consists of. */
  predicate FileNameChar(c: char) { IsLowerLetter(c) || IsDigit(c) || c == '-' || c == '_' }

  /** Escaping an escaped name changes nothing. */
  lemma EscapedIdempotent(name: string)
    ensures EscapedName(EscapedName(name)) == EscapedName(name)
  {
    var e := EscapedName(name);
    forall i | 0 <= i < |name| ensures EscapedName(e)[i] == e[i] {
    }
  }

  /** A valid name escapes to lower-case letters, digits, `-` and `_`, starting with a letter. */
  lemma ValidNameEscapes(name: string)
    requires ValidName(name)
    ensures |EscapedName(name)| > 0 && IsLowerLetter(EscapedName(name)[0])
    ensures forall i :: 0 <= i < |name| ==> FileNameChar(EscapedName(name)[i])
  {
  }

  /** Two names escape alike exactly when they agree up to case and up to space versus `-`. */
  lemma EscapedCollision(a: string, b: string)
    requires |a| == |b|
    ensures EscapedName(a) == EscapedName(b) <==>
      forall i :: 0 <= i < |a| ==> EscapedName([a[i]]) == EscapedName([b[i]])
  {
    if EscapedName(a) == EscapedName(b) {
      forall i | 0 <= i < |a| ensures EscapedName([a[i]]) == EscapedName([b[i]]) {
        assert EscapedName(a)[i] == EscapedName(b)[i];
      }
    }
    if forall i :: 0 <= i < |a| ==> EscapedName([a[i]]) == EscapedName([b[i]]) {
      forall i | 0 <= i < |a| ensures EscapedName(a)[i] == EscapedName(b)[i] {
        assert EscapedName([a[i]])[0] == EscapedName([b[i]])[0];
      }
    }
  }

  // ---------------------------------------------------------------------
  // The gamemode table
  // ---------------------------------------------------------------------

  predicate Distinct(names: seq<string>) {
    forall i, j :: 0 <= i < j < |names| ==> names[i] != names[j]
  }

  /** The stems of a list of paths, in order. */
  function Stems(paths: seq<Path>): (r: seq<string>)
    ensures |r| == |paths| && forall i :: 0 <= i < |paths| ==> r[i] == paths[i].stem
  {
    seq(|paths|, i requires 0 <= i < |paths| => paths[i].stem)
  }

  /** The dictionary's key order after assigning the keys `stems` in turn: a key not yet present goes last. */
  function Extend(names: seq<string>, stems: seq<string>): seq<string>
  {
    if |stems| == 0 then names
    else
      var prev := Extend(names, stems[..|stems| - 1]);
      var s := stems[|stems| - 1];
      if s in prev then prev else prev + [s]
  }

  /** Assigning keys never removes or reorders a key, adds exactly the new ones, and keeps keys distinct. */
  lemma {:induction false} ExtendSpec(names: seq<string>, stems: seq<string>)
    ensures |names| <= |Extend(names, stems)| && Extend(names, stems)[..|names|] == names
    ensures forall k :: k in Extend(names, stems) <==> k in names || k in stems
    ensures Distinct(names) ==> Distinct(Extend(names, stems))
  {
    if |stems| > 0 {
      var n := |stems| - 1;
      ExtendSpec(names, stems[..n]);
      assert forall k :: k in stems <==> k in stems[..n] || k == stems[n];
      var prev := Extend(names, stems[..n]);
      if stems[n] !in prev {
        assert (prev + [stems[n]])[..|names|] == prev[..|names|];
      }
    }
  }

  /** For each stem of the listing, the first path that has it. */
  function FirstPaths(listing: seq<Path>): map<string, Path>
  {
    if |listing| == 0 then map[]
    else
      var prev := FirstPaths(listing[..|listing| - 1]);
      var p := listing[|listing| - 1];
      if p.stem in prev then prev else prev[p.stem := p]
  }

  /** `FirstPaths` has a key for each stem of the listing and no other. */
  lemma {:induction false} FirstPathsKeys(listing: seq<Path>)
    ensures forall k :: k in FirstPaths(listing) <==> k in Stems(listing)
  {
    if |listing| > 0 {
      var n := |listing| - 1;
      FirstPathsKeys(listing[..n]);
      assert Stems(listing) == Stems(listing[..n]) + [listing[n].stem];
    }
  }

  /** The path `FirstPaths` picks for a stem is the earliest one with that stem. */
  lemma {:induction false} FirstPathsFirst(listing: seq<Path>, i: nat)
    requires i < |listing| && forall j :: 0 <= j < i ==> listing[j].stem != listing[i].stem
    ensures listing[i].stem in FirstPaths(listing) && FirstPaths(listing)[listing[i].stem] == listing[i]
  {
    var n := |listing| - 1;
    if i < n {
      FirstPathsFirst(listing[..n], i);
    } else {
      FirstPathsKeys(listing[..n]);
      assert listing[i].stem !in Stems(listing[..n]);
    }
  }

  /** One more file of the walk: how the key order and the first paths grow. */
  lemma WalkStep(names0: seq<string>, listing: seq<Path>, i: nat)
    requires i < |listing|
    ensures var prev := FirstPaths(listing[..i]);
      FirstPaths(listing[..i + 1]) == if listing[i].stem in prev then prev else prev[listing[i].stem := listing[i]]
    ensures var e := Extend(names0, Stems(listing[..i]));
      Extend(names0, Stems(listing[..i + 1])) == if listing[i].stem in e then e else e + [listing[i].stem]
  {
    assert listing[..i + 1][..i] == listing[..i];
    assert Stems(listing[..i + 1]) == Stems(listing[..i]) + [listing[i].stem];
    assert Stems(listing[..i + 1])[..i] == Stems(listing[..i]);
  }

  /** Where `load_defaults` copies a default config: its place relative to the parent directory, under the server's directory. */
  function CopyPath(dir: seq<string>, file: Path): (p: Path)
    requires |dir| > 0 && Under(file, dir[..|dir| - 1])
    ensures p.stem == file.stem && p.suffix == file.suffix && Under(p, dir)
  {
    Path(dir + file.dir[|dir| - 1..], file.stem, file.suffix)
  }

  /** Defaults `load_defaults` can copy: each lies under the parent of the server's directory. */
  predicate Copyable(dir: seq<string>, defaults: seq<Path>) {
    |dir| > 0 && forall i :: 0 <= i < |defaults| ==> Under(defaults[i], dir[..|dir| - 1])
  }

  /** For each stem of the defaults, the copy of the last default that has it. */
  function Copies(dir: seq<string>, defaults: seq<Path>): map<string, Path>
    requires Copyable(dir, defaults)
  {
    if |defaults| == 0 then map[]
    else
      var n := |defaults| - 1;
      Copies(dir, defaults[..n])[defaults[n].stem := CopyPath(dir, defaults[n])]
  }

  /** `Copies` has a key for each stem of the defaults, mapped to the copy of the last default with that stem. */
  lemma {:induction false} CopiesLast(dir: seq<string>, defaults: seq<Path>, i: nat)
    requires Copyable(dir, defaults)
    requires i < |defaults| && forall j :: i < j < |defaults| ==> defaults[j].stem != defaults[i].stem
    ensures defaults[i].stem in Copies(dir, defaults) && Copies(dir, defaults)[defaults[i].stem] == CopyPath(dir, defaults[i])
  {
    var n := |defaults| - 1;
    if i < n {
      CopiesLast(dir, defaults[..n], i);
    }
  }

  /** `Copies` has no key but the defaults' stems. */
  lemma {:induction false} CopiesKeys(dir: seq<string>, defaults: seq<Path>)
    requires Copyable(dir, defaults)
    ensures forall k :: k in Copies(dir, defaults) <==> k in Stems(defaults)
  {
    if |defaults| > 0 {
      var n := |defaults| - 1;
      CopiesKeys(dir, defaults[..n]);
      assert Stems(defaults) == Stems(defaults[..n]) + [defaults[n].stem];
    }
  }

  /**
   * Where the directory walk stands after `i` files: the key order has
   * grown by the stems seen, the earlier gamemodes are kept, and each new
   * gamemode is a config for the first file with its stem.
   */
  ghost predicate WalkState(modes0: map<string, Config>, names0: seq<string>, listing: seq<Path>, i: int,
                            gamemodes: map<string, Config>, names: seq<string>)
  {
    && 0 <= i <= |listing|
    && names == Extend(names0, Stems(listing[..i]))
    && (forall k :: k in modes0 ==> k in gamemodes && gamemodes[k] == modes0[k])
    && FirstPaths(listing[..i]).Keys <= gamemodes.Keys
    && (forall k :: k in gamemodes && k !in modes0 ==>
          k in FirstPaths(listing[..i]) && gamemodes[k].path == FirstPaths(listing[..i])[k])
  }

  /**
   * Where the copying loop of `load_defaults` stands after `i` defaults:
   * every default still present, the key order extended by their stems,
   * untouched gamemodes kept, each copied stem a config for its last copy,
   * and every copy made so far on disk.
   */
  ghost predicate LoadState(modes0: map<string, Config>, names0: seq<string>, dir: seq<string>, defaults: seq<Path>, i: int,
                            gamemodes: map<string, Config>, names: seq<string>, files: map<Path, FileData>)
  {
    && 0 <= i <= |defaults| && Copyable(dir, defaults)
    && (forall j :: 0 <= j < |defaults| ==> defaults[j] in files)
    && names == Extend(names0, Stems(defaults[..i]))
    && (forall k :: k in modes0 && k !in Stems(defaults[..i]) ==> k in gamemodes && gamemodes[k] == modes0[k])
    && (forall k :: k in Copies(dir, defaults[..i]) ==> k in gamemodes && gamemodes[k].path == Copies(dir, defaults[..i])[k])
    && (forall j :: 0 <= j < i ==> CopyPath(dir, defaults[j]) in files)
  }

  /** At the end of the loop, the state speaks of all the defaults. */
  lemma LoadDone(modes0: map<string, Config>, names0: seq<string>, dir: seq<string>, defaults: seq<Path>,
                 gamemodes: map<string, Config>, names: seq<string>, files: map<Path, FileData>)
    requires LoadState(modes0, names0, dir, defaults, |defaults|, gamemodes, names, files)
    ensures names == Extend(names0, Stems(defaults))
    ensures forall k :: k in modes0 && k !in Stems(defaults) ==> k in gamemodes && gamemodes[k] == modes0[k]
    ensures forall k :: k in Copies(dir, defaults) ==> k in gamemodes && gamemodes[k].path == Copies(dir, defaults)[k]
    ensures forall i :: 0 <= i < |defaults| ==> CopyPath(dir, defaults[i]) in files
  {
    assert defaults[..|defaults|] == defaults;
  }

  /** Copying one more default and assigning its config under its stem keeps the loop's state. */
  lemma LoadStep(modes0: map<string, Config>, names0: seq<string>, dir: seq<string>, defaults: seq<Path>, i: int,
                 gamemodes: map<string, Config>, names: seq<string>, files: map<Path, FileData>, cfg: Config, data: FileData)
    requires i < |defaults| && LoadState(modes0, names0, dir, defaults, i, gamemodes, names, files)
    requires (forall k :: k in gamemodes <==> k in names)
    requires cfg.path == CopyPath(dir, defaults[i])
    ensures LoadState(modes0, names0, dir, defaults, i + 1,
      gamemodes[defaults[i].stem := cfg],
      if defaults[i].stem in gamemodes then names else names + [defaults[i].stem],
      files[CopyPath(dir, defaults[i]) := data])
  {
    var file := defaults[i];
    assert defaults[..i + 1][..i] == defaults[..i];
    assert Stems(defaults[..i + 1]) == Stems(defaults[..i]) + [file.stem];
    assert Stems(defaults[..i + 1])[..i] == Stems(defaults[..i]);
    assert Copies(dir, defaults[..i + 1]) == Copies(dir, defaults[..i])[file.stem := CopyPath(dir, file)];
  }

  /** A file whose stem is new adds a config for it, last in the key order. */
  lemma WalkNew(modes0: map<string, Config>, names0: seq<string>, listing: seq<Path>, i: int,
                gamemodes: map<string, Config>, names: seq<string>, cfg: Config)
    requires i < |listing| && WalkState(modes0, names0, listing, i, gamemodes, names)
    requires (forall k :: k in gamemodes <==> k in names)
    requires listing[i].stem !in gamemodes && cfg.path == listing[i]
    ensures WalkState(modes0, names0, listing, i + 1, gamemodes[listing[i].stem := cfg], names + [listing[i].stem])
  {
    var child := listing[i];
    var prev := FirstPaths(listing[..i]);
    WalkStep(names0, listing, i);
    assert child.stem !in prev;
    var gm := gamemodes[child.stem := cfg];
    forall k | k in gm && k !in modes0
      ensures k in FirstPaths(listing[..i + 1]) && gm[k].path == FirstPaths(listing[..i + 1])[k]
    {
      if k != child.stem {
        assert k in prev && gm[k].path == prev[k];
      }
    }
  }

  /** A file whose stem is already a gamemode changes nothing. */
  lemma WalkKeep(modes0: map<string, Config>, names0: seq<string>, listing: seq<Path>, i: int,
                 gamemodes: map<string, Config>, names: seq<string>)
    requires i < |listing| && WalkState(modes0, names0, listing, i, gamemodes, names)
    requires (forall k :: k in gamemodes <==> k in names)
    requires listing[i].stem in gamemodes
    ensures WalkState(modes0, names0, listing, i + 1, gamemodes, names)
  {
    WalkStep(names0, listing, i);
  }

  /** Why `new_gamemode` refused a name. */
  datatype Rejection = InvalidName(error: NameError) | NameTaken(escaped: string)

  class ServerManager {
    /** The server's directory of gamemode configs. */
    const dir: seq<string>
    const fs: Disk
    const trace: Trace
    const nullEvent: Event
    const manager: ResourceManager
    /** `gamemodes` */
    var gamemodes: map<string, Config>
    /** The dictionary's key order. */
    var names: seq<string>
    /** The choices of the `/play` command's option. */
    var playChoices: seq<string>
    /** The choices of the `/config gamemode edit` command's option. */
    var editChoices: seq<string>
    /** How often the bot was asked to re-register its commands (`sync_discord_commands`). */
    var commandResyncs: nat

    ghost predicate Valid()
      reads this, nullEvent
    {
      nullEvent.isSet && Distinct(names) && forall k :: k in gamemodes <==> k in names
    }

    /** A manager with no gamemode yet and empty choice lists. */
    constructor (dir: seq<string>, fs: Disk, trace: Trace, nullEvent: Event)
      requires nullEvent.isSet
      ensures Valid() && fresh(manager)
      ensures this.dir == dir && this.fs == fs && this.trace == trace && this.nullEvent == nullEvent
      ensures manager.state == Uninitialized
      ensures gamemodes == map[] && names == [] && playChoices == [] && editChoices == [] && commandResyncs == 0
    {
      this.dir := dir;
      this.fs := fs;
      this.trace := trace;
      this.nullEvent := nullEvent;
      manager := new ResourceManager();
      gamemodes := map[];
      names := [];
      playChoices := [];
      editChoices := [];
      commandResyncs := 0;
    }

    /** `sync_command_choices`: both commands offer the gamemode names in dictionary order. */
    method SyncCommandChoices()
      modifies this`playChoices, this`editChoices
      ensures playChoices == names && editChoices == names
    {
      playChoices := names;
      editChoices := names;
    }

    /** `gamemodes[stem] = cfg`: a new key goes last, an existing key keeps its place. */
    method Assign(stem: string, cfg: Config)
      requires Valid()
      modifies this`gamemodes, this`names
      ensures Valid()
      ensures gamemodes == old(gamemodes)[stem := cfg]
      ensures names == if stem in old(gamemodes) then old(names) else old(names) + [stem]
    {
      if stem !in gamemodes {
        names := names + [stem];
      }
      gamemodes := gamemodes[stem := cfg];
    }

    /** `GamemodeConfig(path, task_handler)`, seen from the server: a new config object for the file. */
    method CreateConfig(p: Path) returns (cfg: Config)
      requires Valid()
      ensures fresh(cfg) && cfg.path == p
    {
      cfg := NewGamemodeConfig(p, fs, trace, nullEvent);
    }

    /**
     * `_reload_inner` over the files of the directory walk, in the walk's
     * order: a file whose stem is not yet a gamemode gets a new config; an
     * existing config is kept. Then the choices are recomputed.
     */
    method ReloadInner(listing: seq<Path>)
      requires Valid()
      modifies this
      ensures Valid()
      ensures names == Extend(old(names), Stems(listing))
      ensures forall k :: k in old(gamemodes) ==> k in gamemodes && gamemodes[k] == old(gamemodes)[k]
      ensures forall k :: k in gamemodes && k !in old(gamemodes) ==>
        fresh(gamemodes[k]) && k in FirstPaths(listing) && gamemodes[k].path == FirstPaths(listing)[k]
      ensures playChoices == names && editChoices == names
      ensures commandResyncs == old(commandResyncs)
    {
      for i := 0 to |listing|
        invariant ReloadInvariant(old(gamemodes), old(names), listing, i)
        invariant forall k :: k in gamemodes && k !in old(gamemodes) ==> fresh(gamemodes[k])
        invariant commandResyncs == old(commandResyncs)
      {
        ReloadNext(old(gamemodes), old(names), listing, i);
      }
      assert listing[..|listing|] == listing;
      SyncCommandChoices();
    }

    ghost predicate ReloadInvariant(modes0: map<string, Config>, names0: seq<string>, listing: seq<Path>, i: int)
      reads this, nullEvent
    {
      && 0 <= i <= |listing|
      && Valid()
      && WalkState(modes0, names0, listing, i, gamemodes, names)
    }

    /** One file of the walk. */
    method ReloadNext(ghost modes0: map<string, Config>, ghost names0: seq<string>, listing: seq<Path>, i: int)
      requires i < |listing| && ReloadInvariant(modes0, names0, listing, i)
      modifies this`gamemodes, this`names
      ensures ReloadInvariant(modes0, names0, listing, i + 1)
      ensures listing[i].stem in old(gamemodes) ==> gamemodes == old(gamemodes)
      ensures listing[i].stem !in old(gamemodes) ==>
        && listing[i].stem in gamemodes && fresh(gamemodes[listing[i].stem])
        && gamemodes == old(gamemodes)[listing[i].stem := gamemodes[listing[i].stem]]
    {
      var child := listing[i];
      if child.stem !in gamemodes {
        var cfg := CreateConfig(child);
        WalkNew(modes0, names0, listing, i, gamemodes, names, cfg);
        Assign(child.stem, cfg);
      } else {
        WalkKeep(modes0, names0, listing, i, gamemodes, names);
      }
    }

    /** `shutil.copy(file, new_path)`, then a config for the copy. */
    method CopyDefault(file: Path) returns (cfg: Config)
      requires Valid() && fs.Valid() && |dir| > 0 && file in fs.files && Under(file, dir[..|dir| - 1])
      modifies fs
      ensures fs.Valid()
      ensures fs.files == old(fs.files)[CopyPath(dir, file) := FileData(old(fs.files)[file].lines, old(fs.clock))]
      ensures fs.dirs == old(fs.dirs)
      ensures fresh(cfg) && cfg.path == CopyPath(dir, file)
    {
      var newPath := CopyPath(dir, file);
      fs.Write(newPath, fs.files[file].lines);
      cfg := CreateConfig(newPath);
    }

    /**
     * `load_defaults`: unless the manager is READY and its directory exists,
     * create the directory, copy every default config into it and register
     * it under its stem, recompute the choices and become READY.
     */
    method LoadDefaults(defaults: seq<Path>)
      requires Valid() && fs.Valid() && Copyable(dir, defaults)
      requires forall i :: 0 <= i < |defaults| ==> defaults[i] in fs.files
      modifies this, fs, manager
      ensures Valid() && fs.Valid()
      ensures manager.jobs == old(manager.jobs)
      ensures old(manager.state) == Ready && dir in old(fs.dirs) ==>
        && manager.state == Ready && fs.files == old(fs.files) && fs.dirs == old(fs.dirs)
        && gamemodes == old(gamemodes) && names == old(names)
        && playChoices == old(playChoices) && editChoices == old(editChoices)
      ensures !(old(manager.state) == Ready && dir in old(fs.dirs)) ==>
        && manager.state == Ready && dir in fs.dirs
        && names == Extend(old(names), Stems(defaults))
        && (forall k :: k in old(gamemodes) && k !in Stems(defaults) ==> k in gamemodes && gamemodes[k] == old(gamemodes)[k])
        && (forall k :: k in Copies(dir, defaults) ==> k in gamemodes && gamemodes[k].path == Copies(dir, defaults)[k])
        && (forall i :: 0 <= i < |defaults| ==> CopyPath(dir, defaults[i]) in fs.files)
        && playChoices == names && editChoices == names
      ensures commandResyncs == old(commandResyncs)
    {
      if manager.state != Ready || dir !in fs.dirs {
        if dir !in fs.dirs {
          fs.MakeDir(dir);
        }
        CopyDefaults(defaults);
        LoadDone(old(gamemodes), old(names), dir, defaults, gamemodes, names, fs.files);
        SyncCommandChoices();
        manager.state := Ready;
      }
    }

    /** The loop of `load_defaults`: each default copied into the directory and assigned under its stem, in order. */
    method CopyDefaults(defaults: seq<Path>)
      requires Valid() && fs.Valid() && Copyable(dir, defaults) && dir in fs.dirs
      requires forall i :: 0 <= i < |defaults| ==> defaults[i] in fs.files
      modifies this`gamemodes, this`names, fs
      ensures Valid() && fs.Valid() && dir in fs.dirs
      ensures LoadState(old(gamemodes), old(names), dir, defaults, |defaults|, gamemodes, names, fs.files)
    {
      for i := 0 to |defaults|
        invariant LoadInvariant(old(gamemodes), old(names), defaults, i)
      {
        LoadNext(old(gamemodes), old(names), defaults, i);
      }
    }

    ghost predicate LoadInvariant(modes0: map<string, Config>, names0: seq<string>, defaults: seq<Path>, i: int)
      reads this, nullEvent, fs
    {
      && Valid() && fs.Valid() && dir in fs.dirs
      && LoadState(modes0, names0, dir, defaults, i, gamemodes, names, fs.files)
    }

    /** One default config. */
    method LoadNext(ghost modes0: map<string, Config>, ghost names0: seq<string>, defaults: seq<Path>, i: int)
      requires i < |defaults| && LoadInvariant(modes0, names0, defaults, i)
      modifies this`gamemodes, this`names, fs
      ensures LoadInvariant(modes0, names0, defaults, i + 1)
    {
      var file := defaults[i];
      ghost var files0 := fs.files;
      var cfg := CopyDefault(file);
      LoadStep(modes0, names0, dir, defaults, i, gamemodes, names, files0, cfg, fs.files[CopyPath(dir, file)]);
      Assign(file.stem, cfg);
    }

    /** `GamemodeConfig(path, task_handler)` followed by `set_value(DISPLAY_NAME, display)`. */
    method CreateNamed(p: Path, display: string) returns (cfg: Config)
      requires Valid() && fs.Valid()
      modifies fs, trace
      ensures fs.Valid()
      ensures fresh(cfg) && cfg.path == p
      ensures DisplayName in cfg.cache && cfg.cache[DisplayName].value == StrVal(display)
    {
      cfg := NewGamemodeConfig(p, fs, trace, nullEvent);
      DisplayNameIsString(cfg);
      cfg.SetValue(DisplayName, StrVal(display));
    }

    /**
     * The checks and the insertion of `new_gamemode`: refuse an invalid
     * name, or one whose escaped form is already a gamemode; otherwise create
     * the config `<escaped>.txt` in the server's directory, set its display
     * name to the name as typed, register it under the escaped name and ask
     * the bot to re-register its commands.
     */
    method NewGamemode(name: string) returns (r: Option<Rejection>)
      requires Valid() && fs.Valid()
      modifies this, fs, trace
      ensures Valid() && fs.Valid()
      ensures GetNameError(name).Some? ==>
        r == Some(InvalidName(GetNameError(name).value))
        && gamemodes == old(gamemodes) && names == old(names) && commandResyncs == old(commandResyncs)
      ensures GetNameError(name).None? && EscapedName(name) in old(gamemodes) ==>
        r == Some(NameTaken(EscapedName(name)))
        && gamemodes == old(gamemodes) && names == old(names) && commandResyncs == old(commandResyncs)
      ensures GetNameError(name).None? && EscapedName(name) !in old(gamemodes) ==>
        var esc := EscapedName(name);
        && r == None
        && names == old(names) + [esc]
        && gamemodes == old(gamemodes)[esc := gamemodes[esc]]
        && fresh(gamemodes[esc])
        && gamemodes[esc].path == Path(dir, esc, ".txt")
        && DisplayName in gamemodes[esc].cache
        && gamemodes[esc].cache[DisplayName].value == StrVal(name)
        && commandResyncs == old(commandResyncs) + 1
      ensures playChoices == old(playChoices) && editChoices == old(editChoices)
    {
      var error := GetNameError(name);
      if error.Some? {
        return Some(InvalidName(error.value));
      }
      var esc := EscapedName(name);
      if esc in gamemodes {
        return Some(NameTaken(esc));
      }
      var cfg := CreateNamed(Path(dir, esc, ".txt"), name);
      Assign(esc, cfg);
      commandResyncs := commandResyncs + 1;
      r := None;
    }
  }

  /** A new gamemode config has a `display_name` option parsed as a string. */
  lemma DisplayNameIsString(c: Config)
    requires Registered(c, Schema)
    ensures DisplayName in c.cache && c.cache[DisplayName].parser == StringParser
  {
    assert Schema[0].name == DisplayName;
    assert c.Store()[DisplayName] == DeclSlot(Schema[0]);
  }
}
