/**
 * `WordListManager.reload_inner` of `resources/wordlistmanager.py`: a word
 * list assembled from a list of path specifications, read left to right.
 * A specification starting with `-` names a blacklist, one starting with
 * `&` a whitelist, anything else a list to append. Readable files are given
 * as a map from path text to lines; a path not in the map does not exist
 * (or is not a regular file) and is skipped.
 */
module WordLists {
  import opened Strings

  datatype ListKind = Append | Blacklist | Whitelist

  /** The kind of a path specification and the path it names (one prefix character removed). */
  function Classify(spec: string): (r: (ListKind, string))
    ensures r.0 == Blacklist <==> |spec| > 0 && spec[0] == '-'
    ensures r.0 == Whitelist <==> |spec| > 0 && spec[0] == '&'
    ensures |r.1| == (if r.0 == Append then |spec| else |spec| - 1)
  {
    if |spec| > 0 && spec[0] == '-' then (Blacklist, spec[1..])
    else if |spec| > 0 && spec[0] == '&' then (Whitelist, spec[1..])
    else (Append, spec)
  }

  /** The specification text of a kind and a path: its prefix character, then the path. */
  function SpecText(kind: ListKind, path: string): string {
    match kind
    case Append => path
    case Blacklist => "-" + path
    case Whitelist => "&" + path
  }

  /** Classifying takes a specification apart into a kind and a path that put it back together. */
  lemma ClassifyRoundTrip(spec: string)
    ensures SpecText(Classify(spec).0, Classify(spec).1) == spec
  {
    if |spec| > 0 && (spec[0] == '-' || spec[0] == '&') {
      assert [spec[0]] + spec[1..] == spec;
    }
  }

  /** Putting a kind and a path together classifies back to them, unless an append path itself starts with a prefix. */
  lemma SpecTextRoundTrip(kind: ListKind, path: string)
    requires kind == Append ==> |path| == 0 || (path[0] != '-' && path[0] != '&')
    ensures Classify(SpecText(kind, path)) == (kind, path)
  {
    if kind != Append {
      assert SpecText(kind, path)[1..] == path;
    }
  }

  /** `lower(strip(line))` over every line: what a blacklist or whitelist file names. */
  function Cleaned(lines: seq<string>): set<string> {
    set l | l in lines :: Lower(Strip(l))
  }

  /** `lower(strip(line))` over the lines whose stripped text is alphabetic: what an appended file adds. */
  function AlphaWords(lines: seq<string>): (ws: set<string>)
    ensures ws <= Cleaned(lines)
  {
    set l | l in lines && IsAlpha(Strip(l)) :: Lower(Strip(l))
  }

  /** One iteration of the loop: the word set after the segment `spec`. */
  function Step(words: set<string>, spec: string, files: map<string, seq<string>>): set<string> {
    var (kind, path) := Classify(spec);
    if path !in files then words
    else match kind
      case Blacklist => words - Cleaned(files[path])
      case Whitelist => words * Cleaned(files[path])
      case Append => words + AlphaWords(files[path])
  }

  /** The word set after the whole specification list, starting from the empty set. */
  function Fold(specs: seq<string>, files: map<string, seq<string>>): set<string> {
    if |specs| == 0 then {} else Step(Fold(specs[..|specs| - 1], files), specs[|specs| - 1], files)
  }

  // ---------------------------------------------------------------------
  // Which words the fold keeps
  // ---------------------------------------------------------------------

  /** Segment `spec` names an existing file to append, and `w` is one of the words it adds. */
  predicate Adds(spec: string, files: map<string, seq<string>>, w: string) {
    Classify(spec).0 == Append && Classify(spec).1 in files && w in AlphaWords(files[Classify(spec).1])
  }

  /** Segment `spec` leaves `w` in place if it is there. */
  predicate Keeps(spec: string, files: map<string, seq<string>>, w: string) {
    var (kind, path) := Classify(spec);
    path !in files
    || kind == Append
    || (kind == Blacklist && w !in Cleaned(files[path]))
    || (kind == Whitelist && w in Cleaned(files[path]))
  }

  /** `w` was added at segment `j` and every later segment kept it. */
  predicate AddedAndKept(specs: seq<string>, files: map<string, seq<string>>, j: int, w: string) {
    0 <= j < |specs| && Adds(specs[j], files, w) && forall k :: j < k < |specs| ==> Keeps(specs[k], files, w)
  }

  lemma StepMembership(words: set<string>, spec: string, files: map<string, seq<string>>, w: string)
    ensures w in Step(words, spec, files) <==> Adds(spec, files, w) || (w in words && Keeps(spec, files, w))
  {
  }

  /**
   * A word is in the list exactly when some appended file added it and no
   * later blacklist named it and every later whitelist named it.
   */
  lemma FoldMembership(specs: seq<string>, files: map<string, seq<string>>, w: string)
    ensures w in Fold(specs, files) <==> exists j :: AddedAndKept(specs, files, j, w)
  {
    if w in Fold(specs, files) {
      FoldMemberAdded(specs, files, w);
    }
    if j :| AddedAndKept(specs, files, j, w) {
      AddedIsMember(specs, files, j, w);
    }
  }

  lemma {:induction false} FoldMemberAdded(specs: seq<string>, files: map<string, seq<string>>, w: string)
    requires w in Fold(specs, files)
    ensures exists j :: AddedAndKept(specs, files, j, w)
  {
    var n := |specs| - 1;
    var pre := specs[..n];
    StepMembership(Fold(pre, files), specs[n], files, w);
    if Adds(specs[n], files, w) {
      assert AddedAndKept(specs, files, n, w);
    } else {
      FoldMemberAdded(pre, files, w);
      var j :| AddedAndKept(pre, files, j, w);
      KeptOneMore(specs, files, j, w);
    }
  }

  /** A word added and kept before the last segment, which keeps it too, is added and kept. */
  lemma KeptOneMore(specs: seq<string>, files: map<string, seq<string>>, j: int, w: string)
    requires |specs| > 0 && AddedAndKept(specs[..|specs| - 1], files, j, w) && Keeps(specs[|specs| - 1], files, w)
    ensures AddedAndKept(specs, files, j, w)
  {
    var n := |specs| - 1;
    assert specs[..n][j] == specs[j];
    forall k | j < k < |specs| ensures Keeps(specs[k], files, w) {
      if k < n {
        assert specs[..n][k] == specs[k];
      }
    }
  }

  lemma {:induction false} AddedIsMember(specs: seq<string>, files: map<string, seq<string>>, j: int, w: string)
    requires AddedAndKept(specs, files, j, w)
    ensures w in Fold(specs, files)
  {
    var n := |specs| - 1;
    var pre := specs[..n];
    StepMembership(Fold(pre, files), specs[n], files, w);
    if j < n {
      assert AddedAndKept(pre, files, j, w);
      AddedIsMember(pre, files, j, w);
    }
  }

  /** Every word of the list is alphabetic, so non-empty, and lower-case. */
  lemma {:induction false} FoldWordsAreWords(specs: seq<string>, files: map<string, seq<string>>)
    ensures forall w :: w in Fold(specs, files) ==> IsAlpha(w) && IsLowerCase(w)
  {
    forall w | w in Fold(specs, files) ensures IsAlpha(w) && IsLowerCase(w) {
      FoldMembership(specs, files, w);
      var j :| AddedAndKept(specs, files, j, w);
      var l :| l in files[Classify(specs[j]).1] && IsAlpha(Strip(l)) && w == Lower(Strip(l));
      LowerIsLowerCase(Strip(l));
    }
  }

  /** A list in which no segment appends an existing file yields no word. */
  lemma NoAppendNoWords(specs: seq<string>, files: map<string, seq<string>>)
    requires forall j :: 0 <= j < |specs| ==> Classify(specs[j]).0 != Append || Classify(specs[j]).1 !in files
    ensures Fold(specs, files) == {}
  {
    forall w | w in Fold(specs, files) ensures false {
      FoldMembership(specs, files, w);
    }
  }

  /** The fold starts from the empty set: a first segment that is a whitelist leaves nothing. */
  lemma LeadingWhitelist(spec: string, files: map<string, seq<string>>)
    requires |spec| > 0 && spec[0] == '&'
    ensures Fold([spec], files) == {}
  {
    assert [spec][..0] == [];
  }

  /** A segment whose file is missing changes nothing. */
  lemma MissingFileSkipped(specs: seq<string>, spec: string, files: map<string, seq<string>>)
    requires Classify(spec).1 !in files
    ensures Fold(specs + [spec], files) == Fold(specs, files)
  {
    assert (specs + [spec])[..|specs|] == specs;
  }

  /** A blacklist only removes what is there: a word appended after it stays. */
  lemma BlacklistThenAppend(specs: seq<string>, black: string, app: string, files: map<string, seq<string>>, w: string)
    requires |black| > 0 && black[0] == '-'
    requires Adds(app, files, w)
    ensures w in Fold(specs + [black, app], files)
  {
    FoldMembership(specs + [black, app], files, w);
    assert AddedAndKept(specs + [black, app], files, |specs| + 1, w);
  }

  /** An existing blacklist removes every word it names and nothing else. */
  lemma BlacklistRemoves(words: set<string>, spec: string, files: map<string, seq<string>>)
    requires Classify(spec).0 == Blacklist && Classify(spec).1 in files
    ensures var named := Cleaned(files[Classify(spec).1]);
      (forall w :: w in named ==> w !in Step(words, spec, files))
      && forall w :: w in words && w !in named ==> w in Step(words, spec, files)
  {
  }

  // ---------------------------------------------------------------------
  // A debug run, as written
  // ---------------------------------------------------------------------

  /**
   * One segment in a run with debug logging on. The blacklist branch first
   * reads the file's lines to log the words it will remove, then reads
   * them again for the subtraction; the second read of the same open file
   * yields no line, so nothing is removed.
   */
  function StepAsWrittenDebug(words: set<string>, spec: string, files: map<string, seq<string>>): (r: set<string>)
    ensures Classify(spec).0 == Blacklist ==> r == words
    ensures Classify(spec).0 != Blacklist ==> r == Step(words, spec, files)
  {
    var (kind, path) := Classify(spec);
    if path in files && kind == Blacklist then words - Cleaned([])
    else Step(words, spec, files)
  }

  /** In a debug run an existing blacklist keeps every word, while the intended step drops the word it names. */
  lemma DebugBlacklistIgnored()
    ensures "cat" in StepAsWrittenDebug({"cat"}, "-b", map["b" := ["cat\n"]])
    ensures "cat" !in Step({"cat"}, "-b", map["b" := ["cat\n"]])
  {
    assert Classify("-b") == (Blacklist, "b");
    assert Strip("cat\n") == "cat";
    assert Lower("cat") == "cat";
    assert "cat" in Cleaned(["cat\n"]);
  }

  // ---------------------------------------------------------------------
  // The loop
  // ---------------------------------------------------------------------

  predicate NoDuplicates(ws: seq<string>) {
    forall i, j :: 0 <= i < j < |ws| ==> ws[i] != ws[j]
  }

  /** `tuple(words)`: the elements of a set, each once, in some order. */
  method Freeze(words: set<string>) returns (r: seq<string>)
    ensures NoDuplicates(r)
    ensures forall w :: w in r <==> w in words
  {
    r := [];
    var rest := words;
    while rest != {}
      invariant NoDuplicates(r)
      invariant forall w :: w in r ==> w !in rest
      invariant forall w :: w in words <==> w in r || w in rest
      decreases |rest|
    {
      var w :| w in rest;
      r := r + [w];
      rest := rest - {w};
    }
  }

  class WordListManager {
    /** The assembled word list. */
    var words: seq<string>

    /** The list is empty until the first load. */
    constructor ()
      ensures words == []
    {
      words := [];
    }

    /**
     * `reload_inner`: fold the segments of `paths` (what the path provider
     * returns) over the readable `files`, then freeze the set.
     */
    method ReloadInner(paths: seq<string>, files: map<string, seq<string>>)
      modifies this
      ensures NoDuplicates(words)
      ensures forall w :: w in words <==> w in Fold(paths, files)
    {
      var acc: set<string> := {};
      for i := 0 to |paths|
        invariant acc == Fold(paths[..i], files)
      {
        assert paths[..i + 1][..i] == paths[..i];
        var (kind, path) := Classify(paths[i]);
        if path in files {
          var lines := files[path];
          match kind
          case Blacklist => acc := acc - Cleaned(lines);
          case Whitelist => acc := acc * Cleaned(lines);
          case Append => acc := acc + AlphaWords(lines);
        }
      }
      assert paths[..|paths|] == paths;
      words := Freeze(acc);
    }
  }
}
