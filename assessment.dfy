/**
 * The command-line hangman of the root-level `assessment.py`: a resource
 * manager that loads synchronously, the random word provider's word list
 * and the `Player` whose `turn` reads guesses until one counts. Console
 * input is a sequence of lines; printing is not modelled.
 */
module Assessment {
  import opened Wrappers
  import opened Strings
  import WordLists
  import opened Singleplayer

  // ---------------------------------------------------------------------
  // The word list of `RandomWordProvider.reload_inner`
  // ---------------------------------------------------------------------

  /** A path starting with `-` names a blacklist. */
  predicate IsBlacklist(spec: string) {
    |spec| > 0 && spec[0] == '-'
  }

  /** The file a path specification names: one leading `-` removed. */
  function FilePath(spec: string): (path: string)
    ensures IsBlacklist(spec) ==> spec == "-" + path
    ensures !IsBlacklist(spec) ==> path == spec
  {
    if IsBlacklist(spec) then spec[1..] else spec
  }

  /** Every file named exists: `open` raises otherwise. */
  predicate AllPresent(specs: seq<string>, files: map<string, seq<string>>) {
    forall i :: 0 <= i < |specs| ==> FilePath(specs[i]) in files
  }

  /** The cleaned lines of a list file that are added: longer than three characters and alphabetic. */
  function LongWords(lines: seq<string>): (ws: set<string>)
    ensures ws <= WordLists.Cleaned(lines)
  {
    set l | l in lines && |Lower(Strip(l))| > 3 && IsAlpha(Lower(Strip(l))) :: Lower(Strip(l))
  }

  /** One file of the loop: a blacklist discards every cleaned line, any other file adds its long words. */
  function Step(words: set<string>, spec: string, files: map<string, seq<string>>): set<string>
    requires FilePath(spec) in files
  {
    if IsBlacklist(spec) then words - WordLists.Cleaned(files[FilePath(spec)])
    else words + LongWords(files[FilePath(spec)])
  }

  /** The word set after all the files, starting from the empty set. */
  function Fold(specs: seq<string>, files: map<string, seq<string>>): set<string>
    requires AllPresent(specs, files)
  {
    if |specs| == 0 then {}
    else Step(Fold(specs[..|specs| - 1], files), specs[|specs| - 1], files)
  }

  /** `w` was added by file `j` and no later blacklist names it. */
  predicate AddedAndKept(specs: seq<string>, files: map<string, seq<string>>, j: int, w: string)
    requires AllPresent(specs, files)
  {
    && 0 <= j < |specs| && !IsBlacklist(specs[j]) && w in LongWords(files[FilePath(specs[j])])
    && forall k :: j < k < |specs| && IsBlacklist(specs[k]) ==> w !in WordLists.Cleaned(files[FilePath(specs[k])])
  }

  lemma AllPresentPrefix(specs: seq<string>, files: map<string, seq<string>>, n: nat)
    requires AllPresent(specs, files) && n <= |specs|
    ensures AllPresent(specs[..n], files)
  {
    forall i | 0 <= i < n ensures FilePath(specs[..n][i]) in files {
      assert specs[..n][i] == specs[i];
    }
  }

  lemma StepMembership(words: set<string>, spec: string, files: map<string, seq<string>>, w: string)
    requires FilePath(spec) in files
    ensures w in Step(words, spec, files) <==>
      || (!IsBlacklist(spec) && w in LongWords(files[FilePath(spec)]))
      || (w in words && (IsBlacklist(spec) ==> w !in WordLists.Cleaned(files[FilePath(spec)])))
  {
  }

  /** A word is in the list exactly when some list added it and no later blacklist named it. */
  lemma FoldMembership(specs: seq<string>, files: map<string, seq<string>>, w: string)
    requires AllPresent(specs, files)
    ensures w in Fold(specs, files) <==> exists j :: AddedAndKept(specs, files, j, w)
  {
    if w in Fold(specs, files) {
      FoldMemberAdded(specs, files, w);
    }
    if j :| AddedAndKept(specs, files, j, w) {
      AddedIsMember(specs, files, j, w);
    }
  }

  lemma {:induction false} FoldMemberAdded(specs: seq<string>, files: map<string, seq<string>>, w: string)
    requires AllPresent(specs, files) && w in Fold(specs, files)
    ensures exists j :: AddedAndKept(specs, files, j, w)
  {
    var n := |specs| - 1;
    var pre := specs[..n];
    AllPresentPrefix(specs, files, n);
    StepMembership(Fold(pre, files), specs[n], files, w);
    if !IsBlacklist(specs[n]) && w in LongWords(files[FilePath(specs[n])]) {
      assert AddedAndKept(specs, files, n, w);
    } else {
      FoldMemberAdded(pre, files, w);
      var j :| AddedAndKept(pre, files, j, w);
      KeptOneMore(specs, files, j, w);
    }
  }

  /** A word added and kept before the last file, which does not blacklist it, is still added and kept. */
  lemma KeptOneMore(specs: seq<string>, files: map<string, seq<string>>, j: int, w: string)
    requires AllPresent(specs, files) && |specs| > 0
    requires AllPresent(specs[..|specs| - 1], files) && AddedAndKept(specs[..|specs| - 1], files, j, w)
    requires IsBlacklist(specs[|specs| - 1]) ==> w !in WordLists.Cleaned(files[FilePath(specs[|specs| - 1])])
    ensures AddedAndKept(specs, files, j, w)
  {
    var n := |specs| - 1;
    assert specs[j] == specs[..n][j];
    forall k | j < k < |specs| && IsBlacklist(specs[k]) ensures w !in WordLists.Cleaned(files[FilePath(specs[k])]) {
      if k < n {
        assert specs[k] == specs[..n][k];
      }
    }
  }

  lemma {:induction false} AddedIsMember(specs: seq<string>, files: map<string, seq<string>>, j: int, w: string)
    requires AllPresent(specs, files) && AddedAndKept(specs, files, j, w)
    ensures w in Fold(specs, files)
  {
    var n := |specs| - 1;
    var pre := specs[..n];
    AllPresentPrefix(specs, files, n);
    StepMembership(Fold(pre, files), specs[n], files, w);
    if j < n {
      assert AddedAndKept(pre, files, j, w);
      AddedIsMember(pre, files, j, w);
    }
  }

  /** Every word of the list is longer than three letters, alphabetic and lower-case. */
  lemma FoldWords(specs: seq<string>, files: map<string, seq<string>>)
    requires AllPresent(specs, files)
    ensures forall w :: w in Fold(specs, files) ==> |w| > 3 && IsAlpha(w) && IsLowerCase(w)
  {
    forall w | w in Fold(specs, files) ensures |w| > 3 && IsAlpha(w) && IsLowerCase(w) {
      FoldMembership(specs, files, w);
      var j :| AddedAndKept(specs, files, j, w);
      var l :| l in files[FilePath(specs[j])] && |Lower(Strip(l))| > 3 && IsAlpha(Lower(Strip(l))) && w == Lower(Strip(l));
      LowerIsLowerCase(Strip(l));
    }
  }

  /** `isalpha` does not depend on case. */
  lemma AlphaLower(s: string)
    ensures IsAlpha(Lower(s)) <==> IsAlpha(s)
  {
  }

  /**
   * Without `&` paths (whitelists in `resources/wordlistmanager.py`), the
   * legacy list is part of the list the newer fold builds from the same
   * paths: the two agree on blacklists, and the newer one adds every
   * alphabetic word, not only the long ones.
   */
  lemma {:induction false} FoldWithinNewer(specs: seq<string>, files: map<string, seq<string>>)
    requires AllPresent(specs, files)
    requires forall i :: 0 <= i < |specs| ==> |specs[i]| == 0 || specs[i][0] != '&'
    ensures Fold(specs, files) <= WordLists.Fold(specs, files)
  {
    if |specs| > 0 {
      var n := |specs| - 1;
      var pre := specs[..n];
      AllPresentPrefix(specs, files, n);
      FoldWithinNewer(pre, files);
      var spec := specs[n];
      assert WordLists.Classify(spec).1 == FilePath(spec);
      if !IsBlacklist(spec) {
        var lines := files[FilePath(spec)];
        forall w | w in LongWords(lines) ensures w in WordLists.AlphaWords(lines) {
          var l :| l in lines && |Lower(Strip(l))| > 3 && IsAlpha(Lower(Strip(l))) && w == Lower(Strip(l));
          AlphaLower(Strip(l));
        }
      }
    }
  }

  // ---------------------------------------------------------------------
  // The resource manager and the word provider
  // ---------------------------------------------------------------------

  datatype LoadState = Uninitialized | Initializing | Ready

  /**
   * `RandomWordProvider`, with the `ResourceManager` state it inherits.
   * Loading runs to completion inside `reload`, so no caller ever sees the
   * manager `Initializing`.
   */
  class RandomWordProvider {
    const filePaths: seq<string>
    var state: LoadState
    var words: seq<string>

    predicate Valid()
      reads this
    {
      state != Initializing
    }

    /** `RandomWordProvider(file_paths)`: nothing loaded yet. */
    constructor (filePaths: seq<string>)
      ensures Valid() && state == Uninitialized && words == [] && this.filePaths == filePaths
    {
      this.filePaths := filePaths;
      state := Uninitialized;
      words := [];
    }

    /** The lines of one file run through the loop body: discard, or add the long alphabetic ones. */
    static method ReadList(acc: set<string>, spec: string, lines: seq<string>) returns (r: set<string>)
      ensures IsBlacklist(spec) ==> r == acc - WordLists.Cleaned(lines)
      ensures !IsBlacklist(spec) ==> r == acc + LongWords(lines)
    {
      r := acc;
      for j := 0 to |lines|
        invariant IsBlacklist(spec) ==> r == acc - WordLists.Cleaned(lines[..j])
        invariant !IsBlacklist(spec) ==> r == acc + LongWords(lines[..j])
      {
        var word := Lower(Strip(lines[j]));
        assert forall l :: l in lines[..j + 1] <==> l in lines[..j] || l == lines[j];
        if IsBlacklist(spec) {
          r := r - {word};
        } else if |word| > 3 && IsAlpha(word) {
          r := r + {word};
        }
      }
      assert lines[..|lines|] == lines;
    }

    /** `reload_inner`: fold the files from the empty set, then freeze the set into a list. */
    method ReloadInner(files: map<string, seq<string>>)
      requires AllPresent(filePaths, files)
      modifies this`words
      ensures WordLists.NoDuplicates(words)
      ensures forall w :: w in words <==> w in Fold(filePaths, files)
    {
      var acc: set<string> := {};
      for i := 0 to |filePaths|
        invariant AllPresent(filePaths[..i], files)
        invariant acc == Fold(filePaths[..i], files)
      {
        assert filePaths[..i + 1][..i] == filePaths[..i];
        var spec := filePaths[i];
        acc := ReadList(acc, spec, files[FilePath(spec)]);
      }
      assert filePaths[..|filePaths|] == filePaths;
      words := WordLists.Freeze(acc);
    }

    /** `reload`: `Initializing`, the load, then `Ready`. */
    method Reload(files: map<string, seq<string>>)
      requires AllPresent(filePaths, files)
      modifies this
      ensures Valid() && state == Ready
      ensures WordLists.NoDuplicates(words)
      ensures forall w :: w in words <==> w in Fold(filePaths, files)
    {
      state := Initializing;
      ReloadInner(files);
      state := Ready;
    }

    /** `hook_ready`: load the first time; once loaded, do nothing. */
    method HookReady(files: map<string, seq<string>>)
      requires Valid() && AllPresent(filePaths, files)
      modifies this
      ensures Valid() && state == Ready
      ensures old(state) == Ready ==> words == old(words)
      ensures old(state) == Uninitialized ==>
        WordLists.NoDuplicates(words) && forall w :: w in words <==> w in Fold(filePaths, files)
    {
      if state == Uninitialized {
        Reload(files);
      }
    }

    /**
     * `get_word`: make sure the list is loaded, then `random.choice` (the
     * index `pick` stands for the random draw), lower-cased; the words are
     * alphabetic, so there is no trailing newline to remove. An empty list
     * raises `IndexError` (`None`).
     */
    method GetWord(files: map<string, seq<string>>, pick: nat) returns (w: Option<string>)
      requires Valid() && AllPresent(filePaths, files)
      requires state == Ready ==> forall w :: w in words <==> w in Fold(filePaths, files)
      modifies this
      ensures Valid() && state == Ready
      ensures forall w :: w in words <==> w in Fold(filePaths, files)
      ensures w.None? <==> words == []
      ensures w.Some? ==> w.value in Fold(filePaths, files) && |w.value| > 3
    {
      HookReady(files);
      if |words| == 0 {
        return None;
      }
      var chosen := words[pick % |words|];
      var lowered := Lower(chosen);
      FoldWords(filePaths, files);
      assert lowered == chosen;
      w := Some(lowered);
    }
  }

  // ---------------------------------------------------------------------
  // The player
  // ---------------------------------------------------------------------

  datatype PlayerState = Playing | Won | Dead

  /** What the loop of `turn` does with one line of input. */
  datatype Action =
    | EndTurn          // empty input: the loop condition fails
    | Reprompt         // not letters, a letter already guessed, or several letters
    | Letter(c: char)  // a new letter: played, then the turn ends

  /** One input line, stripped and lower-cased, judged against the letters already guessed. */
  function Decide(guessed: seq<char>, input: string): (a: Action)
    ensures a == EndTurn <==> Strip(input) == ""
    ensures a.Letter? <==> |Strip(input)| == 1 && IsLetter(Strip(input)[0]) && LowerChar(Strip(input)[0]) !in guessed
    ensures a.Letter? ==> a.c == LowerChar(Strip(input)[0]) && IsLowerLetter(a.c)
  {
    var g := Lower(Strip(input));
    if |g| == 0 then EndTurn
    else if !IsAlpha(g) then Reprompt
    else if |g| == 1 && g[0] !in guessed then Letter(g[0])
    else Reprompt
  }

  /** How many leading inputs only re-prompt. */
  function Reprompts(guessed: seq<char>, inputs: seq<string>): (n: nat)
    ensures n <= |inputs|
    ensures forall j :: 0 <= j < n ==> Decide(guessed, inputs[j]) == Reprompt
    ensures n < |inputs| ==> Decide(guessed, inputs[n]) != Reprompt
  {
    if |inputs| == 0 || Decide(guessed, inputs[0]) != Reprompt then 0
    else 1 + Reprompts(guessed, inputs[1..])
  }

  class Player {
    const word: string
    var lives: int
    var progress: seq<char>
    var guessed: seq<char>
    var state: PlayerState

    ghost predicate Valid()
      reads this
    {
      && RowFits(progress, word)
      && (state == Won ==> '_' !in progress)
      && (state == Dead ==> lives <= 0)
    }

    /** `Player(word, lives)`: every letter hidden, nothing guessed, playing. */
    constructor (word: string, lives: int)
      ensures Valid()
      ensures this.word == word && this.lives == lives && guessed == [] && state == Playing
      ensures |progress| == |word| && forall i :: 0 <= i < |word| ==> progress[i] == '_'
    {
      this.word := word;
      this.lives := lives;
      progress := seq(|word|, _ => '_');
      guessed := [];
      state := Playing;
    }

    /**
     * `turn` on the console lines `inputs`: re-prompt past guesses that are
     * not letters, repeat a letter or hold several letters; stop at an
     * empty line; play a new letter and stop. `used` is the number of
     * lines read. When the lines run out the turn ends with nothing played.
     */
    method Turn(inputs: seq<string>) returns (used: nat)
      requires Valid()
      modifies this
      ensures Valid() && used <= |inputs|
      ensures var n := Reprompts(old(guessed), inputs);
        && (n == |inputs| ==> used == |inputs| && unchanged(this))
        && (n < |inputs| && !Decide(old(guessed), inputs[n]).Letter? ==> used == n + 1 && unchanged(this))
        && (n < |inputs| && Decide(old(guessed), inputs[n]).Letter? ==>
              used == n + 1 && Played(Decide(old(guessed), inputs[n]).c))
    {
      used := 0;
      while used < |inputs|
        invariant used <= Reprompts(old(guessed), inputs)
        invariant unchanged(this)
      {
        var a := Decide(guessed, inputs[used]);
        used := used + 1;
        if a != Reprompt {
          if a.Letter? {
            PlayLetter(a.c);
          }
          return;
        }
      }
    }

    /** What playing letter `c` did, relative to the state before the turn. */
    twostate predicate Played(c: char)
      reads this
    {
      && |old(progress)| == |word| && guessed == old(guessed) + [c]
      && (c in word ==>
            && progress == Reveal(old(progress), word, c) && lives == old(lives)
            && state == if '_' !in progress then Won else old(state))
      && (c !in word ==>
            && progress == old(progress) && lives == old(lives) - 1
            && state == if lives <= 0 then Dead else old(state))
    }

    /** A new letter: remember it; reveal it and check for a win, or lose a life and check for death. */
    method PlayLetter(c: char)
      requires Valid() && c !in guessed
      modifies this
      ensures Valid() && Played(c)
    {
      guessed := guessed + [c];
      if c in word {
        for i := 0 to |word|
          invariant |progress| == |word| && guessed == old(guessed) + [c]
          invariant lives == old(lives) && state == old(state)
          invariant forall j :: 0 <= j < i ==> progress[j] == Reveal(old(progress), word, c)[j]
          invariant forall j :: i <= j < |word| ==> progress[j] == old(progress)[j]
        {
          if word[i] == c {
            progress := progress[i := UpperChar(c)];
          }
        }
        RevealFits(old(progress), word, [c]);
        assert RevealAll(old(progress), word, [c]) == Reveal(old(progress), word, c) by {
          assert [c][..0] == [];
        }
        if '_' !in progress {
          state := Won;
        }
      } else {
        lives := lives - 1;
        if lives <= 0 {
          state := Dead;
        }
      }
    }
  }
}
