/**
 * `SingleplayerGame` of `games/singleplayer.py`: one word, a life count,
 * the letters guessed so far and the progress row shown to the players
 * (`_` for a hidden letter, the upper-case letter once revealed). Messages
 * reach the game as text; the Discord replies are not modelled.
 */
module Singleplayer {
  import opened Wrappers
  import opened Strings

  /** What `_handle_guess` made of a guess (the reply it sends). */
  datatype GuessOutcome =
    | NotLetters
    | AlreadyGuessed
    | LetterFound
    | LetterMissing
    | LongerThanWord
    | WordGuessed
    | SequenceFound
    | NotInWord

  /** The row after revealing every position of `word` that holds `c`. */
  function Reveal(progress: seq<char>, word: string, c: char): (r: seq<char>)
    requires |progress| == |word|
    ensures |r| == |word|
    ensures forall i :: 0 <= i < |word| ==> r[i] == if word[i] == c then UpperChar(c) else progress[i]
  {
    seq(|word|, i requires 0 <= i < |word| => if word[i] == c then UpperChar(c) else progress[i])
  }

  /** The row after revealing the characters of `guess` one after the other. */
  function RevealAll(progress: seq<char>, word: string, guess: string): (r: seq<char>)
    requires |progress| == |word|
    ensures |r| == |word|
  {
    if |guess| == 0 then progress
    else Reveal(RevealAll(progress, word, guess[..|guess| - 1]), word, guess[|guess| - 1])
  }

  /** Revealing a sequence shows exactly the positions whose letter occurs in it. */
  lemma {:induction false} RevealAllShows(progress: seq<char>, word: string, guess: string)
    requires |progress| == |word|
    ensures forall i :: 0 <= i < |word| ==>
      RevealAll(progress, word, guess)[i] == if word[i] in guess then UpperChar(word[i]) else progress[i]
  {
    if |guess| > 0 {
      var n := |guess| - 1;
      RevealAllShows(progress, word, guess[..n]);
      assert forall c :: c in guess <==> c in guess[..n] || c == guess[n];
    }
  }

  /** Each cell of the row is hidden or shows its letter of the word in upper case. */
  predicate RowFits(progress: seq<char>, word: string) {
    |progress| == |word| && forall i :: 0 <= i < |word| ==> progress[i] == '_' || progress[i] == UpperChar(word[i])
  }

  /** A row with no hidden cell left spells the word in upper case. */
  lemma FullRowIsWord(progress: seq<char>, word: string)
    requires RowFits(progress, word) && '_' !in progress
    ensures progress == Upper(word)
  {
    forall i | 0 <= i < |word| ensures progress[i] == Upper(word)[i] {
      assert progress[i] != '_';
    }
  }

  /** Revealing keeps a fitting row fitting. */
  lemma RevealFits(progress: seq<char>, word: string, guess: string)
    requires RowFits(progress, word)
    ensures RowFits(RevealAll(progress, word, guess), word)
  {
    RevealAllShows(progress, word, guess);
  }

  /**
   * The end-of-turn checks as written: `_update_inner` assigns
   * `Game.State.COMPLETE`, but `Game` declares no `State`, so reaching an
   * end condition raises `AttributeError` (`Err`); otherwise the turn ends
   * normally (`Ok`). The lives are clamped at zero first.
   */
  function EndChecksAsWritten(progress: seq<char>, lives: int): (r: Result<int, string>)
    ensures r.Ok? ==> r.value == lives && lives > 0
    ensures r.Err? <==> '_' !in progress || lives <= 0
  {
    var clamped := if lives < 0 then 0 else lives;
    if '_' !in progress || clamped <= 0 then Err("AttributeError") else Ok(clamped)
  }

  /** Guessing the one letter of the word "a" wins, and the as-written checks then raise instead of ending the game. */
  lemma WinningGuessRaises()
    ensures EndChecksAsWritten(Reveal(['_'], "a", 'a'), 8).Err?
  {
    assert Reveal(['_'], "a", 'a') == ['A'];
  }

  /** The fields of a game that a guess can change. */
  datatype GameFields = GameFields(lives: int, guesses: nat, guessed: seq<char>, progress: seq<char>)

  /**
   * What `_handle_guess` makes of a lower-cased, stripped guess: the reply
   * and the new fields. Lives never grow, the row only reveals letters of
   * the word, and the guess is counted exactly when it changes the game.
   */
  function Guess(word: string, f: GameFields, guess: string): (r: (GuessOutcome, GameFields))
    requires |f.progress| == |word|
    ensures r.1.lives <= f.lives
    ensures r.1.guesses == f.guesses <==> r.1 == f
    ensures r.1.guesses == f.guesses || r.1.guesses == f.guesses + 1
    ensures RowFits(f.progress, word) ==> RowFits(r.1.progress, word)
    ensures RowFits(f.progress, word) ==>
      forall i :: 0 <= i < |word| && f.progress[i] != '_' ==> r.1.progress[i] == f.progress[i]
  {
    if !IsAlpha(guess) then (NotLetters, f)
    else if |guess| == 1 then
      if guess[0] in f.guessed then (AlreadyGuessed, f)
      else if guess[0] in word then
        (LetterFound, f.(guesses := f.guesses + 1, guessed := f.guessed + [guess[0]],
                         progress := Reveal(f.progress, word, guess[0])))
      else (LetterMissing, f.(lives := f.lives - 1, guesses := f.guesses + 1, guessed := f.guessed + [guess[0]]))
    else if |guess| > |word| then (LongerThanWord, f)
    else if IsSubstring(guess, word) then
      if |guess| == |word| then (WordGuessed, f.(guesses := f.guesses + 1, progress := Upper(word)))
      else
        RevealAllShows(f.progress, word, guess);
        (SequenceFound, f.(guesses := f.guesses + 1, guessed := f.guessed + guess,
                           progress := RevealAll(f.progress, word, guess)))
    else (NotInWord, f.(lives := f.lives - |guess|, guesses := f.guesses + 1))
  }

  class SingleplayerGame {
    const word: string
    var lives: int
    var guesses: nat
    var guessed: seq<char>
    var progress: seq<char>
    /** The game has been marked COMPLETE. */
    var complete: bool

    ghost predicate Valid()
      reads this
    {
      RowFits(progress, word)
    }

    /**
     * `__init__` with the word the random provider chose and the
     * configured number of lives: nothing guessed, every letter hidden.
     */
    constructor (word: string, lives: int)
      ensures Valid()
      ensures this.word == word && this.lives == lives
      ensures guesses == 0 && guessed == [] && !complete
      ensures |progress| == |word| && forall i :: 0 <= i < |word| ==> progress[i] == '_'
    {
      this.word := word;
      this.lives := lives;
      guesses := 0;
      guessed := [];
      progress := seq(|word|, _ => '_');
      complete := false;
    }

    /** The fields a guess can change. */
    function Fields(): GameFields
      reads this
    {
      GameFields(lives, guesses, guessed, progress)
    }

    /** The index loop that replaces every instance of `c` in the row. */
    method RevealLetter(c: char)
      requires Valid()
      modifies this`progress
      ensures Valid()
      ensures progress == Reveal(old(progress), word, c)
    {
      for i := 0 to |word|
        invariant |progress| == |word|
        invariant forall j :: 0 <= j < i ==> progress[j] == Reveal(old(progress), word, c)[j]
        invariant forall j :: i <= j < |word| ==> progress[j] == old(progress)[j]
      {
        if word[i] == c {
          progress := progress[i := UpperChar(c)];
        }
      }
    }

    /**
     * `_handle_guess` on a guess already lower-cased and stripped: a letter
     * not tried before costs a life when it is missing and reveals its
     * positions when present; a longer guess that occurs in the word
     * reveals it (all of it when it is the whole word), one that does not
     * costs a life per character. Guesses that are not letters, repeat a
     * letter or are longer than the word change nothing.
     */
    method HandleGuess(guess: string) returns (outcome: GuessOutcome)
      requires Valid()
      modifies this`lives, this`guesses, this`guessed, this`progress
      ensures Valid()
      ensures (outcome, Fields()) == Guess(word, old(Fields()), guess)
      ensures !IsAlpha(guess) ==>
        outcome == NotLetters && unchanged(this)
      ensures IsAlpha(guess) && |guess| == 1 && guess[0] in old(guessed) ==>
        outcome == AlreadyGuessed && unchanged(this)
      ensures IsAlpha(guess) && |guess| == 1 && guess[0] !in old(guessed) ==>
        && guesses == old(guesses) + 1 && guessed == old(guessed) + [guess[0]]
        && (guess[0] in word ==>
              outcome == LetterFound && lives == old(lives) && progress == Reveal(old(progress), word, guess[0]))
        && (guess[0] !in word ==>
              outcome == LetterMissing && lives == old(lives) - 1 && progress == old(progress))
      ensures IsAlpha(guess) && |guess| > 1 && |guess| > |word| ==>
        outcome == LongerThanWord && unchanged(this)
      ensures IsAlpha(guess) && 1 < |guess| <= |word| ==>
        && guesses == old(guesses) + 1
        && (IsSubstring(guess, word) && |guess| == |word| ==>
              outcome == WordGuessed && progress == Upper(word) && guessed == old(guessed) && lives == old(lives))
        && (IsSubstring(guess, word) && |guess| < |word| ==>
              && outcome == SequenceFound && guessed == old(guessed) + guess && lives == old(lives)
              && progress == RevealAll(old(progress), word, guess))
        && (!IsSubstring(guess, word) ==>
              outcome == NotInWord && lives == old(lives) - |guess| && guessed == old(guessed) && progress == old(progress))
    {
      if !IsAlpha(guess) {
        return NotLetters;
      }
      if |guess| == 1 {
        var c := guess[0];
        if c in guessed {
          return AlreadyGuessed;
        }
        guesses := guesses + 1;
        guessed := guessed + [c];
        if c in word {
          RevealLetter(c);
          outcome := LetterFound;
        } else {
          lives := lives - 1;
          outcome := LetterMissing;
        }
      } else {
        if |guess| > |word| {
          return LongerThanWord;
        }
        guesses := guesses + 1;
        var fullWord := |guess| == |word|;
        if IsSubstring(guess, word) {
          if fullWord {
            progress := Upper(word);
            outcome := WordGuessed;
          } else {
            for j := 0 to |guess|
              invariant Valid()
              invariant guesses == old(guesses) + 1 && lives == old(lives)
              invariant guessed == old(guessed) + guess[..j]
              invariant progress == RevealAll(old(progress), word, guess[..j])
            {
              assert guess[..j + 1][..j] == guess[..j];
              guessed := guessed + [guess[j]];
              RevealLetter(guess[j]);
            }
            assert guess[..|guess|] == guess;
            outcome := SequenceFound;
          }
        } else {
          lives := lives - |guess|;
          outcome := NotInWord;
        }
      }
    }

    /**
     * `_update_inner` on a message's text: the guess is the lower-cased,
     * stripped text; after it the lives are clamped at zero, and the game
     * is complete once no letter is hidden or no life is left.
     */
    method UpdateInner(content: string) returns (outcome: GuessOutcome)
      requires Valid()
      modifies this
      ensures Valid() && lives >= 0
      ensures complete <==> old(complete) || '_' !in progress || lives <= 0
      ensures '_' !in progress ==> progress == Upper(word)
      ensures var (o, f) := Guess(word, old(Fields()), Strip(Lower(content)));
        && outcome == o && guesses == f.guesses && guessed == f.guessed && progress == f.progress
        && lives == (if f.lives < 0 then 0 else f.lives)
    {
      outcome := HandleGuess(Strip(Lower(content)));
      if lives < 0 {
        lives := 0;
      }
      if '_' !in progress {
        complete := true;
        FullRowIsWord(progress, word);
      }
      if lives <= 0 {
        complete := true;
      }
    }
  }
}
