/**
 * The few Python string operations the configuration engine and the
 * hangman rules rely on: case mapping, whitespace stripping, `isalpha`,
 * `split`/`join` on one separator character, `in` and `str(int)`.
 * Characters are modelled over ASCII: `lower`, `upper`, `isalpha` and
 * `strip` agree with Python on ASCII text.
 */
module Strings {

  predicate IsUpperLetter(c: char) { 'A' <= c <= 'Z' }
  predicate IsLowerLetter(c: char) { 'a' <= c <= 'z' }
  predicate IsLetter(c: char) { IsUpperLetter(c) || IsLowerLetter(c) }
  predicate IsDigit(c: char) { '0' <= c <= '9' }

  /** The characters Python's `str.isspace` / `str.strip` treat as whitespace (ASCII part). */
  predicate IsSpace(c: char) {
    c == ' ' || c == '\t' || c == '\n' || c == '\r' || c == '\U{0B}' || c == '\U{0C}'
    || ('\U{1C}' <= c <= '\U{1F}')
  }

  function LowerChar(c: char): (r: char)
    ensures IsUpperLetter(c) ==> IsLowerLetter(r)
    ensures !IsUpperLetter(c) ==> r == c
    ensures IsLetter(r) <==> IsLetter(c)
  {
    if IsUpperLetter(c) then (c as int + 32) as char else c
  }

  function UpperChar(c: char): (r: char)
    ensures IsLowerLetter(c) ==> IsUpperLetter(r)
    ensures !IsLowerLetter(c) ==> r == c
    ensures IsLetter(r) <==> IsLetter(c)
  {
    if IsLowerLetter(c) then (c as int - 32) as char else c
  }

  /** `str.lower()` */
  function Lower(s: string): (r: string)
    ensures |r| == |s|
    ensures forall i :: 0 <= i < |s| ==> r[i] == LowerChar(s[i])
  {
    seq(|s|, i requires 0 <= i < |s| => LowerChar(s[i]))
  }

  /** `str.upper()` */
  function Upper(s: string): (r: string)
    ensures |r| == |s|
    ensures forall i :: 0 <= i < |s| ==> r[i] == UpperChar(s[i])
  {
    seq(|s|, i requires 0 <= i < |s| => UpperChar(s[i]))
  }

  predicate IsLowerCase(s: string) { forall i :: 0 <= i < |s| ==> !IsUpperLetter(s[i]) }
  predicate IsUpperCase(s: string) { forall i :: 0 <= i < |s| ==> !IsLowerLetter(s[i]) }

  /** `str.isalpha()`: non-empty and letters only. */
  predicate IsAlpha(s: string) { |s| > 0 && forall i :: 0 <= i < |s| ==> IsLetter(s[i]) }

  /** `str.isspace()` of a line together with its newline terminator. */
  predicate IsBlank(s: string) { forall i :: 0 <= i < |s| ==> IsSpace(s[i]) }

  function StripLeft(s: string): (r: string)
    ensures |r| <= |s|
  {
    if |s| > 0 && IsSpace(s[0]) then StripLeft(s[1..]) else s
  }

  function StripRight(s: string): (r: string)
    ensures |r| <= |s|
  {
    if |s| > 0 && IsSpace(s[|s| - 1]) then StripRight(s[..|s| - 1]) else s
  }

  /** `str.strip()` */
  function Strip(s: string): (r: string)
    ensures |r| <= |s|
  {
    StripRight(StripLeft(s))
  }

  /** Text without whitespace is left alone by `strip`. */
  lemma StripNoSpace(s: string)
    requires forall i :: 0 <= i < |s| ==> !IsSpace(s[i])
    ensures Strip(s) == s
  {
    assert StripLeft(s) == s;
    assert StripRight(s) == s;
  }

  lemma {:induction false} StripLeftSuffix(s: string)
    ensures StripLeft(s) == s[|s| - |StripLeft(s)|..]
    ensures |StripLeft(s)| > 0 ==> !IsSpace(StripLeft(s)[0])
  {
    if |s| > 0 && IsSpace(s[0]) {
      StripLeftSuffix(s[1..]);
    }
  }

  lemma {:induction false} StripRightPrefix(s: string)
    ensures StripRight(s) == s[..|StripRight(s)|]
    ensures |StripRight(s)| > 0 ==> !IsSpace(StripRight(s)[|StripRight(s)| - 1])
  {
    if |s| > 0 && IsSpace(s[|s| - 1]) {
      StripRightPrefix(s[..|s| - 1]);
    }
  }

  /** Only whitespace-only text strips to nothing. */
  lemma {:induction false} StripEmpty(s: string)
    ensures Strip(s) == "" <==> IsBlank(s)
  {
    StripLeftSuffix(s);
    var l := StripLeft(s);
    StripRightPrefix(l);
    if IsBlank(s) {
      StripLeftBlank(s);
    } else {
      var i :| 0 <= i < |s| && !IsSpace(s[i]);
      StripLeftKeeps(s, i);
      StripRightKeeps(l, 0);
    }
  }

  lemma {:induction false} StripLeftBlank(s: string)
    requires IsBlank(s)
    ensures StripLeft(s) == ""
  {
    if |s| > 0 {
      StripLeftBlank(s[1..]);
    }
  }

  lemma {:induction false} StripLeftKeeps(s: string, i: int)
    requires 0 <= i < |s| && !IsSpace(s[i])
    ensures |StripLeft(s)| >= |s| - i
  {
    if IsSpace(s[0]) {
      StripLeftKeeps(s[1..], i - 1);
    }
  }

  lemma {:induction false} StripRightKeeps(s: string, i: int)
    requires 0 <= i < |s| && !IsSpace(s[i])
    ensures |StripRight(s)| > i
  {
    if IsSpace(s[|s| - 1]) {
      StripRightKeeps(s[..|s| - 1], i);
    }
  }

  /** A string that starts with a non-space character keeps that character first when stripped. */
  lemma StripFirst(s: string)
    requires |s| > 0 && !IsSpace(s[0])
    ensures |Strip(s)| > 0 && Strip(s)[0] == s[0]
  {
    assert StripLeft(s) == s;
    StripRightPrefix(s);
    StripRightKeeps(s, 0);
  }

  /** `c in s` for a one-character string. */
  predicate Contains(s: string, c: char) { c in s }

  /** `sub in s` for a string: some position of `s` starts a copy of `sub`. */
  predicate IsSubstring(sub: string, s: string) {
    exists i :: 0 <= i <= |s| - |sub| && OccursAt(sub, s, i)
  }

  predicate OccursAt(sub: string, s: string, i: int)
    requires 0 <= i <= |s| - |sub|
  {
    s[i..i + |sub|] == sub
  }

  predicate StartsWith(s: string, prefix: string) {
    |prefix| <= |s| && s[..|prefix|] == prefix
  }

  /** Index of the first occurrence of `c` (the caller knows there is one). */
  function IndexOf(s: string, c: char): (i: nat)
    requires c in s
    ensures i < |s| && s[i] == c && c !in s[..i]
  {
    if s[0] == c then 0 else 1 + IndexOf(s[1..], c)
  }

  /** `str.removeprefix(" ")`: at most one leading space goes. */
  function RemoveOneSpace(s: string): (r: string)
    ensures |s| > 0 && s[0] == ' ' ==> r == s[1..]
    ensures (|s| == 0 || s[0] != ' ') ==> r == s
  {
    if |s| > 0 && s[0] == ' ' then s[1..] else s
  }

  /** `str.split(d)` for a one-character separator `d`. */
  function Split(s: string, d: char): (r: seq<string>)
    ensures |r| >= 1
    ensures forall k :: 0 <= k < |r| ==> d !in r[k]
  {
    if |s| == 0 then [""]
    else
      var rest := Split(s[1..], d);
      if s[0] == d then [""] + rest else [[s[0]] + rest[0]] + rest[1..]
  }

  /** `d.join(xs)` for a one-character separator `d`. */
  function Join(xs: seq<string>, d: char): string
  {
    if |xs| == 0 then ""
    else if |xs| == 1 then xs[0]
    else xs[0] + [d] + Join(xs[1..], d)
  }

  /** Python's `str(n)` for an integer. */
  function IntToString(n: int): (r: string)
    ensures |r| > 0
  {
    if n < 0 then "-" + NatToString(-n) else NatToString(n)
  }

  function DigitChar(d: nat): (c: char)
    requires d < 10
    ensures IsDigit(c)
  {
    ('0' as int + d) as char
  }

  function NatToString(n: nat): (r: string)
    ensures |r| > 0
    ensures forall i :: 0 <= i < |r| ==> IsDigit(r[i])
    decreases n
  {
    if n < 10 then [DigitChar(n)] else NatToString(n / 10) + [DigitChar(n % 10)]
  }

  // ---------------------------------------------------------------------
  // Laws about the operations above
  // ---------------------------------------------------------------------

  /** Splitting then joining gives back the string: `d.join(s.split(d)) == s`. */
  lemma {:induction false} JoinSplit(s: string, d: char)
    ensures Join(Split(s, d), d) == s
  {
    if |s| > 0 {
      var rest := Split(s[1..], d);
      JoinSplit(s[1..], d);
      assert s == [s[0]] + s[1..];
      if s[0] != d {
        var r := [[s[0]] + rest[0]] + rest[1..];
        if |rest| == 1 {
          assert Join(r, d) == [s[0]] + rest[0];
        } else {
          assert Join(rest, d) == rest[0] + [d] + Join(rest[1..], d);
          assert r[1..] == rest[1..];
          assert Join(r, d) == ([s[0]] + rest[0]) + [d] + Join(rest[1..], d);
        }
      }
    }
  }

  /** Splitting `x + [d] + y` where `x` has no separator yields `x` then the pieces of `y`. */
  lemma {:induction false} SplitAfterPiece(x: string, y: string, d: char)
    requires d !in x
    ensures Split(x + [d] + y, d) == [x] + Split(y, d)
  {
    if |x| == 0 {
      assert x + [d] + y == [d] + y;
      assert ([d] + y)[1..] == y;
    } else {
      SplitAfterPiece(x[1..], y, d);
      assert (x + [d] + y)[1..] == x[1..] + [d] + y;
      assert [x[0]] + x[1..] == x;
    }
  }

  /** A separator-free string is one piece. */
  lemma {:induction false} SplitNoSeparator(x: string, d: char)
    requires d !in x
    ensures Split(x, d) == [x]
  {
    if |x| > 0 {
      SplitNoSeparator(x[1..], d);
      assert [x[0]] + x[1..] == x;
    }
  }

  /** Joining separator-free items and splitting again gives the items back. */
  lemma {:induction false} SplitJoin(xs: seq<string>, d: char)
    requires |xs| >= 1
    requires forall k :: 0 <= k < |xs| ==> d !in xs[k]
    ensures Split(Join(xs, d), d) == xs
  {
    if |xs| == 1 {
      SplitNoSeparator(xs[0], d);
    } else {
      SplitJoin(xs[1..], d);
      SplitAfterPiece(xs[0], Join(xs[1..], d), d);
      assert [xs[0]] + xs[1..] == xs;
    }
  }

  /** `e.join(s.split(d))` replaces every `d` by `e`. */
  lemma {:induction false} JoinSplitReplace(s: string, d: char, e: char)
    ensures Join(Split(s, d), e) == ReplaceChar(s, d, e)
  {
    if |s| > 0 {
      var rest := Split(s[1..], d);
      JoinSplitReplace(s[1..], d, e);
      assert ReplaceChar(s, d, e) == [if s[0] == d then e else s[0]] + ReplaceChar(s[1..], d, e);
      if s[0] == d {
        JoinConsEmpty(rest, e);
      } else {
        JoinConsHead([s[0]], rest, e);
      }
    }
  }

  /** An empty first item puts the separator first. */
  lemma JoinConsEmpty(xs: seq<string>, d: char)
    requires |xs| > 0
    ensures Join([""] + xs, d) == [d] + Join(xs, d)
  {
    assert ([""] + xs)[1..] == xs;
  }

  /** Prefixing the first item prefixes the joined text. */
  lemma JoinConsHead(x: string, xs: seq<string>, d: char)
    requires |xs| > 0
    ensures Join([x + xs[0]] + xs[1..], d) == x + Join(xs, d)
  {
    var r := [x + xs[0]] + xs[1..];
    if |xs| > 1 {
      assert r[1..] == xs[1..];
    }
  }

  /** `s.replace(d, e)` for single characters. */
  function ReplaceChar(s: string, d: char, e: char): (r: string)
    ensures |r| == |s|
    ensures forall i :: 0 <= i < |s| ==> r[i] == if s[i] == d then e else s[i]
  {
    seq(|s|, i requires 0 <= i < |s| => if s[i] == d then e else s[i])
  }

  /** Joining one more item appends the separator and the item. */
  lemma {:induction false} JoinSnoc(xs: seq<string>, x: string, d: char)
    requires |xs| > 0
    ensures Join(xs + [x], d) == Join(xs, d) + [d] + x
  {
    if |xs| > 1 {
      JoinSnoc(xs[1..], x, d);
      assert (xs + [x])[1..] == xs[1..] + [x];
    }
  }

  /** Extending the last item extends the joined text. */
  lemma {:induction false} JoinExtendLast(xs: seq<string>, c: char, d: char)
    requires |xs| > 0
    ensures Join(xs[..|xs| - 1] + [xs[|xs| - 1] + [c]], d) == Join(xs, d) + [c]
  {
    if |xs| > 1 {
      var ys := xs[1..];
      JoinExtendLast(ys, c, d);
      assert (xs[..|xs| - 1] + [xs[|xs| - 1] + [c]])[1..] == ys[..|ys| - 1] + [ys[|ys| - 1] + [c]];
    }
  }

  /** Lower-casing an upper-cased string then upper-casing again gives the upper-cased string. */
  lemma UpperLowerUpper(s: string)
    ensures Upper(Lower(Upper(s))) == Upper(s)
  {
    forall i | 0 <= i < |s| ensures Upper(Lower(Upper(s)))[i] == Upper(s)[i] {
    }
  }

  lemma LowerIdempotent(s: string)
    ensures Lower(Lower(s)) == Lower(s)
  {
  }

  lemma LowerIsLowerCase(s: string)
    ensures IsLowerCase(Lower(s))
  {
  }
}
