/**
 * The text format of a config file, as `resources/config/config.py` reads
 * and writes it: one `key=value` assignment per line, `#` comments and
 * blank lines skipped. A file is a sequence of lines, each without its
 * newline terminator.
 */
module ConfigFormat {
  import opened Strings
  import opened Wrappers

  /** How the reload loop treats one line. */
  datatype LineKind =
    | Skip                                   // comment or blank line
    | Malformed                              // no `=`: logged and skipped
    | Assignment(key: string, text: string)  // `key=value`

  /** A key that the grammar can carry: non-empty, no whitespace, no `=`, not a comment. */
  predicate WellFormedKey(name: string) {
    && |name| > 0
    && name[0] != '#'
    && '=' !in name
    && forall i :: 0 <= i < |name| ==> !IsSpace(name[i])
  }

  /**
   * One line of the reload loop: skip comments and blank lines, skip lines
   * without `=`, otherwise split at the first `=`, strip the key and drop
   * at most one leading space from the value.
   */
  function ClassifyLine(line: string): (r: LineKind)
    ensures r == Skip <==> StartsWith(line, "#") || Strip(line) == ""
    ensures r == Malformed <==> !(StartsWith(line, "#") || Strip(line) == "") && '=' !in line
    ensures r.Assignment? ==> '=' in line
  {
    if StartsWith(line, "#") || Strip(line) == "" then Skip
    else if '=' !in line then Malformed
    else
      var eq := IndexOf(line, '=');
      Assignment(Strip(line[..eq]), RemoveOneSpace(line[eq + 1..]))
  }

  /** The line is an assignment to `key`. */
  predicate Assigns(line: string, key: string) {
    ClassifyLine(line).Assignment? && ClassifyLine(line).key == key
  }

  /** The text of the last line of `lines` that assigns `key`, if any: the one a reload ends with. */
  function LastAssignment(lines: seq<string>, key: string): (r: Option<string>)
    ensures r.Some? <==> exists i :: 0 <= i < |lines| && Assigns(lines[i], key)
    ensures r.Some? ==> exists i :: 0 <= i < |lines| && ClassifyLine(lines[i]) == Assignment(key, r.value)
  {
    if |lines| == 0 then None
    else
      var c := ClassifyLine(lines[|lines| - 1]);
      if c.Assignment? && c.key == key then Some(c.text)
      else
        var r := LastAssignment(lines[..|lines| - 1], key);
        assert forall i :: 0 <= i < |lines| - 1 ==> lines[..|lines| - 1][i] == lines[i];
        r
  }

  // ---------------------------------------------------------------------
  // Writing a whole entry (`Entry.write` given an open file)
  // ---------------------------------------------------------------------

  /** `# <line>` for every line of the description. */
  function CommentLines(description: string): (r: seq<string>)
    ensures |r| == |Split(description, '\n')|
    ensures forall i :: 0 <= i < |r| ==> r[i] == "# " + Split(description, '\n')[i]
  {
    var ds := Split(description, '\n');
    seq(|ds|, i requires 0 <= i < |ds| => "# " + ds[i])
  }

  /** An entry written to an open file: its description as comments, `name=value`, then a blank line. */
  function EntryBlock(name: string, description: string, text: string): (r: seq<string>)
    ensures |r| == |Split(description, '\n')| + 2
    ensures r[|r| - 2] == name + "=" + text && r[|r| - 1] == ""
    ensures forall i :: 0 <= i < |r| - 2 ==> r[i] == "# " + Split(description, '\n')[i]
  {
    CommentLines(description) + [name + "=" + text, ""]
  }

  // ---------------------------------------------------------------------
  // Rewriting one entry in place (`Entry.write` given a path)
  // ---------------------------------------------------------------------

  /** The line assigns exactly `name`: the key the reload loop would read from it. */
  predicate Matches(line: string, name: string) {
    '=' in line && Strip(line[..IndexOf(line, '=')]) == name
  }

  /** Whether the character after the first `=` is a space (kept when rewriting). */
  function SpaceAfterEquals(line: string): nat
    requires '=' in line
  {
    var eq := IndexOf(line, '=');
    if eq + 1 < |line| && line[eq + 1] == ' ' then 1 else 0
  }

  /** The line cut after its first `=` (and one following space, if there is one), then the new text. */
  function Rewritten(line: string, text: string): (r: string)
    requires '=' in line
    ensures StartsWith(r, line[..IndexOf(line, '=') + 1])
  {
    line[..IndexOf(line, '=') + 1 + SpaceAfterEquals(line)] + text
  }

  /** Whitespace-only lines at the end of the file (a lone newline counts). */
  function TrailingBlank(lines: seq<string>): (n: nat)
    ensures n <= |lines|
    ensures forall i :: |lines| - n <= i < |lines| ==> IsBlank(lines[i])
    ensures n < |lines| ==> !IsBlank(lines[|lines| - 1 - n])
  {
    if |lines| == 0 || !IsBlank(lines[|lines| - 1]) then 0
    else 1 + TrailingBlank(lines[..|lines| - 1])
  }

  /** `n` blank lines. */
  function Blanks(n: nat): (r: seq<string>)
    ensures |r| == n && forall i :: 0 <= i < n ==> r[i] == ""
  {
    seq(n, i => "")
  }

  /** Every line copied, each line assigning `name` rewritten to the new text. */
  function CopyLines(lines: seq<string>, name: string, text: string): (r: seq<string>)
    ensures |r| == |lines|
  {
    seq(|lines|, i requires 0 <= i < |lines| =>
      if Matches(lines[i], name) then Rewritten(lines[i], text) else lines[i])
  }

  predicate AnyMatch(lines: seq<string>, name: string) {
    exists i :: 0 <= i < |lines| && Matches(lines[i], name)
  }

  /**
   * The file after writing `name=text` into it: every assignment of the key
   * rewritten; if there was none, padding up to two blank lines, the
   * assignment and a blank line appended.
   */
  function SurgicalWrite(lines: seq<string>, name: string, text: string): seq<string>
  {
    if AnyMatch(lines, name) then CopyLines(lines, name, text)
    else
      var pad := if TrailingBlank(lines) >= 2 then 0 else 2 - TrailingBlank(lines);
      lines + Blanks(pad) + [name + "=" + text, ""]
  }

  /**
   * The copy loop of `Entry.write`, with its `found` flag and its count of
   * trailing whitespace-only lines.
   */
  method CopyReplacing(lines: seq<string>, name: string, text: string) returns (out: seq<string>)
    ensures out == SurgicalWrite(lines, name, text)
  {
    var found := false;
    var trailing := 0;
    out := [];
    var i := 0;
    while i < |lines|
      invariant 0 <= i <= |lines|
      invariant out == CopyLines(lines[..i], name, text)
      invariant found <==> AnyMatch(lines[..i], name)
      invariant !found ==> trailing == TrailingBlank(lines[..i])
    {
      var line := lines[i];
      if Matches(line, name) {
        line := Rewritten(line, text);
        found := true;
      }
      if IsBlank(line) {
        trailing := trailing + 1;
      } else {
        trailing := 0;
      }
      CopyLinesSnoc(lines, name, text, i);
      AnyMatchSnoc(lines, name, i);
      TrailingBlankSnoc(lines, i);
      out := out + [line];
      i := i + 1;
    }
    assert lines[..i] == lines;
    if !found {
      var pad := if trailing >= 2 then 0 else 2 - trailing;
      out := out + Blanks(pad) + [name + "=" + text, ""];
    }
  }

  /** One more line copied: rewritten when it matches, kept otherwise. */
  lemma CopyLinesSnoc(lines: seq<string>, name: string, text: string, i: nat)
    requires i < |lines|
    ensures CopyLines(lines[..i + 1], name, text) == CopyLines(lines[..i], name, text) +
      [if Matches(lines[i], name) then Rewritten(lines[i], text) else lines[i]]
  {
    var a := CopyLines(lines[..i + 1], name, text);
    var b := CopyLines(lines[..i], name, text);
    forall k | 0 <= k < i ensures a[k] == b[k] {
      assert lines[..i + 1][k] == lines[..i][k];
    }
  }

  /** One more line: a match so far, or this line matches. */
  lemma AnyMatchSnoc(lines: seq<string>, name: string, i: nat)
    requires i < |lines|
    ensures AnyMatch(lines[..i + 1], name) <==> AnyMatch(lines[..i], name) || Matches(lines[i], name)
  {
    assert lines[..i + 1] == lines[..i] + [lines[i]];
    if AnyMatch(lines[..i + 1], name) && !Matches(lines[i], name) {
      var k :| 0 <= k < i + 1 && Matches(lines[..i + 1][k], name);
      assert lines[..i][k] == lines[k];
    }
    if AnyMatch(lines[..i], name) {
      var k :| 0 <= k < i && Matches(lines[..i][k], name);
      assert lines[..i + 1][k] == lines[k];
    }
  }

  /** One more line: a blank one lengthens the blank tail, any other ends it. */
  lemma TrailingBlankSnoc(lines: seq<string>, i: nat)
    requires i < |lines|
    ensures TrailingBlank(lines[..i + 1]) == if IsBlank(lines[i]) then TrailingBlank(lines[..i]) + 1 else 0
  {
    assert lines[..i + 1][..i] == lines[..i];
  }

  // ---------------------------------------------------------------------
  // Reading back what was written
  // ---------------------------------------------------------------------

  /** The value text never starts with a space: `removeprefix(" ")` would otherwise eat it. */
  predicate NoLeadingSpace(text: string) {
    |text| == 0 || text[0] != ' '
  }

  /** `name=text` reads back as an assignment of `text` (less one leading space) to `name`. */
  lemma AssignmentLine(name: string, text: string)
    requires WellFormedKey(name)
    ensures ClassifyLine(name + "=" + text) == Assignment(name, RemoveOneSpace(text))
  {
    var line := name + "=" + text;
    assert line[|name|] == '=';
    assert !IsSpace(line[|name|]);
    StripEmpty(line);
    assert !StartsWith(line, "#") by { assert line[0] == name[0]; }
    IndexOfPrefix(line, name);
    assert line[..|name|] == name;
    StripNoSpace(name);
    assert line[|name| + 1..] == text;
  }

  /** The first `=` of `key + rest` is the first `=` of `rest` when `key` has none. */
  lemma IndexOfPrefix(line: string, key: string)
    requires '=' !in key && StartsWith(line, key) && |line| > |key| && line[|key|] == '='
    ensures '=' in line && IndexOf(line, '=') == |key|
  {
    assert line[..|key|] == key;
  }

  /** A line starting with `#` is never a match for a well-formed key. */
  lemma CommentNeverMatches(line: string, name: string)
    requires WellFormedKey(name) && '=' in line && |line| > 0 && line[0] == '#'
    ensures !Matches(line, name)
  {
    var eq := IndexOf(line, '=');
    if eq > 0 {
      StripFirst(line[..eq]);
    }
  }

  /** For a well-formed key, `Matches` is exactly "the reload loop reads this line as an assignment of it". */
  lemma MatchesIsAssigns(line: string, name: string)
    requires WellFormedKey(name)
    ensures Matches(line, name) <==> Assigns(line, name)
  {
    if '=' in line {
      var eq := IndexOf(line, '=');
      assert !IsSpace(line[eq]);
      StripEmpty(line);
      if StartsWith(line, "#") {
        CommentNeverMatches(line, name);
      }
    }
  }

  /** A rewritten line reads back as the new text for the same key. */
  lemma RewrittenLine(line: string, name: string, text: string)
    requires WellFormedKey(name) && Matches(line, name) && NoLeadingSpace(text)
    ensures ClassifyLine(Rewritten(line, text)) == Assignment(name, text)
  {
    var eq := IndexOf(line, '=');
    var r := Rewritten(line, text);
    assert r[..eq] == line[..eq];
    IndexOfPrefix(r, line[..eq]);
    assert !IsSpace(r[eq]);
    StripEmpty(r);
    if |line| > 0 && line[0] == '#' {
      CommentNeverMatches(line, name);
    }
    assert !StartsWith(r, "#") by {
      assert r[0] == line[0];
    }
    if SpaceAfterEquals(line) == 1 {
      assert r[eq + 1..] == " " + text;
    } else {
      assert r[eq + 1..] == text;
    }
  }

  /** Splitting a file in two: the last assignment is in the second part, else in the first. */
  lemma {:induction false} LastAssignmentAppend(a: seq<string>, b: seq<string>, key: string)
    ensures LastAssignment(a + b, key) ==
      if LastAssignment(b, key).Some? then LastAssignment(b, key) else LastAssignment(a, key)
    decreases |b|
  {
    if |b| == 0 {
      assert a + b == a;
    } else {
      assert (a + b)[..|a + b| - 1] == a + b[..|b| - 1];
      LastAssignmentAppend(a, b[..|b| - 1], key);
    }
  }

  /** Blank lines assign nothing. */
  lemma {:induction false} BlanksAssignNothing(n: nat, key: string)
    ensures LastAssignment(Blanks(n), key) == None
  {
    if n > 0 {
      assert Blanks(n)[..n - 1] == Blanks(n - 1);
      assert Strip("") == "";
      BlanksAssignNothing(n - 1, key);
    }
  }

  /** An entry's block reads back as its value text and assigns no other key. */
  lemma EntryBlockReadBack(name: string, description: string, text: string, key: string)
    requires WellFormedKey(name)
    ensures LastAssignment(EntryBlock(name, description, text), key) ==
      if key == name then Some(RemoveOneSpace(text)) else None
  {
    var comments := CommentLines(description);
    var line := name + "=" + text;
    CommentsAssignNothing(comments, key);
    AssignmentLine(name, text);
    assert Strip("") == "";
    LastAssignmentSingle(line, key);
    LastAssignmentSingle("", key);
    assert [line] + [""] == [line, ""];
    LastAssignmentAppend([line], [""], key);
    assert EntryBlock(name, description, text) == comments + [line, ""];
    LastAssignmentAppend(comments, [line, ""], key);
  }

  /** Comment lines assign nothing. */
  lemma {:induction false} CommentsAssignNothing(lines: seq<string>, key: string)
    requires forall i :: 0 <= i < |lines| ==> StartsWith(lines[i], "#")
    ensures LastAssignment(lines, key) == None
  {
    if |lines| > 0 {
      CommentsAssignNothing(lines[..|lines| - 1], key);
    }
  }

  /** Copying with rewrites: the key reads back as the new text if it was present; other keys are untouched. */
  lemma {:induction false} CopyLinesReadBack(lines: seq<string>, name: string, text: string, key: string)
    requires WellFormedKey(name) && NoLeadingSpace(text)
    ensures LastAssignment(CopyLines(lines, name, text), key) ==
      if key != name then LastAssignment(lines, key)
      else if AnyMatch(lines, name) then Some(text)
      else None
  {
    if |lines| > 0 {
      var n := |lines|;
      var init := lines[..n - 1];
      var last := lines[n - 1];
      var out := if Matches(last, name) then Rewritten(last, text) else last;
      CopyLinesReadBack(init, name, text, key);
      assert lines[..n] == lines;
      CopyLinesSnoc(lines, name, text, n - 1);
      AnyMatchSnoc(lines, name, n - 1);
      assert lines == init + [last];
      LastAssignmentAppend(init, [last], key);
      LastAssignmentAppend(CopyLines(init, name, text), [out], key);
      LastAssignmentSingle(last, key);
      LastAssignmentSingle(out, key);
      MatchesIsAssigns(last, name);
      if Matches(last, name) {
        RewrittenLine(last, name, text);
      }
    }
  }

  /** A single line assigns the key exactly when it is an assignment of that key. */
  lemma LastAssignmentSingle(line: string, key: string)
    ensures LastAssignment([line], key) == if Assigns(line, key) then Some(ClassifyLine(line).text) else None
  {
    assert [line][..0] == [];
  }

  /**
   * What a reload reads from a file after the write: the new text for the
   * written key, and for every other key what it read before the write.
   */
  lemma ReadBack(lines: seq<string>, name: string, text: string, key: string)
    requires WellFormedKey(name) && NoLeadingSpace(text) && '\n' !in text
    ensures LastAssignment(SurgicalWrite(lines, name, text), key) ==
      if key == name then Some(text) else LastAssignment(lines, key)
  {
    if AnyMatch(lines, name) {
      CopyLinesReadBack(lines, name, text, key);
    } else {
      AppendedReadBack(lines, name, text, key);
    }
  }

  lemma AppendedReadBack(lines: seq<string>, name: string, text: string, key: string)
    requires WellFormedKey(name) && NoLeadingSpace(text) && !AnyMatch(lines, name)
    ensures LastAssignment(SurgicalWrite(lines, name, text), key) ==
      if key == name then Some(text) else LastAssignment(lines, key)
  {
    var pad := if TrailingBlank(lines) >= 2 then 0 else 2 - TrailingBlank(lines);
    var tail := [name + "=" + text, ""];
    assert SurgicalWrite(lines, name, text) == lines + (Blanks(pad) + tail);
    TailReadBack(name, text, key);
    BlanksAssignNothing(pad, key);
    LastAssignmentAppend(Blanks(pad), tail, key);
    LastAssignmentAppend(lines, Blanks(pad) + tail, key);
    if key == name {
      UnmatchedAssignsNothing(lines, name);
    }
  }

  /** A file with no line matching the name assigns it nothing. */
  lemma UnmatchedAssignsNothing(lines: seq<string>, name: string)
    requires WellFormedKey(name) && !AnyMatch(lines, name)
    ensures LastAssignment(lines, name) == None
  {
    forall i | 0 <= i < |lines| ensures !Assigns(lines[i], name) {
      MatchesIsAssigns(lines[i], name);
    }
  }

  lemma TailReadBack(name: string, text: string, key: string)
    requires WellFormedKey(name) && NoLeadingSpace(text)
    ensures LastAssignment([name + "=" + text, ""], key) == if key == name then Some(text) else None
  {
    var tail := [name + "=" + text, ""];
    AssignmentLine(name, text);
    assert Strip("") == "";
    assert tail[..1] == [name + "=" + text];
    assert [name + "=" + text][..0] == [];
  }

  /** Lines other than the rewritten ones are copied unchanged and in order. */
  lemma CopyKeepsOthers(lines: seq<string>, name: string, text: string, i: int)
    requires 0 <= i < |lines| && !Matches(lines[i], name)
    ensures SurgicalWrite(lines, name, text)[i] == lines[i]
  {
  }

  /** When the key was absent, the file ends in at least two blank lines before the appended assignment. */
  lemma AppendPadding(lines: seq<string>, name: string, text: string)
    requires !AnyMatch(lines, name)
    ensures var out := SurgicalWrite(lines, name, text);
      && out[..|lines|] == lines
      && out[|out| - 2..] == [name + "=" + text, ""]
      && TrailingBlank(out[..|out| - 2]) >= 2
  {
    var out := SurgicalWrite(lines, name, text);
    var pad := if TrailingBlank(lines) >= 2 then 0 else 2 - TrailingBlank(lines);
    var body := lines + Blanks(pad);
    assert out[..|out| - 2] == body;
    BlankTail(lines, pad);
  }

  lemma {:induction false} BlankTail(lines: seq<string>, pad: nat)
    ensures TrailingBlank(lines + Blanks(pad)) == TrailingBlank(lines) + pad
  {
    if pad > 0 {
      assert (lines + Blanks(pad))[..|lines| + pad - 1] == lines + Blanks(pad - 1);
      BlankTail(lines, pad - 1);
    } else {
      assert lines + Blanks(pad) == lines;
    }
  }

  // ---------------------------------------------------------------------
  // The match test as the source writes it
  // ---------------------------------------------------------------------

  /** The source's test: the line has an `=` and its stripped text merely starts with the name. */
  predicate MatchesAsWritten(line: string, name: string) {
    '=' in line && StartsWith(Strip(line), name)
  }

  /** The write with the source's prefix test in place of the exact key. */
  function SurgicalWriteAsWritten(lines: seq<string>, name: string, text: string): seq<string>
  {
    var copied := seq(|lines|, i requires 0 <= i < |lines| =>
      if MatchesAsWritten(lines[i], name) then Rewritten(lines[i], text) else lines[i]);
    if exists i :: 0 <= i < |lines| && MatchesAsWritten(lines[i], name) then copied
    else
      var pad := if TrailingBlank(lines) >= 2 then 0 else 2 - TrailingBlank(lines);
      lines + Blanks(pad) + [name + "=" + text, ""]
  }

  /**
   * A line assigning a longer key that starts with `name` (such as
   * `guessersx=1` for `guessers`) passes the source's test but not the exact one.
   */
  lemma PrefixLine(name: string, extra: string, v: string, text: string)
    requires WellFormedKey(name + extra) && |extra| > 0 && NoLeadingSpace(v)
    ensures MatchesAsWritten(name + extra + "=" + v, name)
    ensures !Matches(name + extra + "=" + v, name)
    ensures Rewritten(name + extra + "=" + v, text) == name + extra + "=" + text
  {
    var key := name + extra;
    var line := key + "=" + v;
    KeyLineSplits(key, v);
    KeyLineStrips(key, v);
    assert Strip(line)[..|name|] == key[..|name|] == name;
    assert line[..|key| + 1] == key + "=";
  }

  /** In `key=v` the first `=` follows the key, and the key strips to itself. */
  lemma KeyLineSplits(key: string, v: string)
    requires WellFormedKey(key)
    ensures '=' in key + "=" + v && IndexOf(key + "=" + v, '=') == |key|
    ensures (key + "=" + v)[..|key|] == key && Strip(key) == key
  {
    var line := key + "=" + v;
    assert line[|key|] == '=';
    IndexOfPrefix(line, key);
    assert line[..|key|] == key;
    StripNoSpace(key);
  }

  /** Stripping `key=v` keeps the key at its front. */
  lemma KeyLineStrips(key: string, v: string)
    requires WellFormedKey(key)
    ensures |Strip(key + "=" + v)| >= |key| && Strip(key + "=" + v)[..|key|] == key
  {
    var line := key + "=" + v;
    assert line[..|key|] == key;
    assert !IsSpace(line[0]) && !IsSpace(line[|key|]);
    assert StripLeft(line) == line;
    StripRightPrefix(line);
    StripRightKeeps(line, |key|);
  }

  /**
   * With a file holding only such a line, writing `name` overwrites the
   * longer key and never records `name`; the exact test appends
   * `name=text` instead and leaves the other key alone.
   */
  lemma PrefixKeyClobbered(name: string, extra: string, v: string, text: string)
    requires WellFormedKey(name) && WellFormedKey(name + extra) && |extra| > 0
    requires NoLeadingSpace(v) && NoLeadingSpace(text) && '\n' !in text
    ensures SurgicalWriteAsWritten([name + extra + "=" + v], name, text) == [name + extra + "=" + text]
    ensures LastAssignment([name + extra + "=" + v], name + extra) == Some(v)
    ensures LastAssignment(SurgicalWriteAsWritten([name + extra + "=" + v], name, text), name) == None
    ensures LastAssignment(SurgicalWriteAsWritten([name + extra + "=" + v], name, text), name + extra) == Some(text)
    ensures LastAssignment(SurgicalWrite([name + extra + "=" + v], name, text), name) == Some(text)
    ensures LastAssignment(SurgicalWrite([name + extra + "=" + v], name, text), name + extra) == Some(v)
  {
    var key := name + extra;
    PrefixLine(name, extra, v, text);
    var file: seq<string> := [key + "=" + v];
    var out: seq<string> := [key + "=" + text];
    assert SurgicalWriteAsWritten(file, name, text) == out;
    AssignmentLine(key, v);
    AssignmentLine(key, text);
    assert |file[..0]| == 0 && |out[..0]| == 0;
    assert key != name;
    ReadBack(file, name, text, name);
    ReadBack(file, name, text, key);
  }
}
