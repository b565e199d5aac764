/**
 * The entry store of `resources/config/config.py` as a value: what every
 * entry holds, and what reading a file does to it. The `Config` class
 * proves its loops against these functions.
 */
module ConfigStore {
  import opened Strings
  import opened Wrappers
  import opened ParserUtil
  import opened ConfigFormat

  /** A change listener registered with `when_changed`, identified by its registration. */
  type ListenerId = nat

  /** One listener invocation: `listener(before, after)` for the named option. */
  datatype Call = Call(listener: ListenerId, option: string, before: Value, after: Value)

  /** The state of one `Config.Entry`. */
  datatype Slot = Slot(parser: Parser, description: string, default: Value, value: Value, listeners: seq<ListenerId>)

  /** `_config_cache`, entry by entry. */
  type Store = map<string, Slot>

  /** The value and the default have the parser's type, so they can be stringified. */
  predicate SlotTyped(s: Slot) {
    HasType(s.parser, s.value) && HasType(s.parser, s.default)
  }

  predicate StoreTyped(st: Store) {
    forall k :: k in st ==> SlotTyped(st[k])
  }

  /** Every value is one the entry's parser can produce. */
  predicate StoreConforms(st: Store) {
    forall k :: k in st ==> Conforms(st[k].parser, st[k].value)
  }

  /** Two stores with the same entries, parsers, descriptions, defaults and listeners. */
  predicate SameSchema(a: Store, b: Store) {
    && a.Keys == b.Keys
    && forall k :: k in a ==> a[k].(value := b[k].value) == b[k]
  }

  /** The notifier loop of `_set_value`: every listener, in registration order, hears `(before, after)`. */
  function Notify(listeners: seq<ListenerId>, option: string, before: Value, after: Value): (r: seq<Call>)
    ensures |r| == |listeners|
    ensures forall i :: 0 <= i < |r| ==> r[i] == Call(listeners[i], option, before, after)
  {
    seq(|listeners|, i requires 0 <= i < |listeners| => Call(listeners[i], option, before, after))
  }

  /** `Entry.parse`: the current value when the text is its stringified form, else the parser's result. */
  function EntryParse(s: Slot, text: string): (r: Result<Value, ParseError>)
    requires SlotTyped(s)
    ensures text == Stringify(s.parser, s.value) ==> r == Ok(s.value)
    ensures r.Ok? ==> HasType(s.parser, r.value)
  {
    if text == Stringify(s.parser, s.value) then Ok(s.value)
    else
      ParseConforms(s.parser, text);
      Parse(s.parser, text)
  }

  /**
   * `parse_and_set`: when the text parses to a value different from the
   * current one, store it and notify the listeners; otherwise nothing
   * happens (a parse error keeps the old value).
   */
  function ParseAndSet(s: Slot, name: string, text: string): (r: (Slot, seq<Call>))
    requires SlotTyped(s)
    ensures SlotTyped(r.0) && r.0.(value := s.value) == s
    ensures r.0.value != s.value <==> EntryParse(s, text).Ok? && EntryParse(s, text).value != s.value
    ensures r.0.value == s.value ==> r.1 == []
    ensures EntryParse(s, text).Err? ==> r == (s, [])
    ensures EntryParse(s, text).Ok? && EntryParse(s, text).value != s.value ==>
      r == (s.(value := EntryParse(s, text).value), Notify(s.listeners, name, s.value, EntryParse(s, text).value))
  {
    var p := EntryParse(s, text);
    if p.Ok? && p.value != s.value then
      (s.(value := p.value), Notify(s.listeners, name, s.value, p.value))
    else (s, [])
  }

  /** One line of the reload loop. */
  function ApplyLine(st: Store, line: string): (r: (Store, seq<Call>))
    requires StoreTyped(st)
    ensures StoreTyped(r.0) && SameSchema(st, r.0)
  {
    match ClassifyLine(line)
    case Assignment(key, text) =>
      if key in st then
        var (slot, calls) := ParseAndSet(st[key], key, text);
        (st[key := slot], calls)
      else (st, [])
    case _ => (st, [])
  }

  /** The reload loop over the whole file: the store it leaves and the listener calls it makes, in order. */
  function Reload(st: Store, lines: seq<string>): (r: (Store, seq<Call>))
    requires StoreTyped(st)
    ensures StoreTyped(r.0) && SameSchema(st, r.0)
  {
    if |lines| == 0 then (st, [])
    else
      var (mid, calls) := Reload(st, lines[..|lines| - 1]);
      var (end, more) := ApplyLine(mid, lines[|lines| - 1]);
      (end, calls + more)
  }

  lemma CallsAssoc(a: seq<Call>, b: seq<Call>, c: seq<Call>)
    ensures a + b + c == a + (b + c)
  {
  }

  /** The reload of one more line is the reload of the lines before it, then that line. */
  lemma ReloadSnoc(st: Store, lines: seq<string>, i: nat)
    requires StoreTyped(st) && i < |lines|
    ensures Reload(st, lines[..i + 1]) ==
      (ApplyLine(Reload(st, lines[..i]).0, lines[i]).0,
       Reload(st, lines[..i]).1 + ApplyLine(Reload(st, lines[..i]).0, lines[i]).1)
  {
    assert lines[..i + 1][..i] == lines[..i];
  }

  // ---------------------------------------------------------------------
  // What a reload leaves in each entry
  // ---------------------------------------------------------------------

  /** The value of the last line assigning `key` whose text the parser accepts. */
  function LastParsed(lines: seq<string>, key: string, p: Parser): (r: Option<Value>)
    ensures r.Some? ==> Conforms(p, r.value)
  {
    if |lines| == 0 then None
    else
      var c := ClassifyLine(lines[|lines| - 1]);
      if c.Assignment? && c.key == key && Parse(p, c.text).Ok? then
        ParseConforms(p, c.text);
        Some(Parse(p, c.text).value)
      else LastParsed(lines[..|lines| - 1], key, p)
  }

  /** With a conforming value, the early check of `Entry.parse` agrees with the parser. */
  lemma EntryParseAgrees(s: Slot, text: string)
    requires SlotTyped(s) && Conforms(s.parser, s.value)
    ensures EntryParse(s, text) == Parse(s.parser, text)
  {
    if text == Stringify(s.parser, s.value) {
      RoundTrip(s.parser, s.value);
    }
  }

  /**
   * After a reload each entry holds the value of the last line for it that
   * parsed, or its old value if there is none: the later line wins, unknown
   * keys and unparsable lines change nothing.
   */
  lemma {:induction false} ReloadValue(st: Store, lines: seq<string>, key: string)
    requires StoreTyped(st) && StoreConforms(st) && key in st
    ensures StoreConforms(Reload(st, lines).0)
    ensures Reload(st, lines).0[key].value ==
      match LastParsed(lines, key, st[key].parser)
      case Some(v) => v
      case None => st[key].value
  {
    if |lines| > 0 {
      var init := lines[..|lines| - 1];
      ReloadValue(st, init, key);
      var mid := Reload(st, init).0;
      assert mid[key].parser == st[key].parser;
      ApplyLineValue(mid, lines[|lines| - 1], key);
    }
  }

  /** One line sets an entry to its parsed value when it assigns that entry and parses, and otherwise keeps it. */
  lemma ApplyLineValue(st: Store, line: string, key: string)
    requires StoreTyped(st) && StoreConforms(st) && key in st
    ensures StoreConforms(ApplyLine(st, line).0)
    ensures ApplyLine(st, line).0[key].value ==
      var c := ClassifyLine(line);
      if c.Assignment? && c.key == key && Parse(st[key].parser, c.text).Ok? then Parse(st[key].parser, c.text).value
      else st[key].value
  {
    match ClassifyLine(line)
    case Assignment(k, text) =>
      if k in st {
        EntryParseAgrees(st[k], text);
        ParseConforms(st[k].parser, text);
      }
    case _ =>
  }

  /** Reading the same file twice leaves every entry as the first reading left it. */
  lemma ReloadIdempotent(st: Store, lines: seq<string>)
    requires StoreTyped(st) && StoreConforms(st)
    ensures Reload(Reload(st, lines).0, lines).0 == Reload(st, lines).0
  {
    var s1 := Reload(st, lines).0;
    var s2 := Reload(s1, lines).0;
    forall k | k in st ensures s2[k] == s1[k] {
      ReloadValue(st, lines, k);
      ReloadValue(s1, lines, k);
    }
  }

  /** A store that no line changes goes through the whole file unchanged and silent. */
  lemma {:induction false} ReloadFixed(st: Store, lines: seq<string>)
    requires StoreTyped(st)
    requires forall i :: 0 <= i < |lines| ==> ApplyLine(st, lines[i]) == (st, [])
    ensures Reload(st, lines) == (st, [])
  {
    if |lines| > 0 {
      var init := lines[..|lines| - 1];
      assert forall i :: 0 <= i < |init| ==> init[i] == lines[i];
      ReloadFixed(st, init);
      assert ApplyLine(st, lines[|lines| - 1]) == (st, []);
      var none: seq<Call> := [];
      assert none + none == none;
    }
  }

  /** Each key of the store is assigned by at most one line of the file. */
  predicate AssignedAtMostOnce(st: Store, lines: seq<string>) {
    forall k, i, j :: k in st && 0 <= i < |lines| && 0 <= j < |lines| && Assigns(lines[i], k) && Assigns(lines[j], k) ==> i == j
  }

  /** When only line `i` assigns `key`, the reload ends with that line's value if it parses. */
  lemma {:induction false} LastParsedSingle(lines: seq<string>, key: string, p: Parser, i: int)
    requires 0 <= i < |lines| && Assigns(lines[i], key)
    requires forall j :: 0 <= j < |lines| && Assigns(lines[j], key) ==> j == i
    ensures LastParsed(lines, key, p) == LineValue(p, lines[i])
  {
    var init := lines[..|lines| - 1];
    SingleAssignmentInit(lines, key, i);
    if i < |lines| - 1 {
      LastParsedSingle(init, key, p, i);
    } else {
      LastParsedNone(init, key, p);
    }
    LastParsedStep(lines, key, p);
  }

  /** Dropping the last line keeps line `i` the only one assigning `key`, unless it was line `i`. */
  lemma SingleAssignmentInit(lines: seq<string>, key: string, i: int)
    requires 0 <= i < |lines| && Assigns(lines[i], key)
    requires forall j :: 0 <= j < |lines| && Assigns(lines[j], key) ==> j == i
    ensures var init := lines[..|lines| - 1];
      if i < |lines| - 1 then
        && !Assigns(lines[|lines| - 1], key) && Assigns(init[i], key) && init[i] == lines[i]
        && forall j :: 0 <= j < |init| && Assigns(init[j], key) ==> j == i
      else forall j :: 0 <= j < |init| ==> !Assigns(init[j], key)
  {
    var init := lines[..|lines| - 1];
    forall j | 0 <= j < |init| ensures init[j] == lines[j] { }
  }

  /** The last line decides when it assigns the key and parses; otherwise the lines before it do. */
  lemma LastParsedStep(lines: seq<string>, key: string, p: Parser)
    requires |lines| > 0
    ensures LastParsed(lines, key, p) ==
      if Assigns(lines[|lines| - 1], key) && LineValue(p, lines[|lines| - 1]).Some?
      then LineValue(p, lines[|lines| - 1])
      else LastParsed(lines[..|lines| - 1], key, p)
  {
  }

  /** The value a line's text parses to, if it does. */
  function LineValue(p: Parser, line: string): Option<Value> {
    match ClassifyLine(line)
    case Assignment(_, text) => if Parse(p, text).Ok? then Some(Parse(p, text).value) else None
    case _ => None
  }

  lemma {:induction false} LastParsedNone(lines: seq<string>, key: string, p: Parser)
    requires forall j :: 0 <= j < |lines| ==> !Assigns(lines[j], key)
    ensures LastParsed(lines, key, p) == None
  {
    if |lines| > 0 {
      LastParsedNone(lines[..|lines| - 1], key, p);
    }
  }

  /**
   * Reading an unchanged file a second time fires no listener, provided no
   * key is assigned on two lines.
   */
  lemma ReloadQuiet(st: Store, lines: seq<string>)
    requires StoreTyped(st) && StoreConforms(st) && AssignedAtMostOnce(st, lines)
    ensures Reload(Reload(st, lines).0, lines) == (Reload(st, lines).0, [])
  {
    var s1 := Reload(st, lines).0;
    forall i | 0 <= i < |lines| ensures ApplyLine(s1, lines[i]) == (s1, []) {
      var c := ClassifyLine(lines[i]);
      if c.Assignment? && c.key in s1 {
        var k := c.key;
        ReloadValue(st, lines, k);
        LastParsedSingle(lines, k, st[k].parser, i);
        EntryParseAgrees(s1[k], c.text);
        assert s1[k := s1[k]] == s1;
      }
    }
    ReloadFixed(s1, lines);
  }

  /** An integer entry and its two-line assignment `key=n`. */
  lemma IntAssignment(st: Store, key: string, n: nat)
    requires StoreTyped(st) && WellFormedKey(key) && key in st && st[key].parser == IntParser
    requires st[key].value != IntVal(n)
    ensures ApplyLine(st, key + "=" + NatToString(n)) ==
      (st[key := st[key].(value := IntVal(n))], Notify(st[key].listeners, key, st[key].value, IntVal(n)))
  {
    var text := NatToString(n);
    assert NatToString(n)[0] != ' ';
    assert EntryParse(st[key], text) == Ok(IntVal(n)) by {
      NatRoundTrip(n);
      if text == Stringify(IntParser, st[key].value) {
        IntRoundTrip(st[key].value.i);
      }
    }
    ApplyChangingLine(st, key, text, IntVal(n));
  }

  /** A line assigning an entry a text that parses to a new value stores it and notifies the entry's listeners. */
  lemma ApplyChangingLine(st: Store, key: string, text: string, v: Value)
    requires StoreTyped(st) && key in st && WellFormedKey(key) && NoLeadingSpace(text)
    requires EntryParse(st[key], text) == Ok(v) && v != st[key].value
    ensures ApplyLine(st, key + "=" + text) ==
      (st[key := st[key].(value := v)], Notify(st[key].listeners, key, st[key].value, v))
  {
    AssignmentLine(key, text);
    assert ClassifyLine(key + "=" + text) == Assignment(key, text);
  }

  /** A line assigning an entry the text of its own value changes nothing and notifies nobody. */
  lemma ApplyOwnLine(st: Store, key: string)
    requires StoreTyped(st) && key in st && WellFormedKey(key) && NoLeadingSpace(Stringify(st[key].parser, st[key].value))
    ensures ApplyLine(st, key + "=" + Stringify(st[key].parser, st[key].value)) == (st, [])
  {
    var text := Stringify(st[key].parser, st[key].value);
    AssignmentLine(key, text);
    assert ClassifyLine(key + "=" + text) == Assignment(key, text);
    assert EntryParse(st[key], text) == Ok(st[key].value);
    assert st[key := st[key]] == st;
  }

  /** A two-line file is read line by line. */
  lemma ReloadTwoLines(st: Store, l1: string, l2: string)
    requires StoreTyped(st)
    ensures Reload(st, [l1, l2]) ==
      (ApplyLine(ApplyLine(st, l1).0, l2).0, ApplyLine(st, l1).1 + ApplyLine(ApplyLine(st, l1).0, l2).1)
  {
    var lines := [l1, l2];
    var one := [l1];
    assert lines[..1] == one;
    assert one[..0] == [];
    var none: seq<Call> := [];
    assert Reload(st, one[..0]) == (st, none);
    assert none + ApplyLine(st, l1).1 == ApplyLine(st, l1).1;
    assert Reload(st, one) == ApplyLine(st, l1);
  }

  /**
   * Reading the same file twice is not silent when a key is assigned on
   * two lines: the second reading sets the first line's value and then the
   * second's again, notifying the listeners both times.
   */
  lemma DuplicateKeyRefires(st: Store, key: string)
    requires StoreTyped(st) && WellFormedKey(key) && key in st && st[key].parser == IntParser
    requires st[key].value != IntVal(1) && st[key].value != IntVal(2)
    ensures Reload(st, [key + "=" + NatToString(1), key + "=" + NatToString(2)]).0[key].value == IntVal(2)
    ensures Reload(Reload(st, [key + "=" + NatToString(1), key + "=" + NatToString(2)]).0,
                   [key + "=" + NatToString(1), key + "=" + NatToString(2)]).1
         == Notify(st[key].listeners, key, IntVal(2), IntVal(1)) + Notify(st[key].listeners, key, IntVal(1), IntVal(2))
  {
    var l1 := key + "=" + NatToString(1);
    var l2 := key + "=" + NatToString(2);
    IntAssignment(st, key, 1);
    var a := ApplyLine(st, l1).0;
    IntAssignment(a, key, 2);
    var s1 := ApplyLine(a, l2).0;
    ReloadTwoLines(st, l1, l2);
    IntAssignment(s1, key, 1);
    var b := ApplyLine(s1, l1).0;
    IntAssignment(b, key, 2);
    ReloadTwoLines(s1, l1, l2);
  }

  // ---------------------------------------------------------------------
  // Creating the default file
  // ---------------------------------------------------------------------

  /** Every entry back at its default. */
  function ResetAll(st: Store): (r: Store)
    ensures SameSchema(st, r)
    ensures forall k :: k in r ==> r[k].value == st[k].default
  {
    map k | k in st :: st[k].(value := st[k].default)
  }

  /** The listener calls of `reset` on the given entries in turn: each fires, even when already at its default. */
  function ResetCalls(st: Store, keys: seq<string>): (r: seq<Call>)
    requires forall i :: 0 <= i < |keys| ==> keys[i] in st
  {
    if |keys| == 0 then []
    else
      var k := keys[|keys| - 1];
      ResetCalls(st, keys[..|keys| - 1]) + Notify(st[k].listeners, k, st[k].value, st[k].default)
  }

  /** The file written when none exists: one block per entry, in registration order. */
  function DefaultFile(st: Store, keys: seq<string>): (r: seq<string>)
    requires StoreTyped(st) && forall i :: 0 <= i < |keys| ==> keys[i] in st
  {
    if |keys| == 0 then []
    else
      var k := keys[|keys| - 1];
      DefaultFile(st, keys[..|keys| - 1]) + EntryBlock(k, st[k].description, Stringify(st[k].parser, st[k].default))
  }

  /** The store once the entries named in `done` have been reset. */
  function ResetSome(st: Store, done: seq<string>): (r: Store)
    ensures SameSchema(st, r)
    ensures forall k :: k in r ==> r[k].value == if k in done then st[k].default else st[k].value
  {
    map k | k in st :: if k in done then st[k].(value := st[k].default) else st[k]
  }

  /** Resetting one more entry, not reset before, extends the partial reset. */
  lemma ResetSomeSnoc(st: Store, keys: seq<string>, i: nat)
    requires i < |keys| && keys[i] in st && keys[i] !in keys[..i]
    ensures ResetSome(st, keys[..i])[keys[i]] == st[keys[i]]
    ensures ResetSome(st, keys[..i + 1])
      == ResetSome(st, keys[..i])[keys[i] := st[keys[i]].(value := st[keys[i]].default)]
  {
    forall k | k in st ensures k in keys[..i + 1] <==> k in keys[..i] || k == keys[i] {
      assert keys[..i + 1] == keys[..i] + [keys[i]];
    }
  }

  /** Resetting every entry is `ResetAll`. */
  lemma ResetSomeAll(st: Store, keys: seq<string>)
    requires forall k :: k in st ==> k in keys
    ensures ResetSome(st, keys) == ResetAll(st)
  {
  }

  /** One more entry reset: its calls follow those of the entries before it. */
  lemma ResetCallsSnoc(st: Store, keys: seq<string>, i: nat, before: seq<Call>)
    requires i < |keys| && forall j :: 0 <= j < |keys| ==> keys[j] in st
    ensures before + ResetCalls(st, keys[..i + 1])
      == before + ResetCalls(st, keys[..i]) + Notify(st[keys[i]].listeners, keys[i], st[keys[i]].value, st[keys[i]].default)
  {
    assert keys[..i + 1][..i] == keys[..i];
    CallsAssoc(before, ResetCalls(st, keys[..i]), Notify(st[keys[i]].listeners, keys[i], st[keys[i]].value, st[keys[i]].default));
  }

  /** One more entry written: its block follows the blocks of the entries before it. */
  lemma DefaultFileSnoc(st: Store, keys: seq<string>, i: nat)
    requires i < |keys| && StoreTyped(st) && forall j :: 0 <= j < |keys| ==> keys[j] in st
    ensures DefaultFile(st, keys[..i + 1])
      == DefaultFile(st, keys[..i]) + EntryBlock(keys[i], st[keys[i]].description, Stringify(st[keys[i]].parser, st[keys[i]].default))
  {
    assert keys[..i + 1][..i] == keys[..i];
  }

  /** A line the default file is made of: a comment, a blank line, or an entry's default assignment. */
  predicate DefaultLine(st: Store, keys: seq<string>, line: string)
    requires StoreTyped(st) && forall i :: 0 <= i < |keys| ==> keys[i] in st
  {
    || ClassifyLine(line) == Skip
    || exists i :: 0 <= i < |keys| && line == keys[i] + "=" + Stringify(st[keys[i]].parser, st[keys[i]].default)
  }

  lemma {:induction false} DefaultFileLines(st: Store, keys: seq<string>)
    requires StoreTyped(st) && forall i :: 0 <= i < |keys| ==> keys[i] in st
    ensures forall j :: 0 <= j < |DefaultFile(st, keys)| ==> DefaultLine(st, keys, DefaultFile(st, keys)[j])
  {
    if |keys| > 0 {
      var n := |keys|;
      var init := keys[..n - 1];
      DefaultFileLines(st, init);
      var k := keys[n - 1];
      var block := EntryBlock(k, st[k].description, Stringify(st[k].parser, st[k].default));
      var r := DefaultFile(st, keys);
      var front := DefaultFile(st, init);
      assert r == front + block;
      forall j | 0 <= j < |r| ensures DefaultLine(st, keys, r[j]) {
        if j < |front| {
          assert r[j] == front[j];
          DefaultLineWiden(st, keys, front[j]);
        } else {
          assert r[j] == block[j - |front|];
          BlockLineDefault(st, keys, j - |front|);
        }
      }
    }
  }

  /** A line of the default file of the first entries is a line of the default file of them all. */
  lemma DefaultLineWiden(st: Store, keys: seq<string>, line: string)
    requires StoreTyped(st) && forall i :: 0 <= i < |keys| ==> keys[i] in st
    requires |keys| > 0 && DefaultLine(st, keys[..|keys| - 1], line)
    ensures DefaultLine(st, keys, line)
  {
    var init := keys[..|keys| - 1];
    if ClassifyLine(line) != Skip {
      var i :| 0 <= i < |init| && line == init[i] + "=" + Stringify(st[init[i]].parser, st[init[i]].default);
      assert keys[i] == init[i];
    }
  }

  /** Every line of the last entry's block is a comment, its default assignment or the blank line. */
  lemma BlockLineDefault(st: Store, keys: seq<string>, j: int)
    requires StoreTyped(st) && forall i :: 0 <= i < |keys| ==> keys[i] in st
    requires |keys| > 0
    requires 0 <= j < |EntryBlock(keys[|keys| - 1], st[keys[|keys| - 1]].description, Stringify(st[keys[|keys| - 1]].parser, st[keys[|keys| - 1]].default))|
    ensures DefaultLine(st, keys, EntryBlock(keys[|keys| - 1], st[keys[|keys| - 1]].description, Stringify(st[keys[|keys| - 1]].parser, st[keys[|keys| - 1]].default))[j])
  {
    var k := keys[|keys| - 1];
    var block := EntryBlock(k, st[k].description, Stringify(st[k].parser, st[k].default));
    if j < |block| - 2 {
      assert StartsWith(block[j], "#");
    } else if j == |block| - 1 {
      assert Strip("") == "";
    }
  }


  /**
   * Reading back the default file just written changes no entry and fires
   * no listener: every entry already holds what its line says.
   */
  lemma DefaultFileReadsBack(st: Store, keys: seq<string>)
    requires StoreTyped(st) && forall i :: 0 <= i < |keys| ==> keys[i] in st
    requires forall i :: 0 <= i < |keys| ==> WellFormedKey(keys[i])
    requires forall k :: k in st ==> NoLeadingSpace(Stringify(st[k].parser, st[k].default))
    ensures Reload(ResetAll(st), DefaultFile(st, keys)) == (ResetAll(st), [])
  {
    var rs := ResetAll(st);
    var file := DefaultFile(st, keys);
    DefaultFileLines(st, keys);
    forall j | 0 <= j < |file| ensures ApplyLine(rs, file[j]) == (rs, []) {
      DefaultLineFixed(st, keys, file[j]);
    }
    ReloadFixed(rs, file);
  }

  lemma DefaultLineFixed(st: Store, keys: seq<string>, line: string)
    requires StoreTyped(st) && forall i :: 0 <= i < |keys| ==> keys[i] in st
    requires forall i :: 0 <= i < |keys| ==> WellFormedKey(keys[i])
    requires forall k :: k in st ==> NoLeadingSpace(Stringify(st[k].parser, st[k].default))
    requires DefaultLine(st, keys, line)
    ensures ApplyLine(ResetAll(st), line) == (ResetAll(st), [])
  {
    var rs := ResetAll(st);
    if ClassifyLine(line) != Skip {
      var i :| 0 <= i < |keys| && line == keys[i] + "=" + Stringify(st[keys[i]].parser, st[keys[i]].default);
      var k := keys[i];
      assert rs[k].value == st[k].default && rs[k].parser == st[k].parser;
      ApplyOwnLine(rs, k);
    }
  }
}
