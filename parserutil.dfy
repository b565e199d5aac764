/**
 * The parser registry of `parserutil.py`: string <-> value codecs used by
 * every config entry. A parser is a closed variant; `Parse` may fail
 * (Python's `ValueError`), `Stringify` never does.
 */
module ParserUtil {
  import opened Strings
  import opened Wrappers

  /** A typed config value, one constructor per kind the parsers produce. */
  datatype Value =
    | BoolVal(b: bool)
    | IntVal(i: int)
    | StrVal(s: string)
    | ListVal(items: seq<string>)
    | EnumVal(member: string)
    | WordListVal(spec: string)

  /**
   * BOOL_PARSER, INT_PARSER, STRING_PARSER, STRING_LIST_PARSER, an
   * EnumParser over the member names of one enum, and the word-list
   * option's parser (kept as its pipe-separated source specification).
   */
  datatype Parser =
    | BoolParser
    | IntParser
    | StringParser
    | StringListParser
    | EnumParser(enumName: string, members: seq<string>)
    | WordListParser

  datatype ParseError =
    | NotAnInteger(text: string)
    | NotAMember(text: string, enumName: string)

  /** The spellings `_parse_bool` accepts as true. */
  const TrueWords: set<string> := {"true", "yes", "y", "1"}

  /** The value has the Python type the parser works with (what callers of `set_value` pass). */
  predicate HasType(p: Parser, v: Value) {
    match p
    case BoolParser => v.BoolVal?
    case IntParser => v.IntVal?
    case StringParser => v.StrVal?
    case StringListParser => v.ListVal?
    case EnumParser(_, members) => v.EnumVal? && v.member in members
    case WordListParser => v.WordListVal?
  }

  /** The value is one `Parse(p, _)` can produce. */
  predicate Conforms(p: Parser, v: Value) {
    && HasType(p, v)
    && (p.StringListParser? ==> |v.items| >= 1 && forall k :: 0 <= k < |v.items| ==> '|' !in v.items[k])
    && (p.EnumParser? ==> Upper(v.member) == v.member)
  }

  // ---------------------------------------------------------------------
  // The individual codecs
  // ---------------------------------------------------------------------

  /** `_parse_bool`: lower-case, strip, then look the text up among the true spellings. */
  function ParseBool(s: string): bool {
    Strip(Lower(s)) in TrueWords
  }

  /** `str(b)` for a bool. */
  function BoolText(b: bool): string {
    if b then "True" else "False"
  }

  /** The digits of Python's `int()`: a digit first, and every `_` followed by a digit. */
  predicate IsDigitRun(t: string) {
    && |t| > 0
    && IsDigit(t[0])
    && forall i :: 0 <= i < |t| ==> IsDigit(t[i]) || (t[i] == '_' && i + 1 < |t| && IsDigit(t[i + 1]))
  }

  /** The decimal value of a digit run, underscores ignored. */
  function DigitsValue(t: string): nat
  {
    if |t| == 0 then 0
    else if t[|t| - 1] == '_' then DigitsValue(t[..|t| - 1])
    else
      var d := t[|t| - 1] as int - '0' as int;
      DigitsValue(t[..|t| - 1]) * 10 + (if 0 <= d < 10 then d else 0)
  }

  /** `int(s)`: surrounding whitespace, an optional sign, then a digit run. */
  function ParseInt(s: string): Result<int, ParseError> {
    var t := Strip(s);
    if |t| > 0 && (t[0] == '-' || t[0] == '+') && IsDigitRun(t[1..]) then
      Ok(if t[0] == '-' then 0 - DigitsValue(t[1..]) else DigitsValue(t[1..]))
    else if IsDigitRun(t) then
      Ok(DigitsValue(t))
    else
      Err(NotAnInteger(s))
  }

  /** `EnumParser.parse`: look the member up by its upper-cased name. */
  function ParseEnum(enumName: string, members: seq<string>, s: string): Result<Value, ParseError> {
    if Upper(s) in members then Ok(EnumVal(Upper(s))) else Err(NotAMember(s, enumName))
  }

  /** `parser.parse(s)` */
  function Parse(p: Parser, s: string): Result<Value, ParseError> {
    match p
    case BoolParser => Ok(BoolVal(ParseBool(s)))
    case IntParser => (match ParseInt(s) case Ok(n) => Ok(IntVal(n)) case Err(e) => Err(e))
    case StringParser => Ok(StrVal(s))
    case StringListParser => Ok(ListVal(Split(s, '|')))
    case EnumParser(name, members) => ParseEnum(name, members, s)
    case WordListParser => Ok(WordListVal(s))
  }

  /** `parser.stringify(v)` */
  function Stringify(p: Parser, v: Value): string
    requires HasType(p, v)
  {
    match p
    case BoolParser => BoolText(v.b)
    case IntParser => IntToString(v.i)
    case StringParser => v.s
    case StringListParser => Join(v.items, '|')
    case EnumParser(_, _) => Lower(v.member)
    case WordListParser => v.spec
  }

  // ---------------------------------------------------------------------
  // Laws
  // ---------------------------------------------------------------------

  /** Bool parsing: true exactly for the four spellings, in any case and with any padding. */
  lemma ParseBoolSpec(s: string)
    ensures Parse(BoolParser, s) == Ok(BoolVal(Strip(Lower(s)) in TrueWords))
    ensures ParseBool(Upper(s)) == ParseBool(s)
  {
    assert Lower(Upper(s)) == Lower(s);
  }

  /** The examples of the bool parser: "YES" is true; "0" and "" are false. */
  lemma ParseBoolExamples()
    ensures ParseBool("YES")
    ensures !ParseBool("0") && !ParseBool("")
  {
    var yes := Lower("YES");
    assert yes == "yes" by {
      assert |yes| == 3 && yes[0] == 'y' && yes[1] == 'e' && yes[2] == 's';
    }
    assert Strip("yes") == "yes" by {
      assert forall i :: 0 <= i < |"yes"| ==> !IsSpace("yes"[i]);
    }
    var zero := Lower("0");
    assert zero == "0" by {
      assert |zero| == 1 && zero[0] == '0';
    }
    assert Strip("0") == "0" by {
      assert !IsSpace('0');
    }
    assert Lower("") == "";
  }

  /** `str(True)` and `str(False)` parse back to the same bool. */
  lemma BoolRoundTrip(b: bool)
    ensures ParseBool(BoolText(b)) == b
  {
    if b {
      var t := Lower("True");
      assert t == "true" by {
        assert |t| == 4 && t[0] == 't' && t[1] == 'r' && t[2] == 'u' && t[3] == 'e';
      }
      assert Strip("true") == "true" by {
        assert forall i :: 0 <= i < |"true"| ==> !IsSpace("true"[i]);
      }
    } else {
      var t := Lower("False");
      assert t == "false" by {
        assert |t| == 5 && t[0] == 'f' && t[1] == 'a' && t[2] == 'l' && t[3] == 's' && t[4] == 'e';
      }
      assert Strip("false") == "false" by {
        assert forall i :: 0 <= i < |"false"| ==> !IsSpace("false"[i]);
      }
      assert "false" !in TrueWords;
    }
  }

  lemma {:induction false} NatToStringDigits(n: nat)
    ensures IsDigitRun(NatToString(n))
    ensures DigitsValue(NatToString(n)) == n
    decreases n
  {
    if n >= 10 {
      NatToStringDigits(n / 10);
      var t := NatToString(n);
      assert t[..|t| - 1] == NatToString(n / 10);
    }
  }

  lemma NatRoundTrip(n: nat)
    ensures ParseInt(NatToString(n)) == Ok(n as int)
  {
    NatToStringDigits(n);
    var t := NatToString(n);
    StripNoSpace(t);
    assert !(t[0] == '-' || t[0] == '+');
  }

  lemma NegativeRoundTrip(n: nat)
    requires n > 0
    ensures ParseInt("-" + NatToString(n)) == Ok(0 - n)
  {
    NatToStringDigits(n);
    var u := NatToString(n);
    var t := "-" + u;
    forall i | 0 <= i < |t| ensures !IsSpace(t[i]) {
      if i > 0 { assert t[i] == u[i - 1]; }
    }
    StripNoSpace(t);
    assert t[1..] == u;
  }

  /** `int(str(n)) == n` for every integer. */
  lemma IntRoundTrip(n: int)
    ensures ParseInt(IntToString(n)) == Ok(n)
  {
    if n < 0 {
      NegativeRoundTrip(-n);
    } else {
      NatRoundTrip(n);
    }
  }

  /** The parse error of EnumParser happens exactly for unknown names. */
  lemma EnumParseSpec(name: string, members: seq<string>, s: string)
    ensures Parse(EnumParser(name, members), s).Err? <==> Upper(s) !in members
    ensures Parse(EnumParser(name, members), s).Ok? ==> Parse(EnumParser(name, members), s).value == EnumVal(Upper(s))
  {
  }

  /** Every successful parse produces a value of the parser's shape. */
  lemma ParseConforms(p: Parser, s: string)
    ensures Parse(p, s).Ok? ==> Conforms(p, Parse(p, s).value)
  {
    if p.EnumParser? && Parse(p, s).Ok? {
      UpperLowerUpper(s);
      assert Upper(Upper(s)) == Upper(s) by {
        forall i | 0 <= i < |s| ensures Upper(Upper(s))[i] == Upper(s)[i] { }
      }
    }
  }

  /**
   * The round-trip law: for every value a parser can produce,
   * parsing its stringified form gives the value back.
   */
  lemma RoundTrip(p: Parser, v: Value)
    requires Conforms(p, v)
    ensures Parse(p, Stringify(p, v)) == Ok(v)
  {
    match p
    case BoolParser => BoolRoundTrip(v.b);
    case IntParser => IntRoundTrip(v.i);
    case StringParser =>
    case StringListParser => SplitJoin(v.items, '|');
    case EnumParser(_, _) =>
      assert Upper(Lower(v.member)) == v.member by {
        forall i | 0 <= i < |v.member| ensures Upper(Lower(v.member))[i] == v.member[i] {
          assert Upper(v.member)[i] == v.member[i];
        }
      }
    case WordListParser =>
  }

  /** The image of a parser is exactly the conforming values. */
  lemma ConformsIsImage(p: Parser, v: Value)
    ensures Conforms(p, v) <==> exists s :: Parse(p, s) == Ok(v)
  {
    if Conforms(p, v) {
      RoundTrip(p, v);
    }
    if s :| Parse(p, s) == Ok(v) {
      ParseConforms(p, s);
    }
  }

  /** STRING_PARSER is the identity both ways. */
  lemma StringIdentity(s: string)
    ensures Parse(StringParser, s) == Ok(StrVal(s))
    ensures Stringify(StringParser, StrVal(s)) == s
  {
  }

  /** STRING_LIST_PARSER: `join(split(s)) == s`, and the empty text is the one-item list `[""]`. */
  lemma StringListText(s: string)
    ensures Stringify(StringListParser, Parse(StringListParser, s).value) == s
    ensures Parse(StringListParser, "") == Ok(ListVal([""]))
  {
    JoinSplit(s, '|');
  }

  /** STRING_LIST_PARSER: `split(join(xs)) == xs` for a non-empty list of `|`-free items. */
  lemma StringListItems(xs: seq<string>)
    requires |xs| >= 1 && forall k :: 0 <= k < |xs| ==> '|' !in xs[k]
    ensures Parse(StringListParser, Stringify(StringListParser, ListVal(xs))) == Ok(ListVal(xs))
  {
    SplitJoin(xs, '|');
  }

  /** A `|` inside an item is not preserved: there is no escaping. */
  lemma StringListNoEscaping()
    ensures Parse(StringListParser, Stringify(StringListParser, ListVal(["a|b"]))) == Ok(ListVal(["a", "b"]))
  {
    assert Split("a|b", '|') == ["a", "b"] by {
      assert Split("", '|') == [""];
      assert "b"[1..] == "";
      assert ['b'] + "" == "b";
      assert Split("b", '|') == ["b"];
      assert "|b"[1..] == "b";
      assert Split("|b", '|') == ["", "b"];
      assert "a|b"[1..] == "|b";
      assert ['a'] + "" == "a";
    }
  }

  /** Enum members are written in lower case and read back through upper-casing. */
  lemma EnumRoundTrip(name: string, members: seq<string>, m: string)
    requires m in members && Upper(m) == m
    ensures Stringify(EnumParser(name, members), EnumVal(m)) == Lower(m)
    ensures Parse(EnumParser(name, members), Lower(m)) == Ok(EnumVal(m))
  {
    RoundTrip(EnumParser(name, members), EnumVal(m));
  }
}
