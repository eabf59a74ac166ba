/**
 What picojson's recursive parser does to the rest of its input: each function takes
 the characters that have not been read yet and returns those that are left.
 */
module JsonParse {
  import opened Basics
  import opened OrderedMap
  import opened JsonValue

  /** `Throws` is the `std::overflow_error` of `value(double)` for an infinite number. */
  datatype Parsed<+T> =
    | Ok(value: T, rest: string)
    | Fail(rest: string)
    | Throws

  // ----- Cursor operations -----

  predicate IsSpace(c: char) {
    c == ' ' || c == '\t' || c == '\n' || c == '\r'
  }

  function SkipSpace(s: string): (r: string)
    ensures |r| <= |s|
    ensures r != "" ==> !IsSpace(r[0])
  {
    if s != "" && IsSpace(s[0]) then SkipSpace(s[1..]) else s
  }

  /** `input::expect`: whether `c` comes next, and what is left either way. */
  function Expect(s: string, c: char): (r: (bool, string))
    ensures |r.1| <= |s| && (r.0 ==> |r.1| < |s|)
  {
    var t := SkipSpace(s);
    if t != "" && t[0] == c then (true, t[1..]) else (false, t)
  }

  /** `expect` of the bracket that ends a value. */
  function Close<T>(s: string, bracket: char, value: T): (r: Parsed<T>)
    ensures !r.Throws? && |r.rest| <= |s| && (r.Ok? ==> |r.rest| < |s|)
  {
    var (closed, u) := Expect(s, bracket);
    if closed then Ok(value, u) else Fail(u)
  }

  /** `input::match`. */
  function Match(s: string, pattern: string): (r: (bool, string))
    ensures |r.1| <= |s|
  {
    if pattern == "" then (true, s)
    else if s != "" && s[0] == pattern[0] then Match(s[1..], pattern[1..])
    else (false, s)
  }

  // ----- Strings -----

  predicate IsHex(c: char) {
    IsDigit(c) || 'A' <= c <= 'F' || 'a' <= c <= 'f'
  }

  function HexValue(c: char): (r: nat)
    requires IsHex(c)
    ensures r < 16
  {
    if IsDigit(c) then c as int - '0' as int
    else if 'A' <= c <= 'F' then c as int - 'A' as int + 10
    else c as int - 'a' as int + 10
  }

  /** `_parse_quadhex` after `4 - n` digits worth `acc`. */
  function QuadHex(s: string, n: nat, acc: nat): (r: (Option<nat>, string))
    ensures |r.1| <= |s|
  {
    if n == 0 then (Some(acc), s)
    else if s == "" || !IsHex(s[0]) then (None, s)
    else QuadHex(s[1..], n - 1, acc * 16 + HexValue(s[0]))
  }

  lemma {:induction false} QuadHexBound(s: string, n: nat, acc: nat, bound: nat)
    requires acc < bound
    ensures n == 0 ==> QuadHex(s, n, acc).0 == Some(acc)
    ensures n == 1 && QuadHex(s, n, acc).0.Some? ==> QuadHex(s, n, acc).0.value < bound * 16
    ensures n == 2 && QuadHex(s, n, acc).0.Some? ==> QuadHex(s, n, acc).0.value < bound * 256
    ensures n == 3 && QuadHex(s, n, acc).0.Some? ==> QuadHex(s, n, acc).0.value < bound * 4096
    ensures n == 4 && QuadHex(s, n, acc).0.Some? ==> QuadHex(s, n, acc).0.value < bound * 65536
    decreases n
  {
    if n == 0 || s == "" || !IsHex(s[0]) {
    } else {
      QuadHexBound(s[1..], n - 1, acc * 16 + HexValue(s[0]), bound * 16);
    }
  }

  predicate HighSurrogate(u: int) {
    0xD800 <= u < 0xDC00
  }

  predicate LowSurrogate(u: int) {
    0xDC00 <= u <= 0xDFFF
  }

  /** The code point of a surrogate pair. */
  function PairValue(high: int, low: int): int {
    (high - 0xD800) * 0x400 + (low - 0xDC00) + 0x10000
  }

  /** The bytes `_parse_codepoint` pushes for a code point. */
  function Utf8(u: nat): (r: string)
    requires u < 0x110000
    ensures r != "" && IsBytes(r)
  {
    if u < 0x80 then [u as char]
    else if u < 0x800 then [(0xC0 + u / 0x40) as char, (0x80 + u % 0x40) as char]
    else if u < 0x10000 then
      [(0xE0 + u / 0x1000) as char, (0x80 + u / 0x40 % 0x40) as char, (0x80 + u % 0x40) as char]
    else
      [(0xF0 + u / 0x40000) as char, (0x80 + u / 0x1000 % 0x40) as char,
       (0x80 + u / 0x40 % 0x40) as char, (0x80 + u % 0x40) as char]
  }

  /** `_parse_codepoint`, with the bytes it pushes as its value. */
  function CodePoint(s: string): (r: Parsed<string>)
    ensures !r.Throws? && |r.rest| <= |s|
  {
    QuadHexBound(s, 4, 0, 1);
    var (first, s1) := QuadHex(s, 4, 0);
    if first.None? then Fail(s1)
    else if LowSurrogate(first.value) then Fail(s1)
    else if !HighSurrogate(first.value) then Ok(Utf8(first.value), s1)
    else if s1 == "" || s1[0] != '\\' then Fail(s1)
    else if s1[1..] == "" || s1[1] != 'u' then Fail(s1[1..])
    else
      var (second, s2) := QuadHex(s1[2..], 4, 0);
      if second.None? || !LowSurrogate(second.value) then Fail(s2)
      else Ok(Utf8(PairValue(first.value, second.value)), s2)
  }

  /** The character a two-character escape stands for. */
  function SimpleEscape(c: char): Option<char> {
    match c
    case '"' => Some('"')
    case '\\' => Some('\\')
    case '/' => Some('/')
    case 'b' => Some('\U{8}')
    case 'f' => Some('\U{C}')
    case 'n' => Some('\n')
    case 'r' => Some('\r')
    case 't' => Some('\t')
    case _ => None
  }

  function Prepend(p: string, r: Parsed<string>): Parsed<string> {
    if r.Ok? then Ok(p + r.value, r.rest) else r
  }

  lemma PrependTwice(a: string, b: string, r: Parsed<string>)
    ensures Prepend(a, Prepend(b, r)) == Prepend(a + b, r)
  {
    if r.Ok? {
      assert a + (b + r.value) == a + b + r.value;
    }
  }

  lemma PrependNothing(r: Parsed<string>)
    ensures Prepend("", r) == r
  {
    if r.Ok? {
      assert "" + r.value == r.value;
    }
  }

  /** `_parse_string`, from just after the opening quote. */
  function ParseString(s: string): (r: Parsed<string>)
    ensures !r.Throws? && |r.rest| <= |s|
    ensures r.Ok? ==> |r.rest| < |s|
    decreases |s|
  {
    if s == "" || s[0] < ' ' then Fail(s)
    else if s[0] == '"' then Ok("", s[1..])
    else if s[0] != '\\' then Prepend([s[0]], ParseString(s[1..]))
    else if |s| == 1 then Fail("")
    else if SimpleEscape(s[1]).Some? then Prepend([SimpleEscape(s[1]).value], ParseString(s[2..]))
    else if s[1] != 'u' then Fail(s[2..])
    else
      var u := CodePoint(s[2..]);
      if u.Ok? then Prepend(u.value, ParseString(u.rest)) else u
  }

  // ----- Numbers -----

  predicate IsNumberChar(c: char) {
    IsDigit(c) || c == '+' || c == '-' || c == 'e' || c == 'E' || c == '.'
  }

  /** `_parse_number`: the longest prefix of number characters, and the rest. */
  function NumberSpan(s: string): (r: (string, string))
    ensures r.0 + r.1 == s
    ensures forall i :: 0 <= i < |r.0| ==> IsNumberChar(r.0[i])
    ensures r.1 != "" ==> !IsNumberChar(r.1[0])
  {
    if s == "" || !IsNumberChar(s[0]) then ("", s)
    else
      var (a, b) := NumberSpan(s[1..]);
      assert s == [s[0]] + s[1..];
      ([s[0]] + a, b)
  }

  /**
   `strtoimax` on a text that starts with a digit or a minus sign, when it reads all of
   the text and the number fits in 64 bits.
   */
  function ParseInt(s: string): Option<int64> {
    var digits := if s != "" && s[0] == '-' then s[1..] else s;
    if digits == "" || !AllDigits(digits) then None
    else
      var magnitude: int := DecimalValue(digits);
      var n := if digits == s then magnitude else -magnitude;
      if INT64_MIN <= n <= INT64_MAX then Some(n) else None
  }

  /** The length of the leading run of digits. */
  function DigitRun(s: string): (n: nat)
    ensures n <= |s| && AllDigits(s[..n])
    ensures n < |s| ==> !IsDigit(s[n])
  {
    if s == "" || !IsDigit(s[0]) then 0
    else
      var n := DigitRun(s[1..]);
      assert s[..n + 1] == [s[0]] + s[1..][..n];
      n + 1
  }

  /** A decimal floating literal: `mantissa * 10^exponent`. */
  datatype Decimals = Decimals(mantissa: nat, exponent: int)

  /** The exponent part, or `None` when the text is not one. */
  function ParseExponent(s: string): Option<int> {
    if s == "" then Some(0)
    else if s[0] != 'e' && s[0] != 'E' then None
    else
      var digits := if |s| > 1 && (s[1] == '-' || s[1] == '+') then s[2..] else s[1..];
      if digits == "" || !AllDigits(digits) then None
      else
        var magnitude: int := DecimalValue(digits);
        Some(if s[1] == '-' then -magnitude else magnitude)
  }

  /** `strtod` after the sign, when it reads all of the text. The decimal point is '.'. */
  function ParseDecimals(t: string): Option<Decimals> {
    var whole := DigitRun(t);
    var point := whole < |t| && t[whole] == '.';
    var u := if point then t[whole + 1..] else t[whole..];
    var part := if point then DigitRun(u) else 0;
    var e := ParseExponent(u[part..]);
    if whole + part == 0 || e.None? then None
    else
      assert AllDigits(t[..whole] + u[..part]);
      Some(Decimals(DecimalValue(t[..whole] + u[..part]), e.value - part))
  }

  /** `strtod` on a text of number characters. The sign is dropped: it matters to no claim made here. */
  function ParseDouble(s: string): Option<Decimals> {
    ParseDecimals(if s != "" && (s[0] == '-' || s[0] == '+') then s[1..] else s)
  }

  const TWO_TO_240: nat := 0x1_000000000000000000000000000000000000000000000000000000000000

  /** 2^1024 - 2^970: the least magnitude that rounds to an infinite double. */
  const LEAST_INFINITE: nat := 0xFFFF_FFFF_FFFF_FC00 * TWO_TO_240 * TWO_TO_240 * TWO_TO_240 * TWO_TO_240

  /** Whether the nearest double is infinite. */
  predicate Overflows(d: Decimals) {
    if d.exponent >= 0 then d.mantissa * Power(10, d.exponent) >= LEAST_INFINITE
    else d.mantissa >= LEAST_INFINITE * Power(10, -d.exponent)
  }

  predicate StartsNumber(c: char) {
    IsDigit(c) || c == '-'
  }

  /** What a number literal becomes. */
  function ParseNumber(s: string): (r: Parsed<Value>)
    requires s != "" && StartsNumber(s[0])
    ensures !r.Throws? ==> |r.rest| < |s|
  {
    var (text, rest) := NumberSpan(s);
    assert text != "";
    var n := ParseInt(text);
    if n.Some? then Ok(Int(n.value), rest)
    else
      var d := ParseDouble(text);
      if d.None? then Fail(rest)
      else if Overflows(d.value) then Throws
      else Ok(Double(text), rest)
  }

  // ----- Values -----

  function Word(s: string, pattern: string, v: Value): (r: Parsed<Value>)
    ensures !r.Throws? && |r.rest| <= |s|
  {
    var (ok, rest) := Match(s, pattern);
    if ok then Ok(v, rest) else Fail(rest)
  }

  /** `_parse` with `default_parse_context`. */
  function ParseValue(s: string): (r: Parsed<Value>)
    ensures !r.Throws? ==> |r.rest| <= |s|
    ensures r.Ok? ==> |r.rest| < |s|
    decreases |s|, 0
  {
    var t := SkipSpace(s);
    if t == "" then Fail(t)
    else if t[0] == 'n' then Word(t[1..], "ull", Null)
    else if t[0] == 'f' then Word(t[1..], "alse", Bool(false))
    else if t[0] == 't' then Word(t[1..], "rue", Bool(true))
    else if t[0] == '"' then
      var r := ParseString(t[1..]);
      if r.Ok? then Ok(Str(r.value), r.rest) else Fail(r.rest)
    else if t[0] == '[' then ParseArray(t[1..])
    else if t[0] == '{' then ParseObject(t[1..])
    else if StartsNumber(t[0]) then ParseNumber(t)
    else Fail(t)
  }

  /** `_parse_array`, from just after the opening bracket. */
  function ParseArray(s: string): (r: Parsed<Value>)
    ensures !r.Throws? ==> |r.rest| <= |s|
    decreases |s|, 2
  {
    var (closed, u) := Expect(s, ']');
    if closed then Ok(Arr([]), u)
    else
      match ParseItems(u, [])
      case Ok(items, rest) => Ok(Arr(items), rest)
      case Fail(rest) => Fail(rest)
      case Throws => Throws
  }

  /** The loop of `_parse_array`, with the items parsed so far. */
  function ParseItems(s: string, items: seq<Value>): (r: Parsed<seq<Value>>)
    ensures !r.Throws? ==> |r.rest| <= |s|
    ensures r.Ok? ==> |r.rest| < |s|
    decreases |s|, 1
  {
    var v := ParseValue(s);
    if v.Fail? then Fail(v.rest)
    else if v.Throws? then Throws
    else
      var (more, t) := Expect(v.rest, ',');
      if more then ParseItems(t, items + [v.value]) else Close(t, ']', items + [v.value])
  }

  /** `_parse_object`, from just after the opening brace. */
  function ParseObject(s: string): (r: Parsed<Value>)
    ensures !r.Throws? ==> |r.rest| <= |s|
    decreases |s|, 2
  {
    var (closed, u) := Expect(s, '}');
    if closed then Ok(Obj([]), u)
    else
      match ParseFields(u, [])
      case Ok(fields, rest) => Ok(Obj(fields), rest)
      case Fail(rest) => Fail(rest)
      case Throws => Throws
  }

  /** A member's name and colon. */
  function ParseKey(s: string): (r: Parsed<string>)
    ensures !r.Throws? && |r.rest| <= |s|
    ensures r.Ok? ==> |r.rest| < |s|
  {
    var (quote, t) := Expect(s, '"');
    if !quote then Fail(t)
    else
      var key := ParseString(t);
      if key.Fail? then key
      else
        var (colon, u) := Expect(key.rest, ':');
        if colon then Ok(key.value, u) else Fail(u)
  }

  /** The loop of `_parse_object`, with the members parsed so far. */
  function ParseFields(s: string, fields: seq<Entry<Value>>): (r: Parsed<seq<Entry<Value>>>)
    ensures !r.Throws? ==> |r.rest| <= |s|
    ensures r.Ok? ==> |r.rest| < |s|
    decreases |s|, 1
  {
    var key := ParseKey(s);
    if key.Fail? then Fail(key.rest)
    else
      var v := ParseValue(key.rest);
      if v.Fail? then Fail(v.rest)
      else if v.Throws? then Throws
      else
        var all := Put(fields, key.value, v.value);
        var (more, t) := Expect(v.rest, ',');
        if more then ParseFields(t, all) else Close(t, '}', all)
  }

  // ----- The recogniser -----

  function Forget<T>(r: Parsed<T>): Parsed<()> {
    match r
    case Ok(_, rest) => Ok((), rest)
    case Fail(rest) => Fail(rest)
    case Throws => Throws
  }

  function RecogniseNumber(s: string): (r: Parsed<()>)
    requires s != "" && StartsNumber(s[0])
    ensures !r.Throws? && |r.rest| < |s|
  {
    var (text, rest) := NumberSpan(s);
    assert text != "";
    if ParseInt(text).Some? || ParseDouble(text).Some? then Ok((), rest) else Fail(rest)
  }

  /** `_parse` with `null_parse_context`: the same walk, with nothing built. */
  function Recognise(s: string): (r: Parsed<()>)
    ensures !r.Throws? && |r.rest| <= |s|
    ensures r.Ok? ==> |r.rest| < |s|
    decreases |s|, 0
  {
    var t := SkipSpace(s);
    if t == "" then Fail(t)
    else if t[0] == 'n' then Forget(Word(t[1..], "ull", Null))
    else if t[0] == 'f' then Forget(Word(t[1..], "alse", Null))
    else if t[0] == 't' then Forget(Word(t[1..], "rue", Null))
    else if t[0] == '"' then Forget(ParseString(t[1..]))
    else if t[0] == '[' then RecogniseArray(t[1..])
    else if t[0] == '{' then RecogniseObject(t[1..])
    else if StartsNumber(t[0]) then RecogniseNumber(t)
    else Fail(t)
  }

  function RecogniseArray(s: string): (r: Parsed<()>)
    ensures !r.Throws? && |r.rest| <= |s|
    decreases |s|, 2
  {
    var (closed, u) := Expect(s, ']');
    if closed then Ok((), u) else RecogniseItems(u)
  }

  function RecogniseObject(s: string): (r: Parsed<()>)
    ensures !r.Throws? && |r.rest| <= |s|
    decreases |s|, 2
  {
    var (closed, u) := Expect(s, '}');
    if closed then Ok((), u) else RecogniseFields(u)
  }

  function RecogniseItems(s: string): (r: Parsed<()>)
    ensures !r.Throws? && |r.rest| <= |s|
    ensures r.Ok? ==> |r.rest| < |s|
    decreases |s|, 1
  {
    var v := Recognise(s);
    if v.Fail? then v
    else
      var (more, t) := Expect(v.rest, ',');
      if more then RecogniseItems(t) else Close(t, ']', ())
  }

  function RecogniseFields(s: string): (r: Parsed<()>)
    ensures !r.Throws? && |r.rest| <= |s|
    ensures r.Ok? ==> |r.rest| < |s|
    decreases |s|, 1
  {
    var key := ParseKey(s);
    if key.Fail? then Fail(key.rest)
    else
      var v := Recognise(key.rest);
      if v.Fail? then v
      else
        var (more, t) := Expect(v.rest, ',');
        if more then RecogniseFields(t) else Close(t, '}', ())
  }
}
