/**
 The language of string literals `_parse_string` reads, and the UTF-8 it makes of
 `\u` escapes (section 7 of RFC 8259, section 3 of RFC 3629).
 */
module JsonStrings {
  import opened Basics
  import opened JsonParse
  import opened JsonValue

  // ----- The grammar of literals -----

  predicate IsHex4(h: string) {
    |h| == 4 && IsHex(h[0]) && IsHex(h[1]) && IsHex(h[2]) && IsHex(h[3])
  }

  function Hex4(h: string): (r: nat)
    requires IsHex4(h)
    ensures r < 0x10000
  {
    HexValue(h[0]) * 0x1000 + HexValue(h[1]) * 0x100 + HexValue(h[2]) * 0x10 + HexValue(h[3])
  }

  /** One piece of a literal. */
  datatype Element =
    | Raw(c: char)
    | Short(escape: char)
    | Unit(hex: string)
    | Pair(high: string, low: string)

  predicate IsElement(e: Element) {
    match e
    case Raw(c) => c >= ' ' && c != '"' && c != '\\'
    case Short(escape) => SimpleEscape(escape).Some?
    case Unit(hex) => IsHex4(hex) && !HighSurrogate(Hex4(hex)) && !LowSurrogate(Hex4(hex))
    case Pair(high, low) =>
      IsHex4(high) && IsHex4(low) && HighSurrogate(Hex4(high)) && LowSurrogate(Hex4(low))
  }

  function Spelling(e: Element): string {
    match e
    case Raw(c) => [c]
    case Short(escape) => ['\\', escape]
    case Unit(hex) => "\\u" + hex
    case Pair(high, low) => "\\u" + high + "\\u" + low
  }

  /** A Unicode scalar value. */
  predicate IsScalar(u: int) {
    0 <= u < 0x110000 && !HighSurrogate(u) && !LowSurrogate(u)
  }

  /** The code point of a `\u` escape. */
  function Code(e: Element): (r: nat)
    requires IsElement(e) && (e.Unit? || e.Pair?)
    ensures IsScalar(r)
  {
    if e.Unit? then Hex4(e.hex) else PairValue(Hex4(e.high), Hex4(e.low))
  }

  /** The bytes an element stands for. */
  function Meaning(e: Element): string
    requires IsElement(e)
  {
    match e
    case Raw(c) => [c]
    case Short(escape) => [SimpleEscape(escape).value]
    case _ => Utf8(Code(e))
  }

  predicate IsLiteral(es: seq<Element>) {
    forall i :: 0 <= i < |es| ==> IsElement(es[i])
  }

  function Spellings(es: seq<Element>): string {
    if es == [] then "" else Spelling(es[0]) + Spellings(es[1..])
  }

  function Meanings(es: seq<Element>): string
    requires IsLiteral(es)
  {
    if es == [] then "" else Meaning(es[0]) + Meanings(es[1..])
  }

  lemma QuadHexStep(c: char, t: string, n: nat, acc: nat)
    requires n > 0 && IsHex(c)
    ensures QuadHex([c] + t, n, acc) == QuadHex(t, n - 1, acc * 16 + HexValue(c))
  {
    assert ([c] + t)[1..] == t;
  }

  lemma FourHexRead(h: string, t: string)
    requires IsHex4(h)
    ensures QuadHex(h + t, 4, 0) == (Some(Hex4(h)), t)
  {
    var (a, b, c, d) := (h[0], h[1], h[2], h[3]);
    assert h + t == [a] + ([b] + ([c] + ([d] + t)));
    QuadHexStep(a, [b] + ([c] + ([d] + t)), 4, 0);
    QuadHexStep(b, [c] + ([d] + t), 3, HexValue(a));
    QuadHexStep(c, [d] + t, 2, HexValue(a) * 16 + HexValue(b));
    QuadHexStep(d, t, 1, (HexValue(a) * 16 + HexValue(b)) * 16 + HexValue(c));
    assert QuadHex(t, 0, Hex4(h)) == (Some(Hex4(h)), t);
    hide QuadHex, IsHex, HexValue;
  }

  lemma {:induction false} QuadHexStops(s: string, n: nat, acc: nat, i: nat)
    requires i < n && (i >= |s| || !IsHex(s[i]))
    ensures QuadHex(s, n, acc).0 == None
    decreases n
  {
    if i == 0 || s == "" || !IsHex(s[0]) {
    } else {
      QuadHexStops(s[1..], n - 1, acc * 16 + HexValue(s[0]), i - 1);
    }
  }

  lemma QuadHexReads(s: string)
    ensures QuadHex(s, 4, 0).0.Some? <==> |s| >= 4 && IsHex4(s[..4])
    ensures |s| >= 4 && IsHex4(s[..4]) ==> QuadHex(s, 4, 0) == (Some(Hex4(s[..4])), s[4..])
  {
    if |s| >= 4 && IsHex4(s[..4]) {
      FourHexRead(s[..4], s[4..]);
      assert s == s[..4] + s[4..];
    } else {
      var i :| 0 <= i < 4 && (i >= |s| || !IsHex(s[i]));
      QuadHexStops(s, 4, 0, i);
    }
  }

  lemma UnitReads(hex: string, rest: string)
    requires IsElement(Unit(hex))
    ensures CodePoint(hex + rest) == Ok(Utf8(Hex4(hex)), rest)
  {
    QuadHexReads(hex + rest);
    assert (hex + rest)[..4] == hex && (hex + rest)[4..] == rest;
  }

  lemma PairReads(high: string, low: string, rest: string)
    requires IsElement(Pair(high, low))
    ensures CodePoint(high + "\\u" + low + rest) == Ok(Utf8(PairValue(Hex4(high), Hex4(low))), rest)
  {
    var s := high + "\\u" + low + rest;
    QuadHexReads(s);
    QuadHexReads(low + rest);
    assert s[..4] == high && s[4..] == "\\u" + low + rest;
    assert s[4..][2..] == low + rest;
    assert (low + rest)[..4] == low && (low + rest)[4..] == rest;
  }

  lemma EscapeReads(t: string)
    ensures ParseString("\\u" + t)
         == if CodePoint(t).Ok? then Prepend(CodePoint(t).value, ParseString(CodePoint(t).rest)) else CodePoint(t)
  {
    hide CodePoint;
    assert ("\\u" + t)[2..] == t;
  }

  lemma PlainElementReads(e: Element, rest: string)
    requires IsElement(e) && (e.Raw? || e.Short?)
    ensures ParseString(Spelling(e) + rest) == Prepend(Meaning(e), ParseString(rest))
  {
    hide CodePoint, Utf8, Hex4;
    assert (Spelling(e) + rest)[|Spelling(e)|..] == rest;
  }

  lemma ElementReads(e: Element, rest: string)
    requires IsElement(e)
    ensures ParseString(Spelling(e) + rest) == Prepend(Meaning(e), ParseString(rest))
  {
    hide CodePoint, Utf8, Hex4, ParseString;
    if e.Raw? || e.Short? {
      PlainElementReads(e, rest);
    } else if e.Unit? {
      EscapeReads(e.hex + rest);
      UnitReads(e.hex, rest);
      assert Spelling(e) + rest == "\\u" + (e.hex + rest);
    } else {
      EscapeReads(e.high + "\\u" + e.low + rest);
      PairReads(e.high, e.low, rest);
      assert Spelling(e) + rest == "\\u" + (e.high + "\\u" + e.low + rest);
    }
  }

  /** Whatever follows, the elements before it are read as what they mean. */
  lemma {:induction false} ElementsRead(es: seq<Element>, rest: string)
    requires IsLiteral(es)
    ensures ParseString(Spellings(es) + rest) == Prepend(Meanings(es), ParseString(rest))
  {
    hide ParseString, Spelling, Meaning;
    if es == [] {
      assert Spellings(es) + rest == rest;
      PrependNothing(ParseString(rest));
    } else {
      var tail := es[1..];
      assert Spellings(es) + rest == Spelling(es[0]) + (Spellings(tail) + rest);
      ElementReads(es[0], Spellings(tail) + rest);
      ElementsRead(tail, rest);
      PrependTwice(Meaning(es[0]), Meanings(tail), ParseString(rest));
    }
  }

  lemma TenCharacters(s: string)
    requires |s| >= 10 && s[4] == '\\' && s[5] == 'u'
    ensures "\\u" + s == "\\u" + s[..4] + "\\u" + s[6..10] + s[10..]
  {
    assert s == s[..4] + "\\u" + s[6..10] + s[10..];
  }

  /** The digits of an accepted escape, and of the one after it if it begins a pair. */
  lemma CodePointShape(s: string)
    requires CodePoint(s).Ok?
    ensures |s| >= 4 && IsHex4(s[..4]) && !LowSurrogate(Hex4(s[..4]))
    ensures if !HighSurrogate(Hex4(s[..4])) then CodePoint(s) == Ok(Utf8(Hex4(s[..4])), s[4..])
            else |s| >= 10 && s[4] == '\\' && s[5] == 'u' && IsHex4(s[6..10]) && LowSurrogate(Hex4(s[6..10]))
                 && CodePoint(s) == Ok(Utf8(PairValue(Hex4(s[..4]), Hex4(s[6..10]))), s[10..])
  {
    QuadHexReads(s);
    hide Utf8, Hex4, IsHex, QuadHex;
    if HighSurrogate(Hex4(s[..4])) {
      QuadHexReads(s[4..][2..]);
      assert s[4..][2..] == s[6..] && s[6..][..4] == s[6..10] && s[6..][4..] == s[10..];
      assert s[4..][1..] == s[5..];
    }
  }

  lemma CodePointElement(s: string) returns (e: Element)
    requires CodePoint(s).Ok?
    ensures IsElement(e) && (e.Unit? || e.Pair?)
    ensures "\\u" + s == Spelling(e) + CodePoint(s).rest
    ensures CodePoint(s).value == Meaning(e)
  {
    CodePointShape(s);
    hide CodePoint, Hex4, Utf8, IsHex;
    if !HighSurrogate(Hex4(s[..4])) {
      e := Unit(s[..4]);
      assert "\\u" + s == "\\u" + s[..4] + s[4..];
    } else {
      e := Pair(s[..4], s[6..10]);
      TenCharacters(s);
    }
  }

  /** The first element of an accepted literal that is not at its end. */
  lemma FirstElement(s: string) returns (e: Element, rest: string)
    requires ParseString(s).Ok? && s[0] != '"'
    ensures IsElement(e) && s == Spelling(e) + rest && |rest| < |s|
    ensures ParseString(s) == Prepend(Meaning(e), ParseString(rest))
  {
    if s[0] != '\\' {
      e, rest := Raw(s[0]), s[1..];
      assert s == [s[0]] + rest;
    } else if s[1] != 'u' {
      e, rest := Short(s[1]), s[2..];
      assert s == [s[0], s[1]] + rest;
    } else {
      rest := CodePoint(s[2..]).rest;
      e := CodePointElement(s[2..]);
      hide CodePoint, Utf8;
      assert s == "\\u" + s[2..];
    }
  }

  lemma SpellingsHead(e: Element, tail: seq<Element>, end: string)
    requires IsElement(e) && IsLiteral(tail)
    ensures IsLiteral([e] + tail)
    ensures Spellings([e] + tail) + end == Spelling(e) + (Spellings(tail) + end)
    ensures Meanings([e] + tail) == Meaning(e) + Meanings(tail)
  {
    hide Spelling, Meaning, IsElement;
    assert ([e] + tail)[1..] == tail;
  }

  /** Everything the parser accepts is spelled by some elements. */
  lemma {:induction false} AcceptedIsSpelled(s: string) returns (es: seq<Element>)
    requires ParseString(s).Ok?
    ensures IsLiteral(es)
    ensures s == Spellings(es) + ("\"" + ParseString(s).rest)
    ensures ParseString(s).value == Meanings(es)
    decreases |s|
  {
    if s[0] == '"' {
      es := [];
      assert s == "\"" + s[1..];
    } else {
      var e, rest := FirstElement(s);
      hide ParseString, Spelling, Meaning, Spellings, Meanings, IsLiteral;
      var tail := AcceptedIsSpelled(rest);
      es := [e] + tail;
      SpellingsHead(e, tail, "\"" + ParseString(s).rest);
    }
  }

  lemma SpelledIsAccepted(es: seq<Element>, rest: string)
    requires IsLiteral(es)
    ensures ParseString(Spellings(es) + ("\"" + rest)) == Ok(Meanings(es), rest)
  {
    var end := "\"" + rest;
    assert end[1..] == rest && ParseString(end) == Ok("", rest);
    hide ParseString, Spellings, Meanings;
    ElementsRead(es, end);
    assert Meanings(es) + "" == Meanings(es);
  }

  /** `es` spells the literal `s` starts with, up to and including its closing quote. */
  ghost predicate Spells(es: seq<Element>, s: string, value: string, rest: string) {
    IsLiteral(es) && s == Spellings(es) + ("\"" + rest) && value == Meanings(es)
  }

  /** The language of literals: what is read, what it means and where reading stops. */
  lemma LiteralGrammar(s: string, value: string, rest: string)
    ensures ParseString(s) == Ok(value, rest) <==> exists es :: Spells(es, s, value, rest)
  {
    hide ParseString;
    if ParseString(s) == Ok(value, rest) {
      var es := AcceptedIsSpelled(s);
      assert Spells(es, s, value, rest);
    }
    forall es | Spells(es, s, value, rest)
      ensures ParseString(s) == Ok(value, rest)
    {
      SpelledIsAccepted(es, rest);
    }
  }

  // ----- UTF-8 -----

  predicate IsTail(c: char) {
    0x80 <= c as int < 0xC0
  }

  /** Reads one character in its shortest form: its value and its length. */
  function DecodeOne(b: string): Option<(nat, nat)>
    requires b != ""
  {
    var b0 := b[0] as int;
    if b0 < 0x80 then Some((b0, 1))
    else if 0xC0 <= b0 < 0xE0 then
      if |b| < 2 || !IsTail(b[1]) then None
      else
        var u := (b0 - 0xC0) * 0x40 + (b[1] as int - 0x80);
        if u < 0x80 then None else Some((u, 2))
    else if 0xE0 <= b0 < 0xF0 then
      if |b| < 3 || !IsTail(b[1]) || !IsTail(b[2]) then None
      else
        var u := (b0 - 0xE0) * 0x1000 + (b[1] as int - 0x80) * 0x40 + (b[2] as int - 0x80);
        if u < 0x800 || !IsScalar(u) then None else Some((u, 3))
    else if 0xF0 <= b0 < 0xF8 then
      if |b| < 4 || !IsTail(b[1]) || !IsTail(b[2]) || !IsTail(b[3]) then None
      else
        var u := (b0 - 0xF0) * 0x40000 + (b[1] as int - 0x80) * 0x1000
                 + (b[2] as int - 0x80) * 0x40 + (b[3] as int - 0x80);
        if u < 0x10000 || !IsScalar(u) then None else Some((u, 4))
    else None
  }

  function DecodeUtf8(b: string): Option<seq<nat>> {
    if b == "" then Some([])
    else
      match DecodeOne(b)
      case None => None
      case Some((u, n)) =>
        if n == 0 || n > |b| then None
        else
          match DecodeUtf8(b[n..])
          case None => None
          case Some(us) => Some([u] + us)
  }

  lemma DivideTwice(u: nat)
    ensures u / 0x1000 == u / 0x40 / 0x40 && u / 0x40000 == u / 0x40 / 0x40 / 0x40
  {}

  lemma Utf8DecodesOne(u: nat, rest: string)
    requires IsScalar(u)
    ensures DecodeOne(Utf8(u) + rest) == Some((u, |Utf8(u)|))
  {
    var b := Utf8(u);
    var s := b + rest;
    DivideTwice(u);
    assert |s| >= |b| && s[0] == b[0];
    if u < 0x80 {
    } else if u < 0x800 {
      assert s[1] == b[1];
    } else if u < 0x10000 {
      assert s[1] == b[1] && s[2] == b[2];
    } else {
      assert s[1] == b[1] && s[2] == b[2] && s[3] == b[3];
    }
  }

  predicate AreEscapes(es: seq<Element>) {
    IsLiteral(es) && forall i :: 0 <= i < |es| ==> es[i].Unit? || es[i].Pair?
  }

  function Codes(es: seq<Element>): seq<nat>
    requires AreEscapes(es)
  {
    if es == [] then [] else [Code(es[0])] + Codes(es[1..])
  }

  lemma {:induction false} EscapesDecode(es: seq<Element>)
    requires AreEscapes(es)
    ensures DecodeUtf8(Meanings(es)) == Some(Codes(es))
  {
    if es == [] {
    } else {
      var u, tail := Code(es[0]), Meanings(es[1..]);
      var b := Meanings(es);
      EscapesDecode(es[1..]);
      Utf8DecodesOne(u, tail);
      hide Utf8, DecodeOne, Code;
      assert b == Utf8(u) + tail;
      assert b[|Utf8(u)|..] == tail;
    }
  }

  /**
   Any spelling of Unicode scalar values by `\u` escapes is read as bytes that decode,
   as shortest-form UTF-8, to those scalar values.
   */
  lemma EscapesAreUtf8(es: seq<Element>, rest: string)
    requires AreEscapes(es)
    ensures var r := ParseString(Spellings(es) + ("\"" + rest));
            r.Ok? && r.rest == rest && DecodeUtf8(r.value) == Some(Codes(es))
  {
    SpelledIsAccepted(es, rest);
    EscapesDecode(es);
  }

  function Hex4Text(n: nat): string
    requires n < 0x10000
  {
    [HexDigit(n / 0x1000), HexDigit(n / 0x100 % 0x10), HexDigit(n / 0x10 % 0x10), HexDigit(n % 0x10)]
  }

  lemma HexDigitReads(d: nat)
    requires d < 16
    ensures IsHex(HexDigit(d)) && HexValue(HexDigit(d)) == d
  {}

  lemma Hex4TextReads(n: nat)
    requires n < 0x10000
    ensures IsHex4(Hex4Text(n)) && Hex4(Hex4Text(n)) == n
  {
    HexDigitReads(n / 0x1000);
    HexDigitReads(n / 0x100 % 0x10);
    HexDigitReads(n / 0x10 % 0x10);
    HexDigitReads(n % 0x10);
    hide HexDigit, HexValue, IsHex;
    assert n / 0x100 == n / 0x10 / 0x10 && n / 0x1000 == n / 0x10 / 0x10 / 0x10;
  }

  /** Every scalar value has such a spelling. */
  lemma ScalarIsSpelled(u: nat) returns (e: Element)
    requires IsScalar(u)
    ensures IsElement(e) && (e.Unit? || e.Pair?) && Code(e) == u
  {
    hide Hex4Text, Hex4;
    if u < 0x10000 {
      Hex4TextReads(u);
      e := Unit(Hex4Text(u));
    } else {
      var high, low := 0xD800 + (u - 0x10000) / 0x400, 0xDC00 + (u - 0x10000) % 0x400;
      Hex4TextReads(high);
      Hex4TextReads(low);
      e := Pair(Hex4Text(high), Hex4Text(low));
    }
  }

  /** What a hexadecimal digit of either case is worth. */
  function HexPlace(c: char): nat {
    match Place("0123456789abcdef", c)
    case Some(d) => d
    case None =>
      match Place("0123456789ABCDEF", c)
      case Some(d) => d
      case None => 0
  }

  lemma HexTables()
    ensures forall i :: 0 <= i < 16 ==>
      "0123456789abcdef"[i] as int == if i < 10 then '0' as int + i else 'a' as int + i - 10
    ensures forall i :: 0 <= i < 16 ==>
      "0123456789ABCDEF"[i] as int == if i < 10 then '0' as int + i else 'A' as int + i - 10
  {
  }

  lemma HexValueIsPlace(c: char)
    requires IsHex(c)
    ensures HexValue(c) == HexPlace(c)
  {
    var lower, upper := "0123456789abcdef", "0123456789ABCDEF";
    HexTables();
    hide Place;
    if !('A' <= c <= 'F') {
      assert lower[HexValue(c)] == c;
    } else {
      assert upper[HexValue(c)] == c;
    }
  }

  /** A digit string in base sixteen. */
  function HexNumber(h: string): nat {
    if h == "" then 0 else HexPlace(h[0]) * Power(16, |h| - 1) + HexNumber(h[1..])
  }

  lemma PowersOf16()
    ensures Power(16, 0) == 1 && Power(16, 1) == 16 && Power(16, 2) == 0x100 && Power(16, 3) == 0x1000
  {
    assert Power(16, 1) == 16 * Power(16, 0);
    assert Power(16, 2) == 16 * Power(16, 1);
    assert Power(16, 3) == 16 * Power(16, 2);
  }

  lemma Hex4IsNumber(h: string)
    requires IsHex4(h)
    ensures Hex4(h) == HexNumber(h)
  {
    PowersOf16();
    HexValueIsPlace(h[0]);
    HexValueIsPlace(h[1]);
    HexValueIsPlace(h[2]);
    HexValueIsPlace(h[3]);
    hide HexPlace, HexValue, IsHex, Power;
    assert h[1..][1..] == h[2..] && h[2..][1..] == h[3..] && h[3..][1..] == "";
    assert h[1..][0] == h[1] && h[2..][0] == h[2] && h[3..][0] == h[3];
    assert HexNumber("") == 0;
    assert HexNumber(h[3..]) == HexPlace(h[3]);
    assert HexNumber(h[2..]) == HexPlace(h[2]) * 16 + HexNumber(h[3..]);
    assert HexNumber(h[1..]) == HexPlace(h[1]) * 0x100 + HexNumber(h[2..]);
  }

  /** The UTF-16 form of a scalar value, in hexadecimal. */
  predicate IsUtf16(e: Element, u: int) {
    match e
    case Unit(hex) => u < 0x10000 && HexNumber(hex) == u
    case Pair(high, low) =>
      u >= 0x10000 && HexNumber(high) == 0xD800 + (u - 0x10000) / 0x400
      && HexNumber(low) == 0xDC00 + (u - 0x10000) % 0x400
    case _ => false
  }

  /** `\u` escapes are read as UTF-16: which unit or pair stands for which scalar value. */
  lemma EscapesAreUtf16(e: Element, u: nat)
    requires IsElement(e) && (e.Unit? || e.Pair?) && IsScalar(u)
    ensures Code(e) == u <==> IsUtf16(e, u)
  {
    if e.Unit? {
      Hex4IsNumber(e.hex);
    } else {
      Hex4IsNumber(e.high);
      Hex4IsNumber(e.low);
    }
    hide HexNumber, Hex4, IsHex4;
  }

  lemma LoneSurrogateFails(hex: string, after: string)
    requires IsHex4(hex) && (LowSurrogate(Hex4(hex)) || HighSurrogate(Hex4(hex)))
    requires HighSurrogate(Hex4(hex)) ==>
               !(|after| >= 6 && after[..2] == "\\u" && IsHex4(after[2..6]) && LowSurrogate(Hex4(after[2..6])))
    ensures CodePoint(hex + after).Fail?
  {
    var s := hex + after;
    QuadHexReads(s);
    assert s[..4] == hex && s[4..] == after;
    if HighSurrogate(Hex4(hex)) && |after| >= 2 && after[0] == '\\' && after[1] == 'u' {
      QuadHexReads(after[2..]);
      assert after[..2] == "\\u";
      assert |after| >= 6 ==> after[2..][..4] == after[2..6];
    }
    hide QuadHex, Hex4, IsHex4;
  }

  /** A surrogate escape that is no half of a pair makes the literal invalid. */
  lemma UnpairedSurrogateRejected(es: seq<Element>, hex: string, after: string)
    requires IsLiteral(es) && IsHex4(hex)
    requires LowSurrogate(Hex4(hex)) || HighSurrogate(Hex4(hex))
    requires HighSurrogate(Hex4(hex)) ==>
               !(|after| >= 6 && after[..2] == "\\u" && IsHex4(after[2..6]) && LowSurrogate(Hex4(after[2..6])))
    ensures ParseString(Spellings(es) + ("\\u" + (hex + after))).Fail?
  {
    ElementsRead(es, "\\u" + (hex + after));
    EscapeReads(hex + after);
    LoneSurrogateFails(hex, after);
    hide ParseString, CodePoint, Spellings, Meanings;
  }
}
