/** Which numbers in a text make the parser that builds values throw. */
module JsonNumbers {
  import opened Basics
  import opened OrderedMap
  import opened JsonValue
  import opened JsonParse
  import opened JsonLaws

  // ----- The numbers of a text, outside its strings -----

  /** What is left after the string literal that the text is in. */
  function SkipLiteral(s: string): (r: string)
    ensures |r| <= |s|
    decreases |s|
  {
    if s == "" then ""
    else if s[0] == '"' then s[1..]
    else if s[0] == '\\' && |s| > 1 then SkipLiteral(s[2..])
    else SkipLiteral(s[1..])
  }

  /** The next place to look at: after a whole literal or number, or one character on. */
  function Advance(s: string): (r: string)
    requires s != ""
    ensures |r| < |s|
  {
    if s[0] == '"' then SkipLiteral(s[1..])
    else if StartsNumber(s[0]) then NumberSpan(s).1
    else s[1..]
  }

  predicate TooLarge(s: string)
    requires s != ""
  {
    StartsNumber(s[0]) && ParseNumber(s).Throws?
  }

  /** No number before the last `n` characters is too large for a double. */
  predicate Fit(s: string, n: nat)
    decreases |s|
  {
    |s| <= n || (!TooLarge(s) && Fit(Advance(s), n))
  }

  predicate NumbersFit(s: string) {
    Fit(s, 0)
  }

  /** Every number of the text is an int64 literal. */
  predicate OnlyInts(s: string)
    decreases |s|
  {
    s == "" || ((StartsNumber(s[0]) ==> ParseInt(NumberSpan(s).0).Some?) && OnlyInts(Advance(s)))
  }

  lemma {:induction false} FitLess(s: string, m: nat, n: nat)
    requires m <= n && Fit(s, m)
    ensures Fit(s, n)
    decreases |s|
  {
    hide TooLarge, Advance;
    if |s| <= n {
    } else {
      FitLess(Advance(s), m, n);
    }
  }

  lemma {:induction false} IntsFit(s: string)
    requires OnlyInts(s)
    ensures NumbersFit(s)
    decreases |s|
  {
    hide Advance, ParseInt, ParseDouble, Overflows;
    if s == "" {
    } else {
      IntsFit(Advance(s));
    }
  }

  // ----- Steps of the parser -----

  /** Between the two places there is no number that is too large. */
  ghost predicate Passes(s: string, t: string) {
    |t| <= |s| && forall n: nat :: n <= |t| ==> (Fit(s, n) <==> Fit(t, n))
  }

  lemma PassesOn(s: string, t: string, u: string)
    requires Passes(s, t) && Passes(t, u)
    ensures Passes(s, u)
  {
    hide Fit;
  }

  lemma PassesAdvance(s: string)
    requires s != "" && !TooLarge(s)
    ensures Passes(s, Advance(s))
  {
    hide TooLarge, Advance;
  }

  predicate IsPlain(c: char) {
    c != '"' && !StartsNumber(c)
  }

  lemma PassesPlain(s: string)
    requires s != "" && IsPlain(s[0])
    ensures Passes(s, s[1..])
  {
    assert !TooLarge(s) && Advance(s) == s[1..];
    hide *;
    PassesAdvance(s);
  }

  lemma {:induction false} PassesSpace(s: string)
    ensures Passes(s, SkipSpace(s))
  {
    hide Fit;
    if s == "" || !IsSpace(s[0]) {
    } else {
      PassesPlain(s);
      PassesSpace(s[1..]);
      PassesOn(s, s[1..], SkipSpace(s));
    }
  }

  lemma PassesExpect(s: string, c: char)
    requires IsPlain(c)
    ensures Passes(s, Expect(s, c).1)
  {
    var t := SkipSpace(s);
    PassesSpace(s);
    hide SkipSpace, Passes;
    if t != "" && t[0] == c {
      PassesPlain(t);
      PassesOn(s, t, t[1..]);
    }
  }

  lemma {:induction false} PassesMatch(s: string, pattern: string)
    requires forall i :: 0 <= i < |pattern| ==> IsPlain(pattern[i])
    ensures Passes(s, Match(s, pattern).1)
    decreases |pattern|
  {
    hide Fit;
    if pattern == "" || s == "" || s[0] != pattern[0] {
    } else {
      PassesPlain(s);
      PassesMatch(s[1..], pattern[1..]);
      PassesOn(s, s[1..], Match(s, pattern).1);
    }
  }

  // ----- String literals -----

  lemma {:induction false} HexSkips(s: string, n: nat, acc: nat)
    ensures SkipLiteral(QuadHex(s, n, acc).1) == SkipLiteral(s)
    decreases n
  {
    if n == 0 || s == "" || !IsHex(s[0]) {
    } else {
      HexSkips(s[1..], n - 1, acc * 16 + HexValue(s[0]));
    }
  }

  lemma CodePointSkips(s: string)
    ensures CodePoint(s).Ok? ==> SkipLiteral(CodePoint(s).rest) == SkipLiteral(s)
    ensures CodePoint(s).Fail? ==> |SkipLiteral(s)| <= |CodePoint(s).rest|
  {
    QuadHexBound(s, 4, 0, 1);
    var (first, s1) := QuadHex(s, 4, 0);
    HexSkips(s, 4, 0);
    hide QuadHex, Utf8;
    if first.Some? && |s1| >= 2 && s1[0] == '\\' && s1[1] == 'u' {
      HexSkips(s1[2..], 4, 0);
    }
  }

  /** A literal that is read ends where it ends in the text; one that is not is left inside. */
  lemma {:induction false} StringSkips(s: string)
    ensures ParseString(s).Ok? ==> ParseString(s).rest == SkipLiteral(s)
    ensures ParseString(s).Fail? ==> |SkipLiteral(s)| <= |ParseString(s).rest|
    decreases |s|
  {
    hide CodePoint, SimpleEscape;
    if s == "" || s[0] < ' ' || s[0] == '"' {
    } else if s[0] != '\\' {
      StringSkips(s[1..]);
    } else if |s| > 1 {
      StringSkips(s[2..]);
      if SimpleEscape(s[1]).None? && s[1] == 'u' {
        CodePointSkips(s[2..]);
        if CodePoint(s[2..]).Ok? {
          StringSkips(CodePoint(s[2..]).rest);
        }
      }
    }
  }

  lemma PassesLiteral(s: string)
    requires s != "" && s[0] == '"'
    ensures ParseString(s[1..]).Ok? ==> Passes(s, ParseString(s[1..]).rest)
    ensures ParseString(s[1..]).Fail? ==> Fit(s, |ParseString(s[1..]).rest|)
  {
    StringSkips(s[1..]);
    assert !TooLarge(s) && Advance(s) == SkipLiteral(s[1..]);
    hide ParseString, SkipLiteral, TooLarge, Advance;
    PassesAdvance(s);
  }

  // ----- The parser -----

  /**
   What a parse of `s` says of its numbers, when the recogniser leaves `stop` characters:
   none before its end is too large, or one before the recogniser's end is.
   */
  ghost predicate Says<T(!new)>(s: string, r: Parsed<T>, stop: nat) {
    match r
    case Ok(_, t) => Passes(s, t)
    case Fail(t) => Fit(s, |t|)
    case Throws => forall n: nat :: n <= stop ==> !Fit(s, n)
  }

  /** What is said of a later place is said of an earlier one. */
  lemma SaysEarlier<T(!new)>(s: string, t: string, r: Parsed<T>, stop: nat)
    requires Passes(s, t) && Says(t, r, stop) && stop <= |t|
    requires !r.Throws? ==> |r.rest| <= |t|
    ensures Says(s, r, stop)
  {
    hide Fit;
  }

  lemma SaysLess<T(!new)>(s: string, r: Parsed<T>, stop: nat, less: nat)
    requires Says(s, r, stop) && less <= stop
    ensures Says(s, r, less)
  {
    hide Fit;
  }

  lemma NumberSays(s: string)
    requires s != "" && StartsNumber(s[0])
    ensures Says(s, ParseNumber(s), |RecogniseNumber(s).rest|)
  {
    var (text, rest) := NumberSpan(s);
    assert Advance(s) == rest && |RecogniseNumber(s).rest| == |rest|;
    hide ParseInt, ParseDouble, Overflows, NumberSpan, Advance;
    if !TooLarge(s) {
      PassesAdvance(s);
    }
  }

  lemma FitAtOnce(s: string, t: string)
    requires Passes(s, t)
    ensures Fit(s, |t|)
  {
    assert Fit(t, |t|);
  }

  lemma FitThrough(s: string, t: string, n: nat)
    requires Passes(s, t) && Fit(t, n) && n <= |t|
    ensures Fit(s, n)
  {
  }

  lemma ExpectIs(s: string, c: char)
    ensures var t := SkipSpace(s);
            Expect(s, c) == if t != "" && t[0] == c then (true, t[1..]) else (false, t)
  {
    hide SkipSpace;
  }

  lemma KeySays(s: string)
    ensures Says(s, ParseKey(s), 0)
  {
    var t := SkipSpace(s);
    PassesSpace(s);
    hide SkipSpace, Fit, Expect, Passes;
    assert Expect(s, '"') == if t != "" && t[0] == '"' then (true, t[1..]) else (false, t) by {
      ExpectIs(s, '"');
    }
    if t == "" || t[0] != '"' {
      FitAtOnce(s, t);
    } else {
      PassesLiteral(t);
      var key := ParseString(t[1..]);
      if key.Fail? {
        FitThrough(s, t, |key.rest|);
      } else {
        PassesOn(s, t, key.rest);
        PassesExpect(key.rest, ':');
        PassesOn(s, key.rest, Expect(key.rest, ':').1);
        FitAtOnce(s, Expect(key.rest, ':').1);
      }
    }
  }

  lemma CloseSays<T(!new)>(s: string, bracket: char, value: T, stop: nat)
    requires IsPlain(bracket)
    ensures Says(s, Close(s, bracket, value), stop)
  {
    PassesExpect(s, bracket);
    hide Expect, Passes, Fit;
    FitAtOnce(s, Expect(s, bracket).1);
  }

  lemma WordSays(s: string, pattern: string, v: Value, stop: nat)
    requires s != "" && IsPlain(s[0]) && forall i :: 0 <= i < |pattern| ==> IsPlain(pattern[i])
    ensures Says(s, Word(s[1..], pattern, v), stop)
  {
    hide Fit, Passes, Match;
    PassesPlain(s);
    PassesMatch(s[1..], pattern);
    PassesOn(s, s[1..], Match(s[1..], pattern).1);
    FitAtOnce(s, Match(s[1..], pattern).1);
  }

  /** Both parsers after an element: another one, or the closing bracket. */
  lemma {:induction false} ItemsSays(s: string, items: seq<Value>)
    ensures Says(s, ParseItems(s, items), |RecogniseItems(s).rest|)
    decreases |s|, 2
  {
    ValueSays(s);
    RecogniserAgrees(s);
    hide ParseValue, Recognise, Fit, Passes, Expect;
    var v := ParseValue(s);
    if v.Ok? {
      var (more, t) := Expect(v.rest, ',');
      PassesExpect(v.rest, ',');
      PassesOn(s, v.rest, t);
      if more {
        ItemsSays(t, items + [v.value]);
        SaysEarlier(s, t, ParseItems(t, items + [v.value]), |RecogniseItems(t).rest|);
      } else {
        CloseSays(t, ']', items + [v.value], |RecogniseItems(s).rest|);
        SaysEarlier(s, t, Close(t, ']', items + [v.value]), |RecogniseItems(s).rest|);
      }
    }
  }

  lemma {:induction false} FieldsSays(s: string, fields: seq<Entry<Value>>)
    ensures Says(s, ParseFields(s, fields), |RecogniseFields(s).rest|)
    decreases |s|, 2
  {
    KeySays(s);
    var key := ParseKey(s);
    if key.Ok? {
      ValueSays(key.rest);
      RecogniserAgrees(key.rest);
      hide ParseKey, ParseValue, Recognise, Fit, Passes, Expect;
      var v := ParseValue(key.rest);
      if v.Ok? {
        var all := Put(fields, key.value, v.value);
        var (more, t) := Expect(v.rest, ',');
        PassesExpect(v.rest, ',');
        PassesOn(s, key.rest, v.rest);
        PassesOn(s, v.rest, t);
        if more {
          FieldsSays(t, all);
          SaysEarlier(s, t, ParseFields(t, all), |RecogniseFields(t).rest|);
        } else {
          CloseSays(t, '}', all, |RecogniseFields(s).rest|);
          SaysEarlier(s, t, Close(t, '}', all), |RecogniseFields(s).rest|);
        }
      } else {
        SaysEarlier(s, key.rest, v, |Recognise(key.rest).rest|);
        SaysLess(s, v, |Recognise(key.rest).rest|, |RecogniseFields(s).rest|);
      }
    }
  }

  lemma {:induction false} ArraySays(s: string)
    ensures Says(s, ParseArray(s), |RecogniseArray(s).rest|)
    decreases |s|, 3
  {
    var (closed, u) := Expect(s, ']');
    PassesExpect(s, ']');
    hide Expect, Fit, Passes, ParseItems, RecogniseItems;
    if !closed {
      ItemsSays(u, []);
      SaysEarlier(s, u, ParseItems(u, []), |RecogniseItems(u).rest|);
    }
  }

  lemma {:induction false} ObjectSays(s: string)
    ensures Says(s, ParseObject(s), |RecogniseObject(s).rest|)
    decreases |s|, 3
  {
    var (closed, u) := Expect(s, '}');
    PassesExpect(s, '}');
    hide Expect, Fit, Passes, ParseFields, RecogniseFields;
    if !closed {
      FieldsSays(u, []);
      SaysEarlier(s, u, ParseFields(u, []), |RecogniseFields(u).rest|);
    }
  }

  lemma NothingLeft(t: string)
    ensures Fit(t, |t|)
  {
  }

  /** What comes after the white space. */
  lemma {:induction false} TrimmedSays(t: string)
    requires SkipSpace(t) == t
    ensures Says(t, ParseValue(t), |Recognise(t).rest|)
    decreases |t|, 0
  {
    if t == "" {
      assert Fit(t, 0);
    } else if t[0] == 'n' {
      WordSays(t, "ull", Null, |Recognise(t).rest|);
    } else if t[0] == 'f' {
      WordSays(t, "alse", Bool(false), |Recognise(t).rest|);
    } else if t[0] == 't' {
      WordSays(t, "rue", Bool(true), |Recognise(t).rest|);
    } else {
      hide ParseString, ParseArray, ParseObject, RecogniseArray, RecogniseObject, ParseNumber, RecogniseNumber,
           SkipSpace, Fit, Passes, Word;
      if t[0] == '"' {
        PassesLiteral(t);
      } else if t[0] == '[' {
        ArraySays(t[1..]);
        PassesPlain(t);
        SaysEarlier(t, t[1..], ParseArray(t[1..]), |RecogniseArray(t[1..]).rest|);
      } else if t[0] == '{' {
        ObjectSays(t[1..]);
        PassesPlain(t);
        SaysEarlier(t, t[1..], ParseObject(t[1..]), |RecogniseObject(t[1..]).rest|);
      } else if StartsNumber(t[0]) {
        NumberSays(t);
      } else {
        NothingLeft(t);
      }
    }
  }

  lemma TrimmedOnce(s: string)
    ensures SkipSpace(SkipSpace(s)) == SkipSpace(s)
    ensures ParseValue(SkipSpace(s)) == ParseValue(s) && Recognise(SkipSpace(s)) == Recognise(s)
  {
  }

  lemma {:induction false} ValueSays(s: string)
    ensures Says(s, ParseValue(s), |Recognise(s).rest|)
    decreases |s|, 1
  {
    var t := SkipSpace(s);
    PassesSpace(s);
    TrimmedOnce(s);
    hide ParseValue, Recognise, SkipSpace, Fit, Passes;
    TrimmedSays(t);
    SaysEarlier(s, t, ParseValue(t), |Recognise(t).rest|);
  }

  // ----- Agreement of the two parsers -----

  /**
   Building throws if and only if a number that is too large stands before the place where
   the recogniser stops; in every other case the two agree, and in that case they do not.
   */
  lemma ThrowsExactly(s: string)
    ensures ParseValue(s).Throws? <==> !Fit(s, |Recognise(s).rest|)
    ensures Recognise(s) == Forget(ParseValue(s)) <==> Fit(s, |Recognise(s).rest|)
  {
    ValueSays(s);
    RecogniserAgrees(s);
    hide ParseValue, Recognise, Fit;
    var r := ParseValue(s);
    if r.Ok? {
      FitAtOnce(s, r.rest);
    }
  }

  /** On every text whose numbers fit, and so on every one whose numbers are int64, they agree. */
  lemma RecogniserAgreesOnInts(s: string)
    ensures NumbersFit(s) ==> Recognise(s) == Forget(ParseValue(s))
    ensures OnlyInts(s) ==> Recognise(s) == Forget(ParseValue(s))
  {
    ThrowsExactly(s);
    hide ParseValue, Recognise, Fit;
    if OnlyInts(s) {
      IntsFit(s);
    }
    if NumbersFit(s) {
      FitLess(s, 0, |Recognise(s).rest|);
    }
  }

  // ----- A number that is too large -----

  lemma Squared(b: nat, e: nat, x: nat)
    requires Power(b, e) == x
    ensures Power(b, 2 * e) == x * x
  {
    PowerAdds(b, e, e);
  }

  lemma TwoTo16()
    ensures Power(2, 16) == 0x1_0000
  {
    assert Power(2, 1) == 2 * Power(2, 0);
    Squared(2, 1, 2);
    Squared(2, 2, 4);
    Squared(2, 4, 0x10);
    Squared(2, 8, 0x100);
  }

  const TWO_TO_128: nat := 0x1_00000000000000000000000000000000
  const TWO_TO_256: nat := TWO_TO_128 * TWO_TO_128
  const TWO_TO_512: nat := TWO_TO_256 * TWO_TO_256

  lemma TwoTo512()
    ensures Power(2, 512) == TWO_TO_512
  {
    TwoTo16();
    hide Power;
    Squared(2, 16, 0x1_0000);
    Squared(2, 32, 0x1_0000_0000);
    Squared(2, 64, 0x1_0000_0000_0000_0000);
    Squared(2, 128, TWO_TO_128);
    Squared(2, 256, TWO_TO_256);
  }

  lemma TwoTo1024()
    ensures Power(2, 1024) >= LEAST_INFINITE
  {
    hide Power;
    TwoTo512();
    Squared(2, 512, TWO_TO_512);
    assert TWO_TO_512 * TWO_TO_512 >= LEAST_INFINITE;
  }

  lemma PowerIs1()
    ensures Power(2, 1) == 2
  {
    assert Power(2, 1) == 2 * Power(2, 0);
  }

  lemma TwoTo240()
    ensures Power(2, 10) == 0x400 && Power(2, 64) == 0x1_0000_0000_0000_0000 && Power(2, 240) == TWO_TO_240
  {
    TwoTo16();
    hide Power;
    PowerIs1();
    Squared(2, 1, 2);
    PowerAdds(2, 4, 1);
    Squared(2, 2, 4);
    Squared(2, 5, 0x20);
    Squared(2, 16, 0x1_0000);
    Squared(2, 32, 0x1_0000_0000);
    PowerAdds(2, 10, 5);
    Squared(2, 15, 0x8000);
    Squared(2, 30, 0x4000_0000);
    Squared(2, 60, 0x1000_0000_0000_0000);
    Squared(2, 120, 0x1000_0000_0000_0000 * 0x1000_0000_0000_0000);
  }

  /** Between the greatest double and the next power of two, the middle. */
  lemma LeastInfinite()
    ensures LEAST_INFINITE == Power(2, 1024) - Power(2, 970)
    ensures INT64_MAX == Power(2, 63) - 1 && INT64_MIN + Power(2, 63) == 0
  {
    TwoTo240();
    hide Power;
    Squared(2, 240, TWO_TO_240);
    Squared(2, 480, TWO_TO_240 * TWO_TO_240);
    PowerAdds(2, 64, 960);
    PowerAdds(2, 10, 960);
    PowerAdds(2, 1, 63);
    PowerIs1();
  }

  function NonZero(n: nat): (r: nat)
    ensures r > 0
  {
    if n == 0 then 1 else n
  }

  /** The number a decimal literal spells, without its sign. */
  function RealValue(d: Decimals): real {
    if d.exponent >= 0 then (d.mantissa * Power(10, d.exponent)) as real
    else d.mantissa as real / NonZero(Power(10, -d.exponent)) as real
  }

  lemma {:induction false} PowerPositive(b: nat, e: nat)
    requires b > 0
    ensures Power(b, e) > 0
  {
    if e == 0 {
    } else {
      PowerPositive(b, e - 1);
    }
  }

  lemma Quotient(m: nat, l: nat, p: nat)
    requires p > 0
    ensures m >= l * p <==> m as real / p as real >= l as real
  {
    assert (l * p) as real == l as real * p as real;
    var q := m as real / p as real;
    assert q * p as real == m as real;
  }

  /** A literal is too large if and only if it is at least 2^1024 - 2^970. */
  lemma OverflowsMeans(d: Decimals)
    ensures Overflows(d) <==> RealValue(d) >= (Power(2, 1024) - Power(2, 970)) as real
  {
    LeastInfinite();
    hide Power, LEAST_INFINITE;
    if d.exponent < 0 {
      PowerPositive(10, -d.exponent);
      Quotient(d.mantissa, LEAST_INFINITE, Power(10, -d.exponent));
    }
  }

  lemma {:induction false} TwoGrows(d: nat, e: nat)
    requires d <= e
    ensures Power(2, d) <= Power(2, e)
  {
    if d == e {
    } else {
      TwoGrows(d, e - 1);
      assert Power(2, e) == 2 * Power(2, e - 1);
    }
  }

  lemma {:induction false} TenAboveEight(e: nat)
    ensures Power(10, e) >= Power(2, 3 * e)
  {
    if e == 0 {
    } else {
      TenAboveEight(e - 1);
      var n := 3 * (e - 1);
      assert Power(2, n + 3) == 2 * Power(2, n + 2) && Power(2, n + 2) == 2 * Power(2, n + 1);
      assert Power(2, n + 1) == 2 * Power(2, n) && Power(10, e) == 10 * Power(10, e - 1);
    }
  }

  lemma HugePower(e: nat)
    requires e >= 342
    ensures Power(10, e) >= LEAST_INFINITE
  {
    hide *;
    TwoTo1024();
    TwoGrows(1024, 3 * e);
    TenAboveEight(e);
  }

  lemma DigitsOf999()
    ensures DecimalValue("999") == 999 && DecimalValue("1") == 1
    ensures ParseExponent("e999") == Some(999)
  {
    assert "999"[..2] == "99" && "99"[..1] == "9" && "9"[..0] == "";
    assert DecimalValue("9") == 9 && DecimalValue("99") == 99;
    assert "e999"[1..] == "999" && "1"[..0] == "";
  }

  lemma HugeLiteral()
    ensures ParseInt("1e999") == None
    ensures ParseDouble("1e999") == Some(Decimals(1, 999)) && Overflows(Decimals(1, 999))
  {
    var t := "1e999";
    assert t[1] == 'e';
    assert t[1..] == "e999";
    assert DigitRun(t) == 1;
    DigitsOf999();
    assert t[..1] + "" == "1";
    HugePower(999);
  }

  lemma SpanOfHuge()
    ensures NumberSpan("1e999}") == ("1e999", "}")
  {
    assert "1e999" + "}" == "1e999}";
    NumberSpanSplits("1e999", "}");
  }

  lemma HugeNumber()
    ensures ParseNumber("1e999}").Throws? && RecogniseNumber("1e999}") == Ok((), "}")
  {
    SpanOfHuge();
    HugeLiteral();
    hide NumberSpan, ParseInt, ParseDouble, Overflows;
  }

  lemma NumberFirst(t: string)
    requires t != "" && StartsNumber(t[0])
    ensures SkipSpace(t) == t && ParseValue(t) == ParseNumber(t) && Recognise(t) == RecogniseNumber(t)
  {
    hide ParseNumber, RecogniseNumber;
  }

  lemma ItemThrows(t: string)
    requires ParseValue(t).Throws? && Recognise(t) == Ok((), "}") && SkipSpace("}") == "}"
    ensures ParseItems(t, []).Throws? && RecogniseItems(t) == Fail("}")
  {
    hide ParseValue, Recognise, SkipSpace;
  }

  lemma BracketOpens(t: string)
    requires SkipSpace(t) == t && t != "" && t[0] != ']'
    requires ParseItems(t, []).Throws? && RecogniseItems(t) == Fail("}")
    ensures ParseValue("[" + t).Throws? && Recognise("[" + t) == Fail("}")
  {
    var s := "[" + t;
    assert s[1..] == t && SkipSpace(s) == s;
    hide ParseItems, RecogniseItems, SkipSpace;
  }

  lemma BraceStays()
    ensures SkipSpace("}") == "}"
  {
  }

  lemma HugeStarts()
    ensures "1e999}" != "" && StartsNumber("1e999}"[0])
  {
  }

  lemma HugeItem()
    ensures ParseItems("1e999}", []).Throws? && RecogniseItems("1e999}") == Fail("}")
    ensures SkipSpace("1e999}") == "1e999}"
  {
    hide *;
    HugeStarts();
    HugeNumber();
    NumberFirst("1e999}");
    BraceStays();
    ItemThrows("1e999}");
  }

  lemma ThrowsDoesNotFit(s: string)
    requires ParseValue(s).Throws?
    ensures !NumbersFit(s)
  {
    ThrowsExactly(s);
    hide ParseValue, Recognise, Fit;
    if NumbersFit(s) {
      FitLess(s, 0, |Recognise(s).rest|);
      assert false;
    }
  }

  lemma HugeIsBracketed()
    ensures "[1e999}" == "[" + "1e999}"
  {
  }

  /** A text that the builder throws on, and the recogniser takes past the number and refuses. */
  lemma HugeNumberDisagrees()
    ensures ParseValue("[1e999}").Throws? && Recognise("[1e999}") == Fail("}")
    ensures !NumbersFit("[1e999}")
  {
    hide *;
    HugeItem();
    BracketOpens("1e999}");
    HugeIsBracketed();
    ThrowsDoesNotFit("[1e999}");
  }
}
