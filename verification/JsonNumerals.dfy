/** The language of numbers: what `strtoimax` and `strtod` read, spelled out. */
module JsonNumerals {
  import opened Basics
  import opened JsonValue
  import opened JsonParse
  import opened JsonLaws

  datatype Exponent = NoExponent | Power10(mark: char, sign: string, digits: string)

  datatype Numeral = Numeral(minus: bool, whole: string, point: bool, fraction: string, exponent: Exponent)

  predicate IsExponent(e: Exponent) {
    e.NoExponent?
    || (e.mark in {'e', 'E'} && e.sign in {"", "+", "-"} && e.digits != "" && AllDigits(e.digits))
  }

  /** Digits on at least one side of the point; a text that starts with the point is no number. */
  predicate IsNumeral(n: Numeral) {
    && AllDigits(n.whole) && AllDigits(n.fraction) && n.whole + n.fraction != ""
    && (n.minus || n.whole != "") && (!n.point ==> n.fraction == "") && IsExponent(n.exponent)
  }

  function ExponentText(e: Exponent): string {
    if e.NoExponent? then "" else [e.mark] + e.sign + e.digits
  }

  function UnsignedText(n: Numeral): string {
    n.whole + (if n.point then "." + n.fraction else "") + ExponentText(n.exponent)
  }

  function NumeralText(n: Numeral): string {
    (if n.minus then "-" else "") + UnsignedText(n)
  }

  function ExponentValue(e: Exponent): int
    requires IsExponent(e)
  {
    if e.NoExponent? then 0
    else
      var magnitude: int := DecimalValue(e.digits);
      if e.sign == "-" then -magnitude else magnitude
  }

  lemma DigitsJoin(a: string, b: string)
    requires AllDigits(a) && AllDigits(b)
    ensures AllDigits(a + b)
  {
  }

  function Magnitude(n: Numeral): Decimals
    requires IsNumeral(n)
  {
    DigitsJoin(n.whole, n.fraction);
    Decimals(DecimalValue(n.whole + n.fraction), ExponentValue(n.exponent) - |n.fraction|)
  }

  predicate IsInteger(n: Numeral) {
    !n.point && n.exponent.NoExponent?
  }

  /** The integer an int64 literal stands for. */
  function IntegerValue(n: Numeral): int
    requires IsNumeral(n)
  {
    var magnitude: int := DecimalValue(n.whole);
    if n.minus then -magnitude else magnitude
  }

  /** An int64 if it is written as an integer and in range, else a double if that is finite. */
  function NumeralValue(n: Numeral): Option<Value>
    requires IsNumeral(n)
  {
    if IsInteger(n) && INT64_MIN <= IntegerValue(n) <= INT64_MAX then Some(Int(IntegerValue(n)))
    else if Overflows(Magnitude(n)) then None
    else Some(Double(NumeralText(n)))
  }

  // ----- Reading numerals -----

  lemma {:induction false} DigitRunIs(digits: string, rest: string)
    requires AllDigits(digits) && (rest == "" || !IsDigit(rest[0]))
    ensures DigitRun(digits + rest) == |digits|
  {
    if digits == "" {
      assert digits + rest == rest;
    } else {
      assert (digits + rest)[1..] == digits[1..] + rest;
      DigitRunIs(digits[1..], rest);
    }
  }

  lemma UnsignedExponent(mark: char, digits: string)
    requires mark in {'e', 'E'} && digits != "" && AllDigits(digits)
    ensures ParseExponent([mark] + digits) == Some(DecimalValue(digits))
  {
    var t := [mark] + digits;
    assert t[1..] == digits && t[1] == digits[0] && IsDigit(t[1]);
    hide DecimalValue;
  }

  lemma SignedExponent(mark: char, sign: char, digits: string)
    requires mark in {'e', 'E'} && sign in {'+', '-'} && digits != "" && AllDigits(digits)
    ensures var magnitude: int := DecimalValue(digits);
            ParseExponent([mark] + [sign] + digits) == Some(if sign == '-' then -magnitude else magnitude)
  {
    var t := [mark] + [sign] + digits;
    assert t[2..] == digits && t[1] == sign;
    hide DecimalValue;
  }

  lemma NoExponentReads()
    ensures ParseExponent("") == Some(0)
  {
  }

  lemma ExponentReads(e: Exponent)
    requires IsExponent(e)
    ensures ParseExponent(ExponentText(e)) == Some(ExponentValue(e))
    ensures ExponentText(e) != "" ==> ExponentText(e)[0] in {'e', 'E'}
  {
    hide ParseExponent, DecimalValue, AllDigits;
    if e.NoExponent? {
      NoExponentReads();
    } else if e.sign == "" {
      UnsignedExponent(e.mark, e.digits);
      assert [e.mark] + "" + e.digits == [e.mark] + e.digits;
    } else {
      SignedExponent(e.mark, e.sign[0], e.digits);
    }
  }

  lemma ExponentIsRead(s: string) returns (e: Exponent)
    requires ParseExponent(s).Some?
    ensures IsExponent(e) && ExponentText(e) == s
  {
    if s == "" {
      e := NoExponent;
    } else if |s| > 1 && (s[1] == '-' || s[1] == '+') {
      e := Power10(s[0], [s[1]], s[2..]);
    } else {
      e := Power10(s[0], "", s[1..]);
    }
  }

  lemma Cut(a: string, b: string)
    ensures (a + b)[..|a|] == a && (a + b)[|a|..] == b
  {
  }

  lemma WithoutPoint(whole: string, e: Exponent)
    requires AllDigits(whole) && whole != "" && IsExponent(e)
    ensures ParseDecimals(whole + ExponentText(e)) == Some(Decimals(DecimalValue(whole), ExponentValue(e)))
  {
    var tail := ExponentText(e);
    ExponentReads(e);
    Cut(whole, tail);
    DigitRunIs(whole, tail);
    assert tail[..0] == "" && tail[0..] == tail && whole + "" == whole;
    hide ParseExponent, ExponentText, ExponentValue, DecimalValue, DigitRun;
  }

  lemma PointFirst(whole: string, u: string)
    ensures var t := whole + ("." + u);
            |t| > |whole| && t[|whole|] == '.' && t[|whole| + 1..] == u && t[..|whole|] == whole
  {
  }

  lemma DecimalsAtPoint(t: string, whole: string, u: string, fraction: string, tail: string, exponent: int)
    requires DigitRun(t) == |whole| < |t| && t[|whole|] == '.' && t[..|whole|] == whole && t[|whole| + 1..] == u
    requires DigitRun(u) == |fraction| && u[..|fraction|] == fraction && u[|fraction|..] == tail
    requires ParseExponent(tail) == Some(exponent) && |whole| + |fraction| > 0 && AllDigits(whole + fraction)
    ensures ParseDecimals(t) == Some(Decimals(DecimalValue(whole + fraction), exponent - |fraction|))
  {
    hide ParseExponent, DecimalValue, DigitRun;
  }

  lemma PointRuns(whole: string, fraction: string, e: Exponent)
    requires AllDigits(whole) && AllDigits(fraction) && IsExponent(e)
    ensures var u := fraction + ExponentText(e);
            DigitRun(whole + ("." + u)) == |whole| && DigitRun(u) == |fraction|
  {
    ExponentReads(e);
    hide ParseExponent, ExponentValue, DigitRun, AllDigits, IsExponent, ExponentText;
    DigitRunIs(whole, "." + (fraction + ExponentText(e)));
    DigitRunIs(fraction, ExponentText(e));
  }

  lemma WithPoint(whole: string, fraction: string, e: Exponent)
    requires AllDigits(whole) && AllDigits(fraction) && |whole| + |fraction| > 0 && IsExponent(e)
    ensures AllDigits(whole + fraction)
    ensures ParseDecimals(whole + ("." + (fraction + ExponentText(e))))
         == Some(Decimals(DecimalValue(whole + fraction), ExponentValue(e) - |fraction|))
  {
    hide *;
    var tail := ExponentText(e);
    var u := fraction + tail;
    ExponentReads(e);
    DigitsJoin(whole, fraction);
    PointFirst(whole, u);
    Cut(fraction, tail);
    PointRuns(whole, fraction, e);
    DecimalsAtPoint(whole + ("." + u), whole, u, fraction, tail, ExponentValue(e));
  }

  lemma PointJoins(n: Numeral)
    requires n.point
    ensures UnsignedText(n) == n.whole + ("." + (n.fraction + ExponentText(n.exponent)))
  {
    hide ExponentText;
  }

  lemma PlainJoins(n: Numeral)
    requires !n.point
    ensures UnsignedText(n) == n.whole + ExponentText(n.exponent)
  {
    hide ExponentText;
  }

  lemma UnsignedReads(n: Numeral)
    requires IsNumeral(n)
    ensures ParseDecimals(UnsignedText(n)) == Some(Magnitude(n))
  {
    hide ParseDecimals, UnsignedText, DecimalValue, ExponentValue, IsExponent;
    if n.point {
      PointJoins(n);
      WithPoint(n.whole, n.fraction, n.exponent);
    } else {
      PlainJoins(n);
      assert n.whole + n.fraction == n.whole;
      WithoutPoint(n.whole, n.exponent);
    }
  }

  /** Where the digits before the point end, and what is there. */
  lemma UnsignedStarts(n: Numeral)
    requires IsNumeral(n)
    ensures var t := UnsignedText(n);
            t != "" && (n.whole != "" ==> t[0] == n.whole[0])
            && if IsInteger(n) then t == n.whole else !AllDigits(t)
  {
    hide DecimalValue, ExponentValue;
    ExponentReads(n.exponent);
    if n.point {
      PointJoins(n);
      assert UnsignedText(n)[|n.whole|] == '.';
    } else {
      PlainJoins(n);
      if n.exponent.Power10? {
        assert UnsignedText(n)[|n.whole|] == ExponentText(n.exponent)[0];
      }
    }
    hide UnsignedText, ExponentText;
  }

  lemma SignSplits(n: Numeral)
    requires IsNumeral(n)
    ensures var text := NumeralText(n);
            && text != "" && (text[0] == '-' <==> n.minus) && text[0] != '+'
            && (if n.minus then text[1..] else text) == UnsignedText(n)
  {
    UnsignedStarts(n);
    hide UnsignedText, IsExponent;
  }

  lemma DoubleReads(n: Numeral)
    requires IsNumeral(n)
    ensures ParseDouble(NumeralText(n)) == Some(Magnitude(n))
  {
    SignSplits(n);
    UnsignedReads(n);
    hide UnsignedText, NumeralText, ParseDecimals, Magnitude, IsNumeral;
  }

  lemma IntegerReads(n: Numeral)
    requires IsNumeral(n)
    ensures var v := IntegerValue(n);
            ParseInt(NumeralText(n)) == if IsInteger(n) && INT64_MIN <= v <= INT64_MAX then Some(v) else None
  {
    SignSplits(n);
    UnsignedStarts(n);
    hide UnsignedText, NumeralText, DecimalValue, IsExponent, IsInteger;
  }

  lemma NumeralChars(n: Numeral)
    requires IsNumeral(n)
    ensures var text := NumeralText(n);
            text != "" && StartsNumber(text[0]) && forall i :: 0 <= i < |text| ==> IsNumberChar(text[i])
  {
    var fraction := if n.point then "." + n.fraction else "";
    var e := ExponentText(n.exponent);
    assert forall i :: 0 <= i < |e| ==> IsNumberChar(e[i]);
    assert forall i :: 0 <= i < |fraction| ==> IsNumberChar(fraction[i]);
    assert NumeralText(n) == (if n.minus then "-" else "") + (n.whole + fraction + e);
    if !n.minus {
      assert NumeralText(n)[0] == n.whole[0];
    }
  }

  /** A numeral is read as its value, or throws when it has none. */
  lemma NumeralReads(n: Numeral, rest: string)
    requires IsNumeral(n) && EndsNumber(rest)
    ensures var s := NumeralText(n) + rest;
            && s != "" && StartsNumber(s[0])
            && ParseNumber(s) == if NumeralValue(n).Some? then Ok(NumeralValue(n).value, rest) else Throws
  {
    NumeralChars(n);
    NumberSpanSplits(NumeralText(n), rest);
    IntegerReads(n);
    DoubleReads(n);
    hide NumberSpan, ParseInt, ParseDouble, Magnitude, IntegerValue, NumeralText, Overflows, IsInteger, IsNumeral;
  }

  lemma PointParts(t: string, whole: nat)
    requires ParseDecimals(t).Some? && whole == DigitRun(t) && whole < |t| && t[whole] == '.'
    ensures var u := t[whole + 1..];
            whole + DigitRun(u) > 0 && ParseExponent(u[DigitRun(u)..]).Some?
  {
    hide DecimalValue, ParseExponent, DigitRun;
  }

  lemma CutAtPoint(t: string, whole: nat, part: nat)
    requires whole < |t| && t[whole] == '.' && part <= |t| - whole - 1
    ensures t == t[..whole] + ("." + (t[whole + 1..][..part] + t[whole + 1..][part..]))
  {
    assert t[whole + 1..] == t[whole + 1..][..part] + t[whole + 1..][part..];
  }

  lemma PointIsRead(t: string, minus: bool, whole: nat) returns (n: Numeral)
    requires ParseDecimals(t).Some? && (minus || whole > 0)
    requires whole == DigitRun(t) && whole < |t| && t[whole] == '.'
    ensures IsNumeral(n) && n.minus == minus && UnsignedText(n) == t
  {
    PointParts(t, whole);
    hide DigitRun, DecimalValue, ExponentText, IsExponent, ParseDecimals, ParseExponent;
    var u := t[whole + 1..];
    var part := DigitRun(u);
    var e := ExponentIsRead(u[part..]);
    n := Numeral(minus, t[..whole], true, u[..part], e);
    assert |t[..whole] + u[..part]| == whole + part;
    PointJoins(n);
    hide UnsignedText;
    CutAtPoint(t, whole, part);
  }

  lemma PlainParts(t: string, whole: nat)
    requires ParseDecimals(t).Some? && whole == DigitRun(t) && (whole < |t| ==> t[whole] != '.')
    ensures whole > 0 && ParseExponent(t[whole..]).Some?
  {
    assert t[whole..][0..] == t[whole..];
    hide DecimalValue, ParseExponent, DigitRun;
  }

  lemma PlainIsRead(t: string, minus: bool, whole: nat) returns (n: Numeral)
    requires ParseDecimals(t).Some?
    requires whole == DigitRun(t) && (whole < |t| ==> t[whole] != '.')
    ensures IsNumeral(n) && n.minus == minus && UnsignedText(n) == t
  {
    PlainParts(t, whole);
    hide DigitRun, DecimalValue, ParseDecimals, ParseExponent, ExponentText, IsExponent;
    var e := ExponentIsRead(t[whole..]);
    n := Numeral(minus, t[..whole], false, "", e);
    PlainJoins(n);
    hide UnsignedText;
    assert t == t[..whole] + t[whole..];
  }

  /** The parts of a text that is read after its sign. */
  lemma UnsignedIsRead(t: string, minus: bool) returns (n: Numeral)
    requires ParseDecimals(t).Some? && (minus || (t != "" && IsDigit(t[0])))
    ensures IsNumeral(n) && n.minus == minus && UnsignedText(n) == t
  {
    hide ParseDecimals, IsNumeral, UnsignedText;
    var whole := DigitRun(t);
    if whole < |t| && t[whole] == '.' {
      n := PointIsRead(t, minus, whole);
    } else {
      n := PlainIsRead(t, minus, whole);
    }
  }

  /** Every text that is read as a number is a numeral. */
  lemma NumeralIsRead(s: string) returns (n: Numeral)
    requires s != "" && StartsNumber(s[0]) && (ParseInt(s).Some? || ParseDouble(s).Some?)
    ensures IsNumeral(n) && NumeralText(n) == s
  {
    var minus := s[0] == '-';
    var t := if minus then s[1..] else s;
    assert s == if minus then "-" + t else t;
    if ParseInt(s).Some? {
      n := Numeral(minus, t, false, "", NoExponent);
    } else {
      hide UnsignedText, ParseDecimals, IsNumeral, ParseInt;
      n := UnsignedIsRead(t, minus);
    }
  }

  /** The numeral that `s` starts with. */
  predicate Spelled(n: Numeral, s: string, rest: string) {
    IsNumeral(n) && EndsNumber(rest) && s == NumeralText(n) + rest
  }

  lemma NumberIsSpelled(s: string) returns (n: Numeral, rest: string)
    requires s != "" && StartsNumber(s[0]) && !ParseNumber(s).Fail?
    ensures Spelled(n, s, rest)
    ensures ParseNumber(s) == if NumeralValue(n).Some? then Ok(NumeralValue(n).value, rest) else Throws
  {
    var text := NumberSpan(s).0;
    rest := NumberSpan(s).1;
    assert text[0] == s[0];
    hide ParseInt, ParseDouble, NumeralText, IsNumeral, NumeralValue, Overflows;
    n := NumeralIsRead(text);
    NumeralReads(n, rest);
  }

  /** The language of numbers: what is read, what throws, and so what is refused. */
  lemma NumberGrammar(s: string, v: Value, rest: string)
    requires s != "" && StartsNumber(s[0])
    ensures ParseNumber(s) == Ok(v, rest) <==> exists n :: Spelled(n, s, rest) && NumeralValue(n) == Some(v)
    ensures ParseNumber(s).Throws? <==> exists n, tail :: Spelled(n, s, tail) && NumeralValue(n) == None
  {
    if !ParseNumber(s).Fail? {
      var n, tail := NumberIsSpelled(s);
      NumeralReads(n, tail);
    }
    forall n, tail | Spelled(n, s, tail)
      ensures ParseNumber(s) == if NumeralValue(n).Some? then Ok(NumeralValue(n).value, tail) else Throws
    {
      NumeralReads(n, tail);
    }
    hide ParseNumber, NumeralText, IsNumeral, NumeralValue;
  }

  // ----- Integers as they are written -----

  lemma SameParts(n: Numeral, m: Numeral)
    requires IsNumeral(n) && IsNumeral(m) && IsInteger(m) && NumeralText(n) == NumeralText(m)
    ensures IsInteger(n) && n.minus == m.minus && n.whole == m.whole
  {
    SignSplits(n);
    SignSplits(m);
    UnsignedStarts(n);
    UnsignedStarts(m);
    hide NumeralText, UnsignedText, IsExponent;
  }

  function IntNumeral(v: int): Numeral {
    Numeral(v < 0, Decimal(if v < 0 then -v else v), false, "", NoExponent)
  }

  lemma IntNumeralText(v: int)
    ensures IsNumeral(IntNumeral(v)) && IsInteger(IntNumeral(v)) && NumeralText(IntNumeral(v)) == IntText(v)
  {
    var magnitude: int := if v < 0 then -v else v;
    hide Decimal;
    PlainJoins(IntNumeral(v));
    assert Decimal(magnitude) + "" == Decimal(magnitude);
    assert "" + Decimal(magnitude) == Decimal(magnitude);
  }

  lemma ZeroText(s: string)
    requires AllDigits(s) && NoLeadingZero(s)
    ensures s == Decimal(DecimalValue(s))
    ensures DecimalValue(s) == 0 <==> s == "0"
  {
    DecimalIsPlaceValue(s);
    DecimalIsCanonical(s, DecimalValue(s));
    DecimalIsCanonical("0", 0);
    assert Decimal(0) == "0";
    DecimalValueOfDecimal(0);
  }

  lemma SameInteger(n: Numeral, m: Numeral)
    requires IsNumeral(n) && IsNumeral(m) && IsInteger(n) && IsInteger(m)
    requires n.minus == m.minus && n.whole == m.whole
    ensures NumeralText(n) == NumeralText(m)
  {
    assert n.fraction == "" && m.fraction == "";
    hide ExponentText, IsExponent;
  }

  lemma IntegerMeans(n: Numeral, v: int64)
    requires IsNumeral(n)
    ensures NumeralValue(n) == Some(Int(v)) <==> IsInteger(n) && IntegerValue(n) == v
  {
    hide IntegerValue, Magnitude, Overflows, NumeralText, IsInteger;
  }

  /** An integer's own numeral, and the digits of any that stands for it. */
  lemma IntNumeralMeans(v: int)
    ensures IsNumeral(IntNumeral(v)) && IntegerValue(IntNumeral(v)) == v
    ensures NoLeadingZero(IntNumeral(v).whole) && !(IntNumeral(v).minus && IntNumeral(v).whole == "0")
  {
    var magnitude: int := if v < 0 then -v else v;
    DecimalIsCanonical(Decimal(magnitude), magnitude);
    DecimalValueOfDecimal(magnitude);
    ZeroText(Decimal(magnitude));
    hide Decimal, DecimalValue, PlaceValue, NoLeadingZero;
  }

  lemma CanonicalParts(n: Numeral, v: int)
    requires IsNumeral(n) && IntegerValue(n) == v && NoLeadingZero(n.whole) && !(n.minus && n.whole == "0")
    ensures n.minus == (v < 0) && n.whole == IntNumeral(v).whole
  {
    ZeroText(n.whole);
    hide Decimal, DecimalValue, NoLeadingZero;
  }

  lemma WrittenIsCanonical(n: Numeral, v: int64)
    requires IsNumeral(n) && NumeralText(n) == IntText(v)
    ensures NumeralValue(n) == Some(Int(v)) && NoLeadingZero(n.whole) && !(n.minus && n.whole == "0")
  {
    assert n.minus == IntNumeral(v).minus && n.whole == IntNumeral(v).whole ==>
      IntegerValue(n) == IntegerValue(IntNumeral(v)) by { hide DecimalValue; }
    hide *;
    IntNumeralText(v);
    IntNumeralMeans(v);
    SameParts(n, IntNumeral(v));
    IntegerMeans(n, v);
  }

  lemma CanonicalIsWritten(n: Numeral, v: int64)
    requires IsNumeral(n) && NumeralValue(n) == Some(Int(v))
    requires NoLeadingZero(n.whole) && !(n.minus && n.whole == "0")
    ensures NumeralText(n) == IntText(v)
  {
    assert IntNumeral(v).minus == (v < 0);
    hide *;
    IntNumeralText(v);
    IntegerMeans(n, v);
    CanonicalParts(n, v);
    SameInteger(n, IntNumeral(v));
  }

  /**
   The text an integer is written as is the one numeral that is read as the integer and has
   neither a leading zero nor a minus sign before zero.
   */
  lemma IntTextIsCanonical(n: Numeral, v: int64)
    requires IsNumeral(n)
    ensures NumeralText(n) == IntText(v)
       <==> NumeralValue(n) == Some(Int(v)) && NoLeadingZero(n.whole) && !(n.minus && n.whole == "0")
  {
    hide *;
    if NumeralText(n) == IntText(v) {
      WrittenIsCanonical(n, v);
    } else if NumeralValue(n) == Some(Int(v)) && NoLeadingZero(n.whole) && !(n.minus && n.whole == "0") {
      CanonicalIsWritten(n, v);
    }
  }
}
