/** Datatypes and byte-level definitions shared by every component. */
module Basics {

  datatype Option<+T> = None | Some(value: T)

  /** The outcome of an operation that may throw: exceptions become `Failure`. */
  datatype Result<+T, +E> = Success(value: T) | Failure(error: E)

  // A C++ `std::string` holds bytes. A byte is a `char` below 256; a definition that
  // does not depend on the width of a byte is given for every `string`.

  predicate IsBytes(s: string) {
    forall i :: 0 <= i < |s| ==> s[i] < 256 as char
  }

  type ByteString = s: string | IsBytes(s) witness ""

  const INT64_MIN: int := -0x8000_0000_0000_0000
  const INT64_MAX: int := 0x7FFF_FFFF_FFFF_FFFF

  type int64 = n: int | INT64_MIN <= n <= INT64_MAX

  predicate IsDigit(c: char) {
    '0' <= c <= '9'
  }

  predicate AllDigits(s: string) {
    forall i :: 0 <= i < |s| ==> IsDigit(s[i])
  }

  /** The number a digit string spells in base ten. */
  function DecimalValue(s: string): nat
    requires AllDigits(s)
  {
    if s == "" then 0
    else DecimalValue(s[..|s| - 1]) * 10 + (s[|s| - 1] as int - '0' as int)
  }

  /** What `printf("%d")` writes for a number that is not negative. */
  function Decimal(n: nat): (s: string)
    ensures s != "" && AllDigits(s)
  {
    if n < 10 then [('0' as int + n) as char]
    else Decimal(n / 10) + [('0' as int + n % 10) as char]
  }

  lemma {:induction false} DecimalValueOfDecimal(n: nat)
    ensures DecimalValue(Decimal(n)) == n
  {
    var s := Decimal(n);
    if n >= 10 {
      assert s[..|s| - 1] == Decimal(n / 10);
      DecimalValueOfDecimal(n / 10);
    } else {
      assert s[..|s| - 1] == "";
    }
  }

  function Power(b: nat, e: nat): nat {
    if e == 0 then 1 else b * Power(b, e - 1)
  }

  lemma {:induction false} PowerAdds(b: nat, d: nat, e: nat)
    ensures Power(b, d + e) == Power(b, d) * Power(b, e)
  {
    if d == 0 {
    } else {
      PowerAdds(b, d - 1, e);
      assert Power(b, d + e) == b * Power(b, d - 1 + e);
    }
  }

  /** The place of a character in a table. */
  function Place(table: string, c: char): (r: Option<nat>)
    ensures r.Some? ==> r.value < |table| && table[r.value] == c
    ensures r.None? ==> forall i :: 0 <= i < |table| ==> table[i] != c
  {
    if table == "" then None
    else if table[0] == c then Some(0)
    else
      match Place(table[1..], c)
      case None => None
      case Some(i) => Some(i + 1)
  }

  const DIGITS := "0123456789"

  const LOWER := "abcdefghijklmnopqrstuvwxyz"
  const UPPER := "ABCDEFGHIJKLMNOPQRSTUVWXYZ"

  lemma DigitTable()
    ensures |DIGITS| == 10 && forall i :: 0 <= i < 10 ==> DIGITS[i] as int == '0' as int + i
  {
  }

  lemma LowerTable()
    ensures |LOWER| == 26 && forall i :: 0 <= i < 26 ==> LOWER[i] as int == 'a' as int + i
  {
  }

  lemma UpperTable()
    ensures |UPPER| == 26 && forall i :: 0 <= i < 26 ==> UPPER[i] as int == 'A' as int + i
  {
  }

  lemma LowerLetters(c: char)
    ensures c in LOWER <==> 'a' <= c <= 'z'
  {
    LowerTable();
    hide LOWER;
    if 'a' <= c <= 'z' {
      assert LOWER[c as int - 'a' as int] == c;
    }
  }

  lemma UpperLetters(c: char)
    ensures c in UPPER <==> 'A' <= c <= 'Z'
  {
    UpperTable();
    hide UPPER;
    if 'A' <= c <= 'Z' {
      assert UPPER[c as int - 'A' as int] == c;
    }
  }

  /** Each digit times a power of ten by its place: what a number means in base ten. */
  function PlaceValue(s: string): nat {
    if s == "" then 0
    else (match Place(DIGITS, s[0]) case None => 0 case Some(d) => d * Power(10, |s| - 1)) + PlaceValue(s[1..])
  }

  lemma DigitPlace(c: char)
    ensures IsDigit(c) <==> Place(DIGITS, c).Some?
    ensures IsDigit(c) ==> Place(DIGITS, c).value == c as int - '0' as int
  {
    DigitTable();
    hide DIGITS, Place;
    if IsDigit(c) {
      assert DIGITS[c as int - '0' as int] == c;
    }
  }

  lemma {:induction false} DecimalValueHead(s: string)
    requires AllDigits(s) && s != ""
    ensures DecimalValue(s) == (s[0] as int - '0' as int) * Power(10, |s| - 1) + DecimalValue(s[1..])
  {
    if |s| == 1 {
      assert s[..0] == "" && s[1..] == "";
    } else {
      var front, d, e := s[..|s| - 1], s[0] as int - '0' as int, Power(10, |s| - 2);
      DecimalValueHead(front);
      assert front[1..] == s[1..][..|s| - 2];
      assert DecimalValue(s) == (d * e + DecimalValue(front[1..])) * 10 + (s[|s| - 1] as int - '0' as int);
      assert DecimalValue(s[1..]) == DecimalValue(front[1..]) * 10 + (s[|s| - 1] as int - '0' as int);
      assert d * e * 10 == d * (10 * e);
    }
  }

  /** Digit strings are read in base ten. */
  lemma {:induction false} DecimalIsPlaceValue(s: string)
    requires AllDigits(s)
    ensures DecimalValue(s) == PlaceValue(s)
  {
    if s == "" {
    } else {
      DigitPlace(s[0]);
      DecimalValueHead(s);
      DecimalIsPlaceValue(s[1..]);
      hide DecimalValue, Place, Power;
    }
  }

  lemma {:induction false} DecimalHead(n: nat)
    ensures n >= 10 ==> |Decimal(n)| > 1
    ensures n > 0 ==> Decimal(n)[0] != '0'
  {
    if n < 10 {
    } else {
      DecimalHead(n / 10);
    }
  }

  predicate NoLeadingZero(s: string) {
    s != "" && (|s| == 1 || s[0] != '0')
  }

  lemma {:induction false} PositiveValue(s: string)
    requires AllDigits(s) && s != "" && s[0] != '0'
    ensures DecimalValue(s) > 0
  {
    var front := s[..|s| - 1];
    if front == "" {
    } else {
      PositiveValue(front);
    }
  }

  lemma {:induction false} CanonicalIsDecimal(s: string)
    requires AllDigits(s) && NoLeadingZero(s)
    ensures s == Decimal(DecimalValue(s))
  {
    var front, d := s[..|s| - 1], s[|s| - 1] as int - '0' as int;
    var n := DecimalValue(front);
    assert s == front + [('0' as int + d) as char];
    assert DecimalValue(s) == n * 10 + d;
    if front == "" {
    } else {
      PositiveValue(front);
      CanonicalIsDecimal(front);
      assert (n * 10 + d) / 10 == n && (n * 10 + d) % 10 == d;
    }
  }

  /** The text of a number is the one digit string of its value without leading zeros. */
  lemma DecimalIsCanonical(s: string, n: nat)
    ensures s == Decimal(n) <==> AllDigits(s) && NoLeadingZero(s) && PlaceValue(s) == n
  {
    DecimalHead(n);
    DecimalValueOfDecimal(n);
    DecimalIsPlaceValue(Decimal(n));
    assert n < 10 ==> |Decimal(n)| == 1;
    hide Decimal, DecimalValue, PlaceValue, Power;
    if AllDigits(s) && NoLeadingZero(s) {
      DecimalIsPlaceValue(s);
      CanonicalIsDecimal(s);
    }
  }

  /** The bytes a C string function sees: everything before the first NUL. */
  function CString(s: string): (r: string)
    ensures r <= s
    ensures forall i :: 0 <= i < |r| ==> r[i] != '\0'
    ensures |r| < |s| ==> s[|r|] == '\0'
  {
    if s == "" || s[0] == '\0' then "" else [s[0]] + CString(s[1..])
  }

  predicate NulFree(s: string) {
    forall i :: 0 <= i < |s| ==> s[i] != '\0'
  }

  lemma {:induction false} CStringUnique(s: string, r: string)
    requires r <= s && NulFree(r)
    requires |r| < |s| ==> s[|r|] == '\0'
    ensures CString(s) == r
  {
    if r == "" {
    } else {
      CStringUnique(s[1..], r[1..]);
      assert r == [r[0]] + r[1..];
    }
  }

  /** `n` copies of `s`, one after the other. */
  function Repeat(s: string, n: nat): string {
    if n == 0 then "" else s + Repeat(s, n - 1)
  }
}
