/** `parse_data`: a request with its body, out of a buffer that ends in NUL. */
module HttpData {
  import opened Basics
  import opened HttpParser
  import opened HttpGrammar
  import opened HttpLanguage

  /** The exceptions `std::invalid_argument` and `std::out_of_range`. */
  datatype Error = InvalidArgument | OutOfRange

  const INT_MIN: int := -0x8000_0000
  const INT_MAX: int := 0x7FFF_FFFF

  // ----- std::stoi -----

  predicate IsSpace(c: char) {
    c == ' ' || 9 <= c as int <= 13
  }

  function SkipSpace(s: string): string {
    if s != "" && IsSpace(s[0]) then SkipSpace(s[1..]) else s
  }

  function DigitPrefix(s: string): (d: string)
    ensures AllDigits(d) && d <= s
    ensures |d| < |s| ==> !IsDigit(s[|d|])
  {
    if s != "" && IsDigit(s[0]) then [s[0]] + DigitPrefix(s[1..]) else ""
  }

  function Stoi(s: string): Result<int, Error> {
    var t := SkipSpace(s);
    var signed := t != "" && (t[0] == '-' || t[0] == '+');
    var digits := DigitPrefix(if signed then t[1..] else t);
    if digits == "" then Failure(InvalidArgument)
    else
      var n := if signed && t[0] == '-' then -(DecimalValue(digits) as int) else DecimalValue(digits);
      if INT_MIN <= n <= INT_MAX then Success(n) else Failure(OutOfRange)
  }

  lemma {:induction false} DigitPrefixAll(s: string)
    requires AllDigits(s)
    ensures DigitPrefix(s) == s
  {
    if s == "" {
    } else {
      DigitPrefixAll(s[1..]);
      assert s == [s[0]] + s[1..];
    }
  }

  /** `std::stoi` reads back the length that `std::to_string` wrote. */
  lemma StoiOfDecimal(n: nat)
    ensures Stoi(Decimal(n)) == if n <= INT_MAX then Success(n) else Failure(OutOfRange)
  {
    DigitPrefixAll(Decimal(n));
    DecimalValueOfDecimal(n);
    assert IsDigit(Decimal(n)[0]);
    hide Decimal, DecimalValue, DigitPrefix;
    assert SkipSpace(Decimal(n)) == Decimal(n);
  }

  /** White space, a sign, digits, and text that does not begin with another one. */
  predicate IsInteger(gap: string, sign: string, digits: string, rest: string, s: string) {
    && (forall i :: 0 <= i < |gap| ==> IsSpace(gap[i])) && sign in {"", "+", "-"}
    && digits != "" && AllDigits(digits) && (rest != "" ==> !IsDigit(rest[0]))
    && s == gap + (sign + (digits + rest))
  }

  function Signed(sign: string, digits: string): int {
    var magnitude: int := PlaceValue(digits);
    if sign == "-" then -magnitude else magnitude
  }

  lemma {:induction false} SkipsGap(gap: string, s: string)
    requires (forall i :: 0 <= i < |gap| ==> IsSpace(gap[i])) && (s != "" ==> !IsSpace(s[0]))
    ensures SkipSpace(gap + s) == s
  {
    if gap == "" {
      assert gap + s == s;
    } else {
      assert (gap + s)[1..] == gap[1..] + s;
      SkipsGap(gap[1..], s);
    }
  }

  lemma {:induction false} GapSkipped(s: string) returns (gap: string)
    ensures (forall i :: 0 <= i < |gap| ==> IsSpace(gap[i])) && s == gap + SkipSpace(s)
    ensures SkipSpace(s) != "" ==> !IsSpace(SkipSpace(s)[0])
  {
    if s == "" || !IsSpace(s[0]) {
      gap := "";
    } else {
      var tail := GapSkipped(s[1..]);
      gap := [s[0]] + tail;
      hide SkipSpace;
      assert s == [s[0]] + (tail + SkipSpace(s[1..]));
    }
  }

  lemma {:induction false} DigitPrefixIs(digits: string, rest: string)
    requires AllDigits(digits) && (rest != "" ==> !IsDigit(rest[0]))
    ensures DigitPrefix(digits + rest) == digits
  {
    if digits == "" {
      assert digits + rest == rest;
    } else {
      assert (digits + rest)[1..] == digits[1..] + rest;
      DigitPrefixIs(digits[1..], rest);
      assert digits == [digits[0]] + digits[1..];
    }
  }

  /** The parts that `stoi` and `>>` find in a text. */
  lemma IntegerFound(gap: string, sign: string, digits: string, rest: string, s: string)
    requires IsInteger(gap, sign, digits, rest, s)
    ensures var t := SkipSpace(s);
            && t != "" && (t[0] == '-' || t[0] == '+' <==> sign != "") && (t[0] == '-' <==> sign == "-")
            && (if sign != "" then t[1..] else t) == digits + rest && DigitPrefix(digits + rest) == digits
  {
    var t := sign + (digits + rest);
    assert t[0] == (if sign == "" then digits[0] else sign[0]) && !IsSpace(t[0]);
    assert sign != "" ==> t[1..] == digits + rest;
    SkipsGap(gap, t);
    DigitPrefixIs(digits, rest);
    hide SkipSpace, DigitPrefix;
  }

  lemma IntegerReads(gap: string, sign: string, digits: string, rest: string, s: string)
    requires IsInteger(gap, sign, digits, rest, s)
    ensures Stoi(s) == var n := Signed(sign, digits);
                       if -2147483648 <= n <= 2147483647 then Success(n) else Failure(OutOfRange)
  {
    IntegerFound(gap, sign, digits, rest, s);
    DecimalIsPlaceValue(digits);
    hide SkipSpace, DigitPrefix, DecimalValue, PlaceValue, IsInteger;
  }

  function AfterSign(t: string): string {
    if t != "" && (t[0] == '-' || t[0] == '+') then t[1..] else t
  }

  lemma SignTaken(t: string) returns (sign: string)
    ensures sign in {"", "+", "-"} && t == sign + AfterSign(t)
  {
    sign := if t != "" && (t[0] == '-' || t[0] == '+') then [t[0]] else "";
  }

  lemma HasDigits(s: string)
    requires Stoi(s) != Failure(InvalidArgument)
    ensures DigitPrefix(AfterSign(SkipSpace(s))) != ""
  {
    hide SkipSpace, DigitPrefix, DecimalValue;
  }

  lemma DigitsTaken(u: string)
    ensures var digits := DigitPrefix(u); var rest := u[|digits|..];
            u == digits + rest && (rest != "" ==> !IsDigit(rest[0]))
  {
    hide DigitPrefix, IsDigit;
  }

  /** Digits after white space and a sign are found in every text that has them. */
  lemma IntegerSplits(s: string) returns (gap: string, sign: string, digits: string, rest: string)
    requires Stoi(s) != Failure(InvalidArgument)
    ensures IsInteger(gap, sign, digits, rest, s)
  {
    HasDigits(s);
    gap := GapSkipped(s);
    var t := SkipSpace(s);
    sign := SignTaken(t);
    var u := AfterSign(t);
    digits := DigitPrefix(u);
    rest := u[|digits|..];
    DigitsTaken(u);
    hide SkipSpace, DigitPrefix, Stoi, AfterSign, IsSpace, IsDigit, AllDigits;
  }

  /** `std::stoi`: which texts it reads, as what, and how it refuses the others. */
  lemma StoiGrammar(s: string)
    ensures Stoi(s) == Failure(InvalidArgument)
       <==> !exists gap, sign, digits, rest :: IsInteger(gap, sign, digits, rest, s)
    ensures forall gap, sign, digits, rest :: IsInteger(gap, sign, digits, rest, s) ==>
              Stoi(s) == var n := Signed(sign, digits);
                         if -2147483648 <= n <= 2147483647 then Success(n) else Failure(OutOfRange)
  {
    if Stoi(s) != Failure(InvalidArgument) {
      var gap, sign, digits, rest := IntegerSplits(s);
    }
    forall gap, sign, digits, rest | IsInteger(gap, sign, digits, rest, s)
      ensures Stoi(s) == var n := Signed(sign, digits);
                         if -2147483648 <= n <= 2147483647 then Success(n) else Failure(OutOfRange)
    {
      IntegerReads(gap, sign, digits, rest, s);
    }
    hide Stoi, IsInteger, Signed;
  }

  // ----- get_content_length -----

  const CONTENT_LENGTH := "Content-Length"

  /** The lookup leaves an empty entry behind when there is none. */
  function WithLength(h: map<string, string>): map<string, string> {
    h[CONTENT_LENGTH := Get(h, CONTENT_LENGTH)]
  }

  function ContentLength(h: map<string, string>): Result<int, Error> {
    if Get(h, CONTENT_LENGTH) == "" then Success(0) else Stoi(Get(h, CONTENT_LENGTH))
  }

  method GetContentLength(req: Request) returns (length: Result<int, Error>)
    modifies req
    ensures req.Value() == old(req.Value()).(headers := WithLength(old(req.headers)))
    ensures length == ContentLength(old(req.headers))
  {
    if CONTENT_LENGTH !in req.headers {
      req.headers := req.headers[CONTENT_LENGTH := ""];
    }
    assert req.headers == WithLength(old(req.headers));
    var text := req.headers[CONTENT_LENGTH];
    if text != "" {
      length := Stoi(text);
    } else {
      length := Success(0);
    }
  }

  // ----- parse_data -----

  datatype Data = Data(parser: Parser, count: nat, request: Message, result: Result<ResultType, Error>)

  /**
    * Given the number of characters parsed so far, the bytes read, and the memory they are
    * in. The text that counts for the body ends at the first NUL, wherever the bytes end.
    */
  function ParseData(p: Parser, n: nat, r: Message, buffer: string, bytes: nat): Data
    requires bytes <= |buffer|
  {
    var o := Run(p, r, buffer[..bytes]);
    var text := CString(buffer);
    var r1 := o.request.(headers := WithLength(o.request.headers));
    match ContentLength(o.request.headers)
    case Failure(e) => Data(o.parser, n + o.count, r1, Failure(e))
    case Success(length) =>
      if length > 0 && n + o.count == |text| then Data(o.parser, n + o.count, r1, Success(MissingData))
      else if length < 0 || length > |text| then Data(o.parser, n + o.count, r1, Failure(OutOfRange))
      else Data(o.parser, n + o.count, r1.(body := text[|text| - length..]), Success(o.result))
  }

  method ParseRequestData(parser: RequestParser, req: Request, buffer: string, bytes: nat)
    returns (result: Result<ResultType, Error>)
    requires bytes <= |buffer| && !NulFree(buffer)
    modifies parser, req
    ensures Data(parser.Value(), parser.nCharParsed, req.Value(), result)
         == ParseData(old(parser.Value()), old(parser.nCharParsed), old(req.Value()), buffer, bytes)
  {
    hide Run, ContentLength, WithLength, CString, Stoi;
    assert buffer[0..bytes] == buffer[..bytes];
    var parsed, _ := parser.Parse(req, buffer, 0, bytes);
    var length := GetContentLength(req);
    if length.Failure? {
      return Failure(length.error);
    }
    var text := CString(buffer);
    if length.value > 0 && parser.nCharParsed == |text| {
      return Success(MissingData);
    }
    if length.value < 0 || length.value > |text| {
      return Failure(OutOfRange);
    }
    req.body := text[|text| - length.value..];
    return Success(parsed);
  }

  // ----- A request and its body -----

  /** A buffer that holds `text`, and whatever is left in it after the NUL. */
  function Buffer(text: string, junk: string): string {
    text + "\0" + junk
  }

  lemma BufferText(text: string, junk: string)
    requires NulFree(text)
    ensures CString(Buffer(text, junk)) == text
  {
    CStringUnique(Buffer(text, junk), text);
  }

  lemma CStringNulFree(s: string)
    ensures NulFree(CString(s))
  {
  }

  lemma ConcatNulFree(a: string, b: string)
    requires NulFree(a) && NulFree(b)
    ensures NulFree(a + b)
  {
  }

  /**
    * A request in the language, put into a buffer with a body after it, is parsed with its
    * method, URI, version and headers; it is good with the very body if and only if the body
    * has no NUL and is as long as the Content-Length header says.
    */
  lemma BodyRecovered(r: Message, m: Syntax, body: string, junk: string)
    requires Blank(r) && Valid(m)
    ensures var text := Render(m) + body;
            var d := ParseData(FRESH, 0, r, Buffer(text, junk), |text|);
            var h := Meaning(m, r).headers;
            && d.request.(body := r.body) == Meaning(m, r).(headers := WithLength(h))
            && (d.result == Success(Good) && d.request.body == body
                <==> NulFree(body) && ContentLength(h) == Success(|body|))
  {
    var text := Render(m) + body;
    var buffer := Buffer(text, junk);
    assert buffer[..|text|] == text;
    GrammarAccepted(r, text, m);
    RenderNulFree(m);
    CStringNulFree(buffer);
    if NulFree(body) {
      ConcatNulFree(Render(m), body);
      BufferText(text, junk);
    }
    assert Meaning(m, r).body == r.body;
    hide Run, Valid, Render, Meaning, CString, ContentLength, WithLength, Buffer;
    assert text[|Render(m)|..] == body;
  }

  /**
    * Everything that can become of a request of the language and a body without NUL: the
    * body is taken from the end of the text, so a body that is shorter than declared, but
    * not empty, is filled up with the end of the head.
    */
  lemma BodyTaken(r: Message, m: Syntax, body: string, junk: string)
    requires Blank(r) && Valid(m) && NulFree(body)
    ensures var text := Render(m) + body;
            var d := ParseData(FRESH, 0, r, Buffer(text, junk), |text|);
            match ContentLength(Meaning(m, r).headers)
            case Failure(e) => d.result == Failure(e)
            case Success(length) =>
              if length > 0 && body == "" then d.result == Success(MissingData)
              else if 0 <= length <= |text| then
                d.result == Success(Good) && |d.request.body| == length && d.request.body <= text[|text| - length..]
              else d.result == Failure(OutOfRange)
  {
    var text := Render(m) + body;
    var buffer := Buffer(text, junk);
    assert buffer[..|text|] == text;
    GrammarAccepted(r, text, m);
    RenderNulFree(m);
    ConcatNulFree(Render(m), body);
    BufferText(text, junk);
    hide Run, Valid, Render, Meaning, CString, ContentLength, WithLength, Buffer;
  }

  /** The header that declares the length, by its name. */
  lemma LengthDeclared(h: map<string, string>)
    ensures WithLength(h) == if "Content-Length" in h then h else h["Content-Length" := ""]
    ensures ContentLength(h)
         == if "Content-Length" in h && h["Content-Length"] != "" then Stoi(h["Content-Length"]) else Success(0)
  {
    hide Stoi;
  }
}
