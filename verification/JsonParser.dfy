/** The recursive parser: methods that move an `Input` and build a value as they go. */
module JsonParser {
  import opened Basics
  import opened OrderedMap
  import opened JsonValue
  import opened JsonParse
  import opened JsonInput

  /** How a parsing method ended. */
  datatype Status = Accepted | Rejected | Threw

  /** The same as a `Parsed`, given what was built and what is left to read. */
  function Outcome<T>(status: Status, value: T, rest: string): Parsed<T> {
    match status
    case Accepted => Ok(value, rest)
    case Rejected => Fail(rest)
    case Threw => Throws
  }

  function Accept(ok: bool): Status {
    if ok then Accepted else Rejected
  }

  /** `_parse_quadhex`; -1 when four hex digits do not follow. */
  method ParseQuadhex(input: Input) returns (code: int)
    requires input.Valid()
    modifies input
    ensures input.Valid()
    ensures var (value, rest) := QuadHex(old(input.Rest()), 4, 0);
            && input.Rest() == rest
            && code == if value.Some? then value.value else -1
  {
    code := 0;
    for i := 0 to 4
      invariant input.Valid() && code >= 0
      invariant QuadHex(input.Rest(), 4 - i, code) == QuadHex(old(input.Rest()), 4, 0)
    {
      ghost var before := input.Rest();
      var hex := input.Getc();
      if hex == -1 {
        return -1;
      }
      if '0' as int <= hex <= '9' as int {
        hex := hex - '0' as int;
      } else if 'A' as int <= hex <= 'F' as int {
        hex := hex - ('A' as int - 0xA);
      } else if 'a' as int <= hex <= 'f' as int {
        hex := hex - ('a' as int - 0xA);
      } else {
        input.Ungetc();
        assert input.Rest() == before;
        return -1;
      }
      code := code * 16 + hex;
    }
  }

  /** The branches at the end of `_parse_codepoint`, which push a code point's bytes. */
  method PushUtf8(out: string, u: nat) returns (out': string)
    requires u < 0x110000
    ensures out' == out + Utf8(u)
  {
    out' := out;
    if u < 0x80 {
      out' := out' + [u as char];
    } else {
      if u < 0x800 {
        out' := out' + [(0xC0 + u / 0x40) as char];
      } else {
        if u < 0x10000 {
          out' := out' + [(0xE0 + u / 0x1000) as char];
        } else {
          out' := out' + [(0xF0 + u / 0x40000) as char];
          out' := out' + [(0x80 + u / 0x1000 % 0x40) as char];
        }
        out' := out' + [(0x80 + u / 0x40 % 0x40) as char];
      }
      out' := out' + [(0x80 + u % 0x40) as char];
    }
  }

  /** The test for the `\\u` that must follow the first half of a surrogate pair. */
  method MatchPairStart(input: Input) returns (ok: bool)
    requires input.Valid()
    modifies input
    ensures input.Valid()
    ensures var s := old(input.Rest());
            if s == "" || s[0] != '\\' then !ok && input.Rest() == s
            else if s[1..] == "" || s[1] != 'u' then !ok && input.Rest() == s[1..]
            else ok && input.Rest() == s[2..]
  {
    var ch := input.Getc();
    ok := ch == '\\' as int;
    if ok {
      ch := input.Getc();
      ok := ch == 'u' as int;
    }
    if !ok {
      input.Ungetc();
    }
  }

  /** `_parse_codepoint`, returning the bytes it pushes. */
  method ParseCodepoint(input: Input) returns (ok: bool, bytes: string)
    requires input.Valid()
    modifies input
    ensures input.Valid()
    ensures Outcome(Accept(ok), bytes, input.Rest()) == CodePoint(old(input.Rest()))
  {
    hide QuadHex, Utf8;
    bytes := "";
    QuadHexBound(input.Rest(), 4, 0, 1);
    var code := ParseQuadhex(input);
    if code == -1 {
      return false, bytes;
    }
    if 0xD800 <= code <= 0xDFFF {
      if 0xDC00 <= code {
        return false, bytes;
      }
      var paired := MatchPairStart(input);
      if !paired {
        return false, bytes;
      }
      var second := ParseQuadhex(input);
      if !(0xDC00 <= second <= 0xDFFF) {
        return false, bytes;
      }
      code := (code - 0xD800) * 0x400 + (second - 0xDC00);
      code := code + 0x10000;
    }
    bytes := PushUtf8(bytes, code);
    assert "" + Utf8(code) == Utf8(code);
    ok := true;
  }

  /** What a backslash and this character stand for, given what comes after them. */
  function Escape(ch: char, rest: string): Parsed<string> {
    if SimpleEscape(ch).Some? then Ok([SimpleEscape(ch).value], rest)
    else if ch == 'u' then CodePoint(rest)
    else Fail(rest)
  }

  lemma StringStep(s: string)
    ensures s == "" || s[0] < ' ' ==> ParseString(s) == Fail(s)
    ensures s != "" && s[0] == '"' ==> ParseString(s) == Ok("", s[1..])
    ensures s == "\\" ==> ParseString(s) == Fail("")
    ensures s != "" && s[0] >= ' ' && s[0] != '"' && s[0] != '\\' ==>
              ParseString(s) == Prepend([s[0]], ParseString(s[1..]))
    ensures |s| > 1 && s[0] == '\\' ==>
              !Escape(s[1], s[2..]).Throws? && |Escape(s[1], s[2..]).rest| <= |s[2..]|
              && ParseString(s) == if Escape(s[1], s[2..]).Ok?
                                   then Prepend(Escape(s[1], s[2..]).value, ParseString(Escape(s[1], s[2..]).rest))
                                   else Escape(s[1], s[2..])
  {
    hide CodePoint, SimpleEscape;
  }

  lemma PrependToFailure(out: string, r: Parsed<string>)
    ensures !r.Ok? ==> Prepend(out, r) == r
    ensures r.Ok? && r.value == "" ==> Prepend(out, r) == Ok(out, r.rest)
  {
    assert out + "" == out;
  }

  /** The `switch` on the character after a backslash. */
  method ParseEscape(ch: char, input: Input) returns (ok: bool, more: string)
    requires input.Valid()
    modifies input
    ensures input.Valid()
    ensures Outcome(Accept(ok), more, input.Rest())
         == Escape(ch, old(input.Rest()))
  {
    match ch {
      case '"' => return true, "\"";
      case '\\' => return true, "\\";
      case '/' => return true, "/";
      case 'b' => return true, "\U{8}";
      case 'f' => return true, "\U{C}";
      case 'n' => return true, "\n";
      case 'r' => return true, "\r";
      case 't' => return true, "\t";
      case 'u' =>
        ok, more := ParseCodepoint(input);
      case _ =>
        return false, "";
    }
  }

  /** `_parse_string`. */
  method ParseStringText(input: Input) returns (ok: bool, out: string)
    requires input.Valid()
    modifies input
    ensures input.Valid()
    ensures Outcome(Accept(ok), out, input.Rest()) == ParseString(old(input.Rest()))
  {
    hide ParseString, Escape, Prepend;
    out := "";
    PrependNothing(ParseString(input.Rest()));
    while true
      invariant input.Valid()
      invariant Prepend(out, ParseString(input.Rest())) == ParseString(old(input.Rest()))
      decreases |input.Rest()|
    {
      ghost var s := input.Rest();
      StringStep(s);
      PrependToFailure(out, ParseString(s));
      var ch := input.Getc();
      if ch < ' ' as int {
        input.Ungetc();
        assert input.Rest() == s;
        return false, out;
      } else if ch == '"' as int {
        return true, out;
      } else if ch == '\\' as int {
        ch := input.Getc();
        if ch == -1 {
          return false, out;
        }
        var more;
        ok, more := ParseEscape(ch as char, input);
        if !ok {
          return false, out;
        }
        PrependTwice(out, more, ParseString(input.Rest()));
        out := out + more;
      } else {
        PrependTwice(out, [ch as char], ParseString(input.Rest()));
        out := out + [ch as char];
      }
    }
  }

  lemma JoinThree(a: string, b: string, c: string)
    ensures a + (b + c) == a + b + c
  {
  }

  lemma NumberSpanStep(text: string, s: string)
    ensures s == "" || !IsNumberChar(s[0]) ==> text + NumberSpan(s).0 == text && NumberSpan(s).1 == s
    ensures s != "" && IsNumberChar(s[0]) ==>
              && text + NumberSpan(s).0 == text + [s[0]] + NumberSpan(s[1..]).0
              && NumberSpan(s).1 == NumberSpan(s[1..]).1
  {
    var (a, b) := NumberSpan(s);
    if s == "" || !IsNumberChar(s[0]) {
      assert a == "" && b == s;
      hide NumberSpan;
      assert text + "" == text;
    } else {
      var (c, d) := NumberSpan(s[1..]);
      assert a == [s[0]] + c && b == d;
      hide NumberSpan;
      JoinThree(text, [s[0]], c);
    }
  }

  /** `_parse_number`. */
  method ParseNumberText(input: Input) returns (text: string)
    requires input.Valid()
    modifies input
    ensures input.Valid() && (text, input.Rest()) == NumberSpan(old(input.Rest()))
  {
    hide NumberSpan;
    text := "";
    assert text + NumberSpan(input.Rest()).0 == NumberSpan(input.Rest()).0;
    while true
      invariant input.Valid()
      invariant text + NumberSpan(input.Rest()).0 == NumberSpan(old(input.Rest())).0
      invariant NumberSpan(input.Rest()).1 == NumberSpan(old(input.Rest())).1
      decreases |input.Rest()|
    {
      ghost var s := input.Rest();
      NumberSpanStep(text, s);
      var ch := input.Getc();
      if ch != -1 && IsNumberChar(ch as char) {
        text := text + [ch as char];
      } else {
        input.Ungetc();
        assert input.Rest() == s;
        return;
      }
    }
  }

  // ----- Values, built by `default_parse_context` -----

  method ParseNumberInto(input: Input) returns (status: Status, out: Value)
    requires input.Valid() && input.Rest() != "" && StartsNumber(input.Rest()[0])
    modifies input
    ensures input.Valid()
    ensures Outcome(status, out, input.Rest()) == ParseNumber(old(input.Rest()))
  {
    hide ParseInt, ParseDouble, Overflows;
    var text := ParseNumberText(input);
    out := Null;
    var n := ParseInt(text);
    if n.Some? {
      return Accepted, Int(n.value);
    }
    var d := ParseDouble(text);
    if d.None? {
      return Rejected, out;
    }
    if Overflows(d.value) {
      return Threw, out;
    }
    return Accepted, Double(text);
  }

  /** `_parse`. */
  method ParseInto(input: Input) returns (status: Status, out: Value)
    requires input.Valid()
    modifies input
    ensures input.Valid()
    ensures Outcome(status, out, input.Rest()) == ParseValue(old(input.Rest()))
    decreases |input.Rest()|, 0
  {
    hide ParseArray, ParseObject, ParseString, ParseNumber, Match;
    input.SkipWs();
    ghost var t := input.Rest();
    var ch := input.Getc();
    if ch == 'n' as int {
      var ok := input.MatchText("ull");
      return Accept(ok), Null;
    } else if ch == 'f' as int {
      var ok := input.MatchText("alse");
      return Accept(ok), Bool(false);
    } else if ch == 't' as int {
      var ok := input.MatchText("rue");
      return Accept(ok), Bool(true);
    } else if ch == '"' as int {
      var ok, s := ParseStringText(input);
      return Accept(ok), Str(s);
    } else if ch == '[' as int {
      status, out := ParseArrayInto(input);
    } else if ch == '{' as int {
      status, out := ParseObjectInto(input);
    } else {
      input.Ungetc();
      assert input.Rest() == t;
      if ch != -1 && StartsNumber(ch as char) {
        status, out := ParseNumberInto(input);
      } else {
        return Rejected, Null;
      }
    }
  }

  /** `_parse_array`. */
  method ParseArrayInto(input: Input) returns (status: Status, out: Value)
    requires input.Valid()
    modifies input
    ensures input.Valid()
    ensures Outcome(status, out, input.Rest()) == ParseArray(old(input.Rest()))
    decreases |input.Rest()|, 2
  {
    hide ParseValue, Expect;
    var items: seq<Value> := [];
    var closed := input.ExpectChar(']');
    if closed {
      return Accepted, Arr([]);
    }
    ghost var start := input.Rest();
    var more := true;
    while more
      invariant input.Valid() && |input.Rest()| <= |start|
      invariant more ==> ParseItems(input.Rest(), items) == ParseItems(start, [])
      invariant !more ==> ParseItems(start, []) == Close(input.Rest(), ']', items)
      decreases more, |input.Rest()|
    {
      var item;
      status, item := ParseInto(input);
      if status != Accepted {
        return status, Arr(items);
      }
      items := items + [item];
      more := input.ExpectChar(',');
    }
    var end := input.ExpectChar(']');
    return Accept(end), Arr(items);
  }

  method ParseKeyText(input: Input) returns (ok: bool, key: string)
    requires input.Valid()
    modifies input
    ensures input.Valid()
    ensures Outcome(Accept(ok), key, input.Rest()) == ParseKey(old(input.Rest()))
  {
    hide ParseString, Expect;
    key := "";
    ok := input.ExpectChar('"');
    if ok {
      ok, key := ParseStringText(input);
      if ok {
        ok := input.ExpectChar(':');
      }
    }
  }

  /** `_parse_object`. */
  method ParseObjectInto(input: Input) returns (status: Status, out: Value)
    requires input.Valid()
    modifies input
    ensures input.Valid()
    ensures Outcome(status, out, input.Rest()) == ParseObject(old(input.Rest()))
    decreases |input.Rest()|, 2
  {
    hide ParseValue, Expect, ParseKey;
    var fields: seq<Entry<Value>> := [];
    var closed := input.ExpectChar('}');
    if closed {
      return Accepted, Obj([]);
    }
    ghost var start := input.Rest();
    var more := true;
    while more
      invariant input.Valid() && |input.Rest()| <= |start|
      invariant more ==> ParseFields(input.Rest(), fields) == ParseFields(start, [])
      invariant !more ==> ParseFields(start, []) == Close(input.Rest(), '}', fields)
      decreases more, |input.Rest()|
    {
      var ok, key := ParseKeyText(input);
      if !ok {
        return Rejected, Obj(fields);
      }
      var value;
      status, value := ParseInto(input);
      if status != Accepted {
        return status, Obj(fields);
      }
      fields := Put(fields, key, value);
      more := input.ExpectChar(',');
    }
    var end := input.ExpectChar('}');
    return Accept(end), Obj(fields);
  }

  // ----- `null_parse_context` -----

  method RecogniseFrom(input: Input) returns (ok: bool)
    requires input.Valid()
    modifies input
    ensures input.Valid()
    ensures Outcome(Accept(ok), (), input.Rest()) == Recognise(old(input.Rest()))
    decreases |input.Rest()|, 0
  {
    hide RecogniseArray, RecogniseObject, ParseString, Match, ParseInt, ParseDouble;
    input.SkipWs();
    ghost var t := input.Rest();
    var ch := input.Getc();
    if ch == 'n' as int {
      ok := input.MatchText("ull");
    } else if ch == 'f' as int {
      ok := input.MatchText("alse");
    } else if ch == 't' as int {
      ok := input.MatchText("rue");
    } else if ch == '"' as int {
      var dummy;
      ok, dummy := ParseStringText(input);
    } else if ch == '[' as int {
      ok := RecogniseArrayFrom(input);
    } else if ch == '{' as int {
      ok := RecogniseObjectFrom(input);
    } else {
      input.Ungetc();
      assert input.Rest() == t;
      if ch != -1 && StartsNumber(ch as char) {
        var text := ParseNumberText(input);
        ok := ParseInt(text).Some? || ParseDouble(text).Some?;
      } else {
        return false;
      }
    }
  }

  method RecogniseArrayFrom(input: Input) returns (ok: bool)
    requires input.Valid()
    modifies input
    ensures input.Valid()
    ensures Outcome(Accept(ok), (), input.Rest()) == RecogniseArray(old(input.Rest()))
    decreases |input.Rest()|, 2
  {
    hide Recognise, Expect;
    var closed := input.ExpectChar(']');
    if closed {
      return true;
    }
    ghost var start := input.Rest();
    var more := true;
    while more
      invariant input.Valid() && |input.Rest()| <= |start|
      invariant more ==> RecogniseItems(input.Rest()) == RecogniseItems(start)
      invariant !more ==> RecogniseItems(start) == Close(input.Rest(), ']', ())
      decreases more, |input.Rest()|
    {
      ok := RecogniseFrom(input);
      if !ok {
        return;
      }
      more := input.ExpectChar(',');
    }
    ok := input.ExpectChar(']');
  }

  method RecogniseObjectFrom(input: Input) returns (ok: bool)
    requires input.Valid()
    modifies input
    ensures input.Valid()
    ensures Outcome(Accept(ok), (), input.Rest()) == RecogniseObject(old(input.Rest()))
    decreases |input.Rest()|, 2
  {
    hide Recognise, Expect, ParseKey;
    var closed := input.ExpectChar('}');
    if closed {
      return true;
    }
    ghost var start := input.Rest();
    var more := true;
    while more
      invariant input.Valid() && |input.Rest()| <= |start|
      invariant more ==> RecogniseFields(input.Rest()) == RecogniseFields(start)
      invariant !more ==> RecogniseFields(start) == Close(input.Rest(), '}', ())
      decreases more, |input.Rest()|
    {
      var key;
      ok, key := ParseKeyText(input);
      if !ok {
        return;
      }
      ok := RecogniseFrom(input);
      if !ok {
        return;
      }
      more := input.ExpectChar(',');
    }
    ok := input.ExpectChar('}');
  }

  /** What an error message shows of the rest of the line: no control characters. */
  function Near(rest: string): string {
    if rest == "" || rest[0] == '\n' then ""
    else (if rest[0] >= ' ' then [rest[0]] else "") + Near(rest[1..])
  }

  function SyntaxError(line: nat, rest: string): string {
    "syntax error at line " + Decimal(line) + " near: " + Near(rest)
  }

  predicate OneLine(line: string) {
    forall i :: 0 <= i < |line| ==> line[i] != '\n'
  }

  lemma {:induction false} NearJoins(a: string, b: string)
    requires OneLine(a)
    ensures Near(a + b) == Near(a) + Near(b)
  {
    if a == "" {
      assert a + b == b && Near(a) == "";
    } else {
      assert (a + b)[1..] == a[1..] + b;
      NearJoins(a[1..], b);
    }
  }

  lemma {:induction false} NearShows(line: string)
    requires forall i :: 0 <= i < |line| ==> line[i] as int >= 32
    ensures Near(line) == line
  {
    if line == "" {
    } else {
      NearShows(line[1..]);
      assert line == [line[0]] + line[1..];
    }
  }

  lemma NearOne(c: char, tail: string)
    ensures c != '\n' ==> Near([c]) == if c as int >= 32 then [c] else ""
    ensures tail == "" || tail[0] == '\n' ==> Near(tail) == ""
  {
    assert [c][1..] == "";
  }

  lemma ControlVanishes(a: string, c: char, b: string, tail: string)
    requires OneLine(a + [c] + b) && c as int < 32 && (tail == "" || tail[0] == '\n')
    ensures Near(a + [c] + b + tail) == Near(a + b + tail)
  {
    var line := a + [c] + b;
    assert OneLine(a) && OneLine(b) && OneLine([c]) by {
      assert forall i :: 0 <= i < |a| ==> line[i] == a[i];
      assert forall i :: 0 <= i < |b| ==> line[|a| + 1 + i] == b[i];
      assert line[|a|] == c;
    }
    NearOne(c, tail);
    hide Near, OneLine;
    NearJoins(a, [c] + (b + tail));
    NearJoins([c], b + tail);
    NearJoins(a, b + tail);
    assert a + [c] + b + tail == a + ([c] + (b + tail)) && a + b + tail == a + (b + tail);
    assert "" + Near(b + tail) == Near(b + tail);
  }

  /**
   The message shows the text up to the next newline, as it is when it has no control
   characters; a control character in it makes no difference.
   */
  lemma MessageShows(n: nat, line: string, tail: string)
    requires OneLine(line) && (tail == "" || tail[0] == '\n')
    ensures (forall i :: 0 <= i < |line| ==> line[i] as int >= 32) ==>
              SyntaxError(n, line + tail) == "syntax error at line " + Decimal(n) + " near: " + line
    ensures forall a, c: char, b :: line == a + [c] + b && c as int < 32 ==>
              SyntaxError(n, line + tail) == SyntaxError(n, a + b + tail)
  {
    NearJoins(line, tail);
    NearOne('x', tail);
    if forall i :: 0 <= i < |line| ==> line[i] as int >= 32 {
      NearShows(line);
    }
    hide Near, Decimal;
    assert Near(line) + "" == Near(line);
    forall a, c: char, b | line == a + [c] + b && c as int < 32
      ensures SyntaxError(n, line + tail) == SyntaxError(n, a + b + tail)
    {
      ControlVanishes(a, c, b, tail);
    }
  }

  /** The line of a cursor: one after a newline, unless that newline is still looked at. */
  predicate LineAfter(line: nat, read: string) {
    || line == 1 + Newlines(read)
    || (read != "" && read[|read| - 1] == '\n' && line == Newlines(read))
  }

  lemma CursorLine(text: string, cur: nat, consumed: bool, line: int)
    requires cur + (if consumed then 1 else 0) <= |text| && line == 1 + Newlines(text[..cur])
    ensures 0 <= line && LineAfter(line, text[..cur + if consumed then 1 else 0])
  {
    if consumed {
      var read := text[..cur + 1];
      assert read[..|read| - 1] == text[..cur] && read[|read| - 1] == text[cur];
    }
  }

  lemma NearStep(err: string, rest: string)
    ensures rest == "" || rest[0] == '\n' ==> err + Near(rest) == err
    ensures rest != "" && rest[0] != '\n' ==>
              err + Near(rest) == (if rest[0] >= ' ' then err + [rest[0]] else err) + Near(rest[1..])
  {
    if rest != "" && rest[0] != '\n' {
      var shown := if rest[0] >= ' ' then [rest[0]] else "";
      assert Near(rest) == shown + Near(rest[1..]);
      hide Near;
      JoinThree(err, shown, Near(rest[1..]));
      assert err + "" == err;
    } else {
      assert err + "" == err;
    }
  }

  /** The line of a syntax error, and what is read of the rest of the line. */
  method ErrorText(input: Input) returns (err: string, ghost line: nat)
    requires input.Valid()
    modifies input
    ensures LineAfter(line, old(input.text[..input.Position()]))
    ensures err == SyntaxError(line, old(input.Rest()))
  {
    CursorLine(input.text, input.cur, input.consumed, input.line);
    hide Near, LineAfter, Newlines;
    line := input.line;
    err := "syntax error at line ";
    err := err + Decimal(input.line);
    err := err + " near: ";
    ghost var start := err;
    while true
      invariant input.Valid()
      invariant err + Near(input.Rest()) == start + Near(old(input.Rest()))
      decreases |input.Rest()|
    {
      NearStep(err, input.Rest());
      var ch := input.Getc();
      if ch == -1 || ch == '\n' as int {
        break;
      } else if ch >= ' ' as int {
        err := err + [ch as char];
      }
    }
  }

  /** What `parse` did with a text, given its error message. */
  ghost predicate DocumentOutcome(s: string, status: Status, out: Value, err: string) {
    match ParseValue(s)
    case Ok(v, _) => status == Accepted && out == v && err == ""
    case Fail(rest) =>
      status == Rejected && |rest| <= |s|
      && exists line :: LineAfter(line, s[..|s| - |rest|]) && err == SyntaxError(line, rest)
    case Throws => status == Threw
  }

  /**
   `parse(value&, const std::string&)`: no message when a value was read, whatever follows
   it; otherwise the line where reading stopped and what is left of it.
   */
  method ParseDocument(s: string) returns (status: Status, out: Value, err: string)
    ensures DocumentOutcome(s, status, out, err)
    ensures status != Threw ==> (err == "" <==> status == Accepted)
  {
    hide ParseValue, Near, LineAfter;
    var input := new Input(s);
    status, out := ParseInto(input);
    err := "";
    if status == Rejected {
      ghost var line;
      assert input.Rest() == s[input.Position()..];
      err, line := ErrorText(input);
    }
  }
}
