/** Responses: the buffers a response is sent as, and how the proxy reads one. */
module HttpResponse {
  import opened Basics
  import opened OrderedMap
  import opened HttpData

  /** The value of a response's fields; a code that is no enumerator may be cast to one. */
  datatype Reply = Reply(code: nat, headers: map<string, string>, body: string)

  // ----- Status lines -----

  function Status(version: string, digits: string, reason: string): string {
    "HTTP/" + version + " " + digits + " " + reason + "\r\n"
  }

  function StatusString(code: nat): string {
    match code
    case 200 => Status("1.1", "200", "OK")
    case 201 => Status("1.0", "201", "Created")
    case 202 => Status("1.0", "202", "Accepted")
    case 204 => Status("1.0", "204", "No Content")
    case 300 => Status("1.0", "300", "Multiple Choices")
    case 301 => Status("1.0", "301", "Moved Permanently")
    case 302 => Status("1.0", "302", "Moved Temporarily")
    case 304 => Status("1.0", "304", "Not Modified")
    case 400 => Status("1.1", "400", "Bad Request")
    case 401 => Status("1.0", "401", "Unauthorized")
    case 403 => Status("1.0", "403", "Forbidden")
    case 404 => Status("1.0", "404", "Not Found")
    case 500 => Status("1.0", "500", "Internal Server Error")
    case 501 => Status("1.0", "501", "Not Implemented")
    case 502 => Status("1.0", "502", "Bad Gateway")
    case 503 => Status("1.0", "503", "Service Unavailable")
    case _ => Status("1.0", "500", "Internal Server Error")
  }

  const CODES: set<nat> := {200, 201, 202, 204, 300, 301, 302, 304, 400, 401, 403, 404, 500, 501, 502, 503}

  // ----- The buffers of a response -----

  const SEPARATOR := ": "
  const CRLF := "\r\n"

  function HeaderBuffers(es: seq<Entry<string>>): seq<string> {
    if es == [] then [] else [es[0].key, SEPARATOR, es[0].value, CRLF] + HeaderBuffers(es[1..])
  }

  ghost function Buffers(r: Reply): seq<string> {
    [StatusString(r.code)] + HeaderBuffers(FromMap(r.headers)) + [CRLF, r.body]
  }

  /** What goes out when the buffers are written. */
  function Gather(buffers: seq<string>): string {
    if buffers == [] then "" else buffers[0] + Gather(buffers[1..])
  }

  lemma FirstHeaderBuffers(h: map<string, string>, k: string)
    requires IsFirst(h, k)
    ensures HeaderBuffers(FromMap(h)) == [k, SEPARATOR, h[k], CRLF] + HeaderBuffers(FromMap(h - {k}))
    ensures k in h && |h - {k}| < |h|
  {
    FirstEntry(h, k);
    assert (h - {k}).Keys == h.Keys - {k};
    assert |(h - {k}).Keys| < |h.Keys|;
  }

  lemma NoBuffers()
    ensures HeaderBuffers(FromMap(map[])) == []
  {
  }

  class ResponseGenerator {
    var code: nat
    var headers: map<string, string>
    var body: string

    ghost function Value(): Reply
      reads this
    {
      Reply(code, headers, body)
    }

    constructor () {
      code, headers, body := 0, map[], "";
    }

    /** Everything of the generator is overwritten. */
    method Init(response: Reply)
      modifies this
      ensures Value() == response
    {
      body := response.body;
      code := response.code;
      headers := map[];
      var rest := response.headers;
      while rest != map[]
        invariant rest.Keys <= response.headers.Keys
        invariant forall k :: k in rest ==> rest[k] == response.headers[k]
        invariant forall k :: k in response.headers && k !in rest ==> k in headers && headers[k] == response.headers[k]
        invariant forall k :: k in headers ==> k in response.headers && k !in rest
        invariant code == response.code && body == response.body
        decreases |rest|
      {
        var k := FirstKey(rest);
        headers := headers[k := rest[k]];
        FirstHeaderBuffers(rest, k);
        rest := rest - {k};
      }
      assert headers == response.headers;
    }

    method ToBuffers() returns (buffers: seq<string>)
      ensures buffers == Buffers(Value())
    {
      hide FromMap, HeaderBuffers, StatusString, IsFirst;
      buffers := [];
      buffers := buffers + [StatusString(code)];
      ghost var start := buffers;
      assert start == [StatusString(code)];
      var rest := headers;
      while rest != map[]
        invariant buffers + HeaderBuffers(FromMap(rest)) == start + HeaderBuffers(FromMap(headers))
        decreases |rest|
      {
        var k := FirstKey(rest);
        FirstHeaderBuffers(rest, k);
        ghost var before := buffers;
        assert before + HeaderBuffers(FromMap(rest))
            == before + [k, SEPARATOR, rest[k], CRLF] + HeaderBuffers(FromMap(rest - {k}));
        buffers := buffers + [k];
        buffers := buffers + [SEPARATOR];
        buffers := buffers + [rest[k]];
        buffers := buffers + [CRLF];
        assert buffers == before + [k, SEPARATOR, rest[k], CRLF];
        rest := rest - {k};
      }
      NoBuffers();
      ghost var before := buffers;
      assert before == start + HeaderBuffers(FromMap(headers)) by {
        assert before + [] == before;
      }
      buffers := buffers + [CRLF];
      buffers := buffers + [body];
      assert buffers == before + [CRLF, body];
    }
  }

  // ----- Reading a response -----

  predicate NoSpace(s: string) {
    forall i :: 0 <= i < |s| ==> !IsSpace(s[i])
  }

  predicate NoNewline(s: string) {
    forall i :: 0 <= i < |s| ==> s[i] != '\n'
  }

  predicate NoColon(s: string) {
    forall i :: 0 <= i < |s| ==> s[i] != ':'
  }

  /** The characters before the next white space: what `>>` reads into a string. */
  function Word(s: string): (w: string)
    ensures w <= s && NoSpace(w)
    ensures |w| < |s| ==> IsSpace(s[|w|])
  {
    if s == "" || IsSpace(s[0]) then "" else [s[0]] + Word(s[1..])
  }

  /** The characters before the next newline. */
  function LineOf(s: string): (l: string)
    ensures l <= s && NoNewline(l)
    ensures |l| < |s| ==> s[|l|] == '\n'
  {
    if s == "" || s[0] == '\n' then "" else [s[0]] + LineOf(s[1..])
  }

  /** What `std::getline` leaves. */
  function AfterLine(s: string): (rest: string)
    ensures s != "" ==> |rest| < |s|
  {
    if |LineOf(s)| < |s| then s[|LineOf(s)| + 1..] else ""
  }

  /** `find(":")`. */
  function BeforeColon(s: string): (r: string)
    ensures r <= s && NoColon(r)
    ensures |r| < |s| ==> s[|r|] == ':'
  {
    if s == "" || s[0] == ':' then "" else [s[0]] + BeforeColon(s[1..])
  }

  const UINT_MAX: int := 0xFFFF_FFFF

  /** What `>>` reads into an `unsigned int`, and what it leaves; a minus sign wraps around. */
  function ReadUnsigned(s: string): Option<(nat, string)> {
    var t := SkipSpace(s);
    var signed := t != "" && (t[0] == '-' || t[0] == '+');
    var u := if signed then t[1..] else t;
    var digits := DigitPrefix(u);
    if digits == "" || DecimalValue(digits) > UINT_MAX then None
    else
      var n := DecimalValue(digits);
      Some((if signed && t[0] == '-' && n > 0 then UINT_MAX + 1 - n else n, u[|digits|..]))
  }

  datatype Head = Head(version: string, code: nat, rest: string)

  /** The status line; `None` when the stream fails. */
  function ReadStatus(s: string): Option<Head> {
    var t := SkipSpace(s);
    var version := Word(t);
    if version == "" then None
    else
      match ReadUnsigned(t[|version|..])
      case None => None
      case Some((code, u)) => if u == "" then None else Some(Head(version, code, AfterLine(u)))
  }

  /** `parse_header`; taking the last character off an empty value is undefined. */
  datatype HeaderLine = NotHeader | Throws | Undefined | Header(name: string, value: string)

  function ParseHeaderLine(line: string): HeaderLine {
    var name := BeforeColon(line);
    if |name| == |line| then NotHeader
    else if |name| + 2 > |line| then Throws
    else
      var value := line[|name| + 2..];
      if value == "" then Undefined else Header(name, value[..|value| - 1])
  }

  datatype Reading = Read(headers: map<string, string>, rest: string) | Failed(line: HeaderLine)

  /** The loop that reads header lines up to an empty one. */
  function ReadHeaders(s: string, headers: map<string, string>): Reading
    decreases |s|
  {
    if s == "" then Read(headers, "")
    else
      var line := LineOf(s);
      if line == "\r" then Read(headers, AfterLine(s))
      else
        match ParseHeaderLine(line)
        case Header(name, value) => ReadHeaders(AfterLine(s), headers[name := value])
        case failure => Failed(failure)
  }

  /** What the proxy makes of a response. */
  datatype Answer =
    | Stock(code: nat)
    | Relayed(code: nat, headers: map<string, string>, rest: string)
    | Broken(line: HeaderLine)

  predicate HttpVersion(version: string) {
    "HTTP/" <= version
  }

  const RELAYED: set<nat> := {200, 301, 302}

  /**
   A stock answer unless the status line can be read and its code is relayed; a header line
   without a colon makes it a stock answer as well.
   */
  function ReadAnswer(s: string, headers: map<string, string>): Answer {
    match ReadStatus(s)
    case None => Stock(500)
    case Some(Head(version, code, rest)) =>
      if !HttpVersion(version) then Stock(500)
      else if code !in RELAYED then Stock(code)
      else
        match ReadHeaders(rest, headers)
        case Read(all, body) => Relayed(code, all, body)
        case Failed(line) => if line.NotHeader? then Stock(500) else Broken(line)
  }

  class Response {
    var code: nat
    var headers: map<string, string>
    var body: string

    constructor ()
      ensures headers == map[]
    {
      code, headers, body := 0, map[], "";
    }

    /** Stores the header of one line, if it is a header. */
    method ParseHeader(header: string) returns (parsed: HeaderLine)
      modifies this`headers
      ensures parsed == ParseHeaderLine(header)
      ensures headers == if parsed.Header? then old(headers)[parsed.name := parsed.value] else old(headers)
    {
      if |BeforeColon(header)| == |header| {
        return NotHeader;
      }
      var pos := |BeforeColon(header)|;
      var head := header[..pos];
      if pos + 2 > |header| {
        return Throws;
      }
      var value := header[pos + 2..];
      if value == "" {
        return Undefined;
      }
      value := value[..|value| - 1];
      headers := headers[head := value];
      return Header(head, value);
    }

    /** The header-reading loop over the bytes of the stream. */
    method ReadHeaderLines(stream: string) returns (reading: Reading)
      modifies this`headers
      ensures reading == ReadHeaders(stream, old(headers))
      ensures reading.Read? ==> headers == reading.headers
    {
      hide ParseHeaderLine, LineOf, AfterLine;
      var rest := stream;
      while rest != ""
        invariant ReadHeaders(rest, headers) == ReadHeaders(stream, old(headers))
        decreases |rest|
      {
        var header := LineOf(rest);
        var after := AfterLine(rest);
        if header == "\r" {
          return Read(headers, after);
        }
        var parsed := ParseHeader(header);
        if !parsed.Header? {
          return Failed(parsed);
        }
        rest := after;
      }
      return Read(headers, "");
    }

    /** The status line, and the headers if the code is relayed. */
    method ReadResponse(stream: string) returns (answer: Answer)
      modifies this
      ensures answer == ReadAnswer(stream, old(headers))
      ensures answer.Relayed? ==> code == answer.code && headers == answer.headers
    {
      hide ReadStatus, ReadHeaders;
      var head := ReadStatus(stream);
      if head.None? {
        return Stock(500);
      }
      code := head.value.code;
      if !HttpVersion(head.value.version) {
        return Stock(500);
      } else if code != 200 && code != 301 && code != 302 {
        return Stock(code);
      }
      var reading := ReadHeaderLines(head.value.rest);
      match reading {
        case Read(_, rest) => return Relayed(code, headers, rest);
        case Failed(line) =>
          if line.NotHeader? {
            return Stock(500);
          }
          return Broken(line);
      }
    }
  }

  // ----- Reading what was sent -----

  lemma {:induction false} WordIs(w: string, c: char, rest: string)
    requires NoSpace(w) && IsSpace(c)
    ensures Word(w + [c] + rest) == w
  {
    var s := w + [c] + rest;
    if w == "" {
    } else {
      WordIs(w[1..], c, rest);
      assert s[1..] == w[1..] + [c] + rest;
      assert w == [w[0]] + w[1..];
    }
  }

  lemma {:induction false} LineIs(l: string, rest: string)
    requires NoNewline(l)
    ensures LineOf(l + "\n" + rest) == l && AfterLine(l + "\n" + rest) == rest
  {
    var s := l + "\n" + rest;
    if l == "" {
    } else {
      LineIs(l[1..], rest);
      assert s[1..] == l[1..] + "\n" + rest;
      assert l == [l[0]] + l[1..];
    }
    assert s[|l| + 1..] == rest;
  }

  lemma {:induction false} ColonIs(name: string, rest: string)
    requires NoColon(name)
    ensures BeforeColon(name + ":" + rest) == name
  {
    var s := name + ":" + rest;
    if name == "" {
    } else {
      ColonIs(name[1..], rest);
      assert s[1..] == name[1..] + ":" + rest;
      assert name == [name[0]] + name[1..];
    }
  }

  lemma {:induction false} DigitsAre(d: string, c: char, rest: string)
    requires AllDigits(d) && !IsDigit(c)
    ensures DigitPrefix(d + [c] + rest) == d
  {
    var s := d + [c] + rest;
    if d == "" {
    } else {
      DigitsAre(d[1..], c, rest);
      assert s[1..] == d[1..] + [c] + rest;
      assert d == [d[0]] + d[1..];
    }
  }

  lemma SkipOneSpace(t: string)
    requires t != "" && !IsSpace(t[0])
    ensures SkipSpace(t) == t && SkipSpace(" " + t) == t
  {
    assert (" " + t)[1..] == t;
  }

  lemma UnsignedIs(s: string, t: string, digits: string)
    requires SkipSpace(s) == t && t != "" && IsDigit(t[0])
    requires DigitPrefix(t) == digits && digits != "" && DecimalValue(digits) <= UINT_MAX
    ensures ReadUnsigned(s) == Some((DecimalValue(digits), t[|digits|..]))
  {
    hide SkipSpace, DigitPrefix, DecimalValue;
  }

  lemma DropFirst(a: string, c: char, b: string)
    ensures (a + [c] + b)[|a|..] == [c] + b
  {
  }

  lemma NumberRead(digits: string, c: char, rest: string)
    requires digits != "" && AllDigits(digits) && !IsDigit(c) && DecimalValue(digits) <= UINT_MAX
    ensures ReadUnsigned(" " + (digits + [c] + rest)) == Some((DecimalValue(digits), [c] + rest))
  {
    var t := digits + [c] + rest;
    assert t[0] == digits[0] && !IsSpace(t[0]) && IsDigit(t[0]);
    hide *;
    SkipOneSpace(t);
    DigitsAre(digits, c, rest);
    UnsignedIs(" " + t, t, digits);
    DropFirst(digits, c, rest);
  }

  lemma ReadStatusIs(s: string, word: string, number: nat, u: string)
    requires SkipSpace(s) == s && Word(s) == word && word != "" && u != ""
    requires ReadUnsigned(s[|word|..]) == Some((number, u))
    ensures ReadStatus(s) == Some(Head(word, number, AfterLine(u)))
  {
    hide SkipSpace, Word, ReadUnsigned, AfterLine;
  }

  lemma StatusParts(version: string, digits: string, reason: string, rest: string)
    requires NoSpace(version)
    ensures var s := Status(version, digits, reason) + rest;
            && s == ("HTTP/" + version) + [' '] + (digits + " " + reason + "\r\n" + rest)
            && s[|"HTTP/" + version|..] == " " + (digits + [' '] + (reason + "\r\n" + rest))
  {
  }

  lemma StatusStart(version: string, digits: string, reason: string, rest: string)
    requires NoSpace(version)
    ensures SkipSpace(Status(version, digits, reason) + rest) == Status(version, digits, reason) + rest
    ensures NoSpace("HTTP/" + version)
  {
    var s := Status(version, digits, reason) + rest;
    assert s[0] == 'H';
  }

  lemma ReasonRead(reason: string, rest: string)
    requires NoNewline(reason)
    ensures AfterLine([' '] + (reason + "\r\n" + rest)) == rest
  {
    assert NoNewline(" " + reason + "\r");
    hide LineOf, AfterLine;
    LineIs(" " + reason + "\r", rest);
    assert [' '] + (reason + "\r\n" + rest) == " " + reason + "\r" + "\n" + rest;
  }

  lemma StatusRead(version: string, digits: string, reason: string, rest: string)
    requires NoSpace(version) && digits != "" && AllDigits(digits) && DecimalValue(digits) <= UINT_MAX
    requires NoNewline(reason)
    ensures ReadStatus(Status(version, digits, reason) + rest)
         == Some(Head("HTTP/" + version, DecimalValue(digits), rest))
  {
    assert IsSpace(' ') && !IsDigit(' ');
    hide *;
    var s, word, tail := Status(version, digits, reason) + rest, "HTTP/" + version, reason + "\r\n" + rest;
    StatusParts(version, digits, reason, rest);
    StatusStart(version, digits, reason, rest);
    WordIs(word, ' ', digits + " " + reason + "\r\n" + rest);
    NumberRead(digits, ' ', tail);
    ReadStatusIs(s, word, DecimalValue(digits), [' '] + tail);
    ReasonRead(reason, rest);
  }

  lemma ThreeDigits(a: char, b: char, c: char)
    requires IsDigit(a) && IsDigit(b) && IsDigit(c)
    ensures DecimalValue([a, b, c])
         == (a as int - '0' as int) * 100 + (b as int - '0' as int) * 10 + (c as int - '0' as int)
  {
    assert [a, b, c][..2] == [a, b] && [a, b][..1] == [a] && [a][..0] == "";
    assert DecimalValue([a]) == a as int - '0' as int;
    assert DecimalValue([a, b]) == DecimalValue([a]) * 10 + (b as int - '0' as int);
  }

  /** The code that a response shows. */
  function ShownCode(code: nat): nat {
    if code in CODES then code else 500
  }

  predicate ReadsAs(s: string, rest: string, code: nat) {
    var head := ReadStatus(s + rest);
    && head.Some? && head.value.code == code && head.value.rest == rest
    && head.value.version in {"HTTP/1.0", "HTTP/1.1"}
  }

  lemma OneStatus(minor: char, a: char, b: char, c: char, reason: string, rest: string)
    requires NoNewline(reason) && IsDigit(a) && IsDigit(b) && IsDigit(c) && (minor == '0' || minor == '1')
    ensures ReadsAs(Status("1." + [minor], [a, b, c], reason), rest,
                    (a as int - '0' as int) * 100 + (b as int - '0' as int) * 10 + (c as int - '0' as int))
  {
    ThreeDigits(a, b, c);
    assert NoSpace("1." + [minor]);
    assert "HTTP/" + ("1." + [minor]) == "HTTP/1." + [minor];
    assert "HTTP/1.0" == "HTTP/1." + ['0'] && "HTTP/1.1" == "HTTP/1." + ['1'];
    hide ReadStatus, Status, DecimalValue, NoSpace, NoNewline;
    StatusRead("1." + [minor], [a, b, c], reason, rest);
  }

  lemma Success2xx(rest: string)
    ensures ReadsAs(StatusString(200), rest, 200) && ReadsAs(StatusString(201), rest, 201)
    ensures ReadsAs(StatusString(202), rest, 202) && ReadsAs(StatusString(204), rest, 204)
  {
    hide Status, ReadsAs;
    assert "1." + ['0'] == "1.0" && "1." + ['1'] == "1.1";
    OneStatus('1', '2', '0', '0', "OK", rest);
    OneStatus('0', '2', '0', '1', "Created", rest);
    OneStatus('0', '2', '0', '2', "Accepted", rest);
    OneStatus('0', '2', '0', '4', "No Content", rest);
  }

  lemma Redirect3xx(rest: string)
    ensures ReadsAs(StatusString(300), rest, 300) && ReadsAs(StatusString(301), rest, 301)
    ensures ReadsAs(StatusString(302), rest, 302) && ReadsAs(StatusString(304), rest, 304)
  {
    hide Status, ReadsAs;
    assert "1." + ['0'] == "1.0";
    OneStatus('0', '3', '0', '0', "Multiple Choices", rest);
    OneStatus('0', '3', '0', '1', "Moved Permanently", rest);
    OneStatus('0', '3', '0', '2', "Moved Temporarily", rest);
    OneStatus('0', '3', '0', '4', "Not Modified", rest);
  }

  lemma Client4xx(rest: string)
    ensures ReadsAs(StatusString(400), rest, 400) && ReadsAs(StatusString(401), rest, 401)
    ensures ReadsAs(StatusString(403), rest, 403) && ReadsAs(StatusString(404), rest, 404)
  {
    hide Status, ReadsAs;
    assert "1." + ['0'] == "1.0" && "1." + ['1'] == "1.1";
    OneStatus('1', '4', '0', '0', "Bad Request", rest);
    OneStatus('0', '4', '0', '1', "Unauthorized", rest);
    OneStatus('0', '4', '0', '3', "Forbidden", rest);
    OneStatus('0', '4', '0', '4', "Not Found", rest);
  }

  lemma Server5xx(rest: string)
    ensures ReadsAs(StatusString(500), rest, 500) && ReadsAs(StatusString(501), rest, 501)
    ensures ReadsAs(StatusString(502), rest, 502) && ReadsAs(StatusString(503), rest, 503)
  {
    hide Status, ReadsAs;
    assert "1." + ['0'] == "1.0";
    OneStatus('0', '5', '0', '0', "Internal Server Error", rest);
    OneStatus('0', '5', '0', '1', "Not Implemented", rest);
    OneStatus('0', '5', '0', '2', "Bad Gateway", rest);
    OneStatus('0', '5', '0', '3', "Service Unavailable", rest);
  }

  lemma OtherStatus(code: nat)
    requires code !in CODES
    ensures StatusString(code) == StatusString(500)
  {
    hide Status;
  }

  /** Every status line is read back as the code it was chosen for, and 500 for any other. */
  lemma StatusRoundTrip(code: nat, rest: string)
    ensures ReadsAs(StatusString(code), rest, ShownCode(code))
  {
    hide StatusString, ReadsAs;
    Success2xx(rest);
    Redirect3xx(rest);
    Client4xx(rest);
    Server5xx(rest);
    if code !in CODES {
      OtherStatus(code);
    }
  }

  // ----- Reading the headers that were sent -----

  function HeaderText(es: seq<Entry<string>>): string {
    if es == [] then "" else es[0].key + ": " + es[0].value + "\r\n" + HeaderText(es[1..])
  }

  lemma {:induction false} GatherConcat(a: seq<string>, b: seq<string>)
    ensures Gather(a + b) == Gather(a) + Gather(b)
  {
    if a == [] {
      assert a + b == b;
    } else {
      assert (a + b)[1..] == a[1..] + b;
      GatherConcat(a[1..], b);
    }
  }

  lemma GatherFour(a: string, b: string, c: string, d: string)
    ensures Gather([a, b, c, d]) == a + b + c + d
  {
    assert [a, b, c, d][1..] == [b, c, d] && [b, c, d][1..] == [c, d] && [c, d][1..] == [d] && [d][1..] == [];
    assert Gather([d]) == d;
    assert Gather([c, d]) == c + d;
    assert Gather([b, c, d]) == b + (c + d);
    assert a + (b + (c + d)) == a + b + c + d;
  }

  lemma {:induction false} GatherHeaders(es: seq<Entry<string>>)
    ensures Gather(HeaderBuffers(es)) == HeaderText(es)
  {
    if es == [] {
    } else {
      GatherHeaders(es[1..]);
      GatherConcat([es[0].key, SEPARATOR, es[0].value, CRLF], HeaderBuffers(es[1..]));
      GatherFour(es[0].key, SEPARATOR, es[0].value, CRLF);
    }
  }

  lemma Regroup(a: string, b: string, c: string)
    ensures (a + "") + b + ("\r\n" + (c + "")) == a + (b + "\r\n" + c)
  {
  }

  lemma GatherBuffers(r: Reply)
    ensures Gather(Buffers(r)) == StatusString(r.code) + (HeaderText(FromMap(r.headers)) + "\r\n" + r.body)
  {
    var status, headers := [StatusString(r.code)], HeaderBuffers(FromMap(r.headers));
    assert Buffers(r) == status + headers + [CRLF, r.body];
    assert status[1..] == [] && [CRLF, r.body][1..] == [r.body] && [r.body][1..] == [];
    assert Gather(status) == StatusString(r.code) + "";
    assert Gather([r.body]) == r.body + "";
    assert Gather([CRLF, r.body]) == CRLF + Gather([r.body]);
    hide StatusString, FromMap, HeaderBuffers, Gather, Buffers;
    GatherConcat(status + headers, [CRLF, r.body]);
    GatherConcat(status, headers);
    GatherHeaders(FromMap(r.headers));
    Regroup(StatusString(r.code), HeaderText(FromMap(r.headers)), r.body);
  }

  /** Names and values that survive being sent. */
  predicate Sendable(h: map<string, string>) {
    forall k :: k in h ==> NoColon(k) && NoNewline(k) && NoNewline(h[k])
  }

  lemma HeaderLineRead(name: string, value: string)
    requires NoColon(name)
    ensures ParseHeaderLine(name + ": " + value + "\r") == Header(name, value)
  {
    var line := name + ": " + value + "\r";
    assert line == name + ":" + (" " + value + "\r");
    ColonIs(name, " " + value + "\r");
    hide BeforeColon;
    assert line[|name| + 2..] == value + "\r";
    assert (value + "\r")[..|value|] == value;
  }

  lemma HeaderStep(name: string, value: string, rest: string, h: map<string, string>)
    requires NoColon(name) && NoNewline(name) && NoNewline(value)
    ensures ReadHeaders(name + ": " + value + "\r\n" + rest, h) == ReadHeaders(rest, h[name := value])
  {
    var line := name + ": " + value + "\r";
    var s := name + ": " + value + "\r\n" + rest;
    assert s == line + "\n" + rest;
    assert |line| > 1 && NoNewline(line);
    HeaderLineRead(name, value);
    hide ParseHeaderLine, LineOf, AfterLine;
    LineIs(line, rest);
  }

  lemma EndStep(body: string, h: map<string, string>)
    ensures ReadHeaders("\r\n" + body, h) == Read(h, body)
  {
    assert "\r\n" + body == "\r" + "\n" + body;
    hide ParseHeaderLine, LineOf, AfterLine;
    LineIs("\r", body);
  }

  predicate SendableEntries(es: seq<Entry<string>>) {
    forall i :: 0 <= i < |es| ==> NoColon(es[i].key) && NoNewline(es[i].key) && NoNewline(es[i].value)
  }

  lemma HeaderTextCons(es: seq<Entry<string>>, body: string)
    requires es != []
    ensures HeaderText(es) + "\r\n" + body
         == es[0].key + ": " + es[0].value + "\r\n" + (HeaderText(es[1..]) + "\r\n" + body)
  {
    var a, b := es[0].key + ": " + es[0].value + "\r\n", HeaderText(es[1..]);
    assert HeaderText(es) == a + b;
    hide HeaderText;
    assert a + b + "\r\n" + body == a + (b + "\r\n" + body);
  }

  lemma EntriesTail(es: seq<Entry<string>>)
    requires Ascending(es) && SendableEntries(es) && es != []
    ensures ToMap(es) == ToMap(es[1..])[es[0].key := es[0].value] && es[0].key !in ToMap(es[1..])
    ensures Ascending(es[1..]) && SendableEntries(es[1..])
    ensures NoColon(es[0].key) && NoNewline(es[0].key) && NoNewline(es[0].value)
  {
    hide NoColon, NoNewline;
    AscendingHead(es);
  }

  lemma {:induction false} HeadersRead(es: seq<Entry<string>>, body: string, h: map<string, string>)
    requires Ascending(es) && SendableEntries(es)
    ensures ReadHeaders(HeaderText(es) + "\r\n" + body, h) == Read(h + ToMap(es), body)
    decreases |es|
  {
    if es == [] {
      assert "" + "\r\n" + body == "\r\n" + body && h + map[] == h;
      hide ReadHeaders;
      EndStep(body, h);
    } else {
      hide *;
      EntriesTail(es);
      HeaderTextCons(es, body);
      HeaderStep(es[0].key, es[0].value, HeaderText(es[1..]) + "\r\n" + body, h);
      HeadersRead(es[1..], body, h[es[0].key := es[0].value]);
      UnionPut(h, ToMap(es[1..]), es[0].key, es[0].value);
    }
  }

  lemma SendableFromMap(h: map<string, string>)
    requires Sendable(h)
    ensures SendableEntries(FromMap(h))
  {
    var es := FromMap(h);
    hide NoColon, NoNewline, FromMap;
    forall i | 0 <= i < |es| ensures es[i].key in h && h[es[i].key] == es[i].value {
      EntryInMap(es, i);
    }
  }

  lemma ParsedIsSendable(line: string)
    requires NoNewline(line) && ParseHeaderLine(line).Header?
    ensures var l := ParseHeaderLine(line);
            NoColon(l.name) && NoNewline(l.name) && NoNewline(l.value)
  {
    hide BeforeColon;
  }

  lemma ReadingEnds(s: string, h: map<string, string>)
    requires s == "" || LineOf(s) == "\r"
    ensures ReadHeaders(s, h).Read? && ReadHeaders(s, h).headers == h
  {
    hide LineOf, AfterLine, ParseHeaderLine;
  }

  lemma ReadingGoesOn(s: string, h: map<string, string>)
    requires s != "" && LineOf(s) != "\r" && ReadHeaders(s, h).Read?
    ensures var parsed := ParseHeaderLine(LineOf(s));
            parsed.Header? && ReadHeaders(s, h) == ReadHeaders(AfterLine(s), h[parsed.name := parsed.value])
  {
    hide LineOf, AfterLine, ParseHeaderLine;
  }

  /** Whatever is read can be sent. */
  lemma {:induction false} ReadIsSendable(s: string, h: map<string, string>)
    requires Sendable(h) && ReadHeaders(s, h).Read?
    ensures Sendable(ReadHeaders(s, h).headers)
    decreases |s|
  {
    hide ParseHeaderLine, LineOf, AfterLine, NoColon, NoNewline, ReadHeaders;
    if s == "" || LineOf(s) == "\r" {
      ReadingEnds(s, h);
    } else {
      var line := LineOf(s);
      var parsed := ParseHeaderLine(line);
      ReadingGoesOn(s, h);
      ParsedIsSendable(line);
      ReadIsSendable(AfterLine(s), h[parsed.name := parsed.value]);
    }
  }

  lemma StatusIsRead(s: string, rest: string, code: nat)
    requires ReadsAs(s, rest, code)
    ensures var head := ReadStatus(s + rest);
            && head.Some? && head.value.code == code && head.value.rest == rest
            && head.value.version in {"HTTP/1.0", "HTTP/1.1"}
  {
  }

  lemma NothingIsSendable()
    ensures Sendable(map[])
  {
  }

  /**
    * Reading what is sent shows the code, or 500 if it has no status line of its own, and
    * gives back exactly the headers and the body if and only if no name has a colon or a
    * newline in it and no value a newline.
    */
  lemma ResponseRoundTrip(r: Reply)
    ensures var head := ReadStatus(Gather(Buffers(r)));
            && head.Some? && head.value.code == ShownCode(r.code)
            && head.value.version in {"HTTP/1.0", "HTTP/1.1"}
            && (ReadHeaders(head.value.rest, map[]) == Read(r.headers, r.body) <==> Sendable(r.headers))
  {
    hide *;
    var rest := HeaderText(FromMap(r.headers)) + "\r\n" + r.body;
    GatherBuffers(r);
    StatusRoundTrip(r.code, rest);
    StatusIsRead(StatusString(r.code), rest, ShownCode(r.code));
    if Sendable(r.headers) {
      SendableFromMap(r.headers);
      HeadersRead(FromMap(r.headers), r.body, map[]);
      assert map[] + r.headers == r.headers;
    }
    if ReadHeaders(rest, map[]) == Read(r.headers, r.body) {
      NothingIsSendable();
      ReadIsSendable(rest, map[]);
    }
  }

  lemma UnsignedIsInteger(s: string)
    requires ReadUnsigned(s).Some?
    ensures Stoi(s) != Failure(InvalidArgument)
  {
    hide SkipSpace, DigitPrefix, DecimalValue;
  }

  lemma DropDigits(digits: string, rest: string)
    ensures (digits + rest)[|digits|..] == rest
  {
  }

  lemma UnsignedReads(gap: string, sign: string, digits: string, rest: string, s: string)
    requires IsInteger(gap, sign, digits, rest, s)
    ensures ReadUnsigned(s) == var n := PlaceValue(digits);
                               if n > 4294967295 then None
                               else Some((if sign == "-" && n > 0 then 4294967296 - n else n, rest))
  {
    IntegerFound(gap, sign, digits, rest, s);
    DecimalIsPlaceValue(digits);
    DropDigits(digits, rest);
    hide SkipSpace, DigitPrefix, DecimalValue, PlaceValue, IsInteger, AllDigits, IsSpace;
  }

  /** What `>>` reads into an `unsigned int`: the same texts as `stoi`, in another range. */
  lemma UnsignedGrammar(s: string)
    ensures forall gap, sign, digits, rest :: IsInteger(gap, sign, digits, rest, s) ==>
              ReadUnsigned(s) == var n := PlaceValue(digits);
                                 if n > 4294967295 then None
                                 else Some((if sign == "-" && n > 0 then 4294967296 - n else n, rest))
    ensures ReadUnsigned(s).Some? ==> exists gap, sign, digits, rest :: IsInteger(gap, sign, digits, rest, s)
  {
    forall gap, sign, digits, rest | IsInteger(gap, sign, digits, rest, s)
      ensures ReadUnsigned(s) == var n := PlaceValue(digits);
                                 if n > 4294967295 then None
                                 else Some((if sign == "-" && n > 0 then 4294967296 - n else n, rest))
    {
      UnsignedReads(gap, sign, digits, rest, s);
    }
    if ReadUnsigned(s).Some? {
      UnsignedIsInteger(s);
      var gap, sign, digits, rest := IntegerSplits(s);
    }
    hide ReadUnsigned, IsInteger, Stoi, PlaceValue;
  }

  lemma LineParses(name: string, rest: string)
    requires NoColon(name)
    ensures ParseHeaderLine(name + ":" + rest)
         == if rest == "" then Throws else if |rest| == 1 then Undefined else Header(name, rest[1..|rest| - 1])
  {
    var line := name + ":" + rest;
    ColonIs(name, rest);
    assert line[..|name|] == name;
    assert rest != "" ==> line[|name| + 2..] == rest[1..];
  }

  lemma Framed(c: char, value: string, d: char)
    ensures var rest := [c] + value + [d]; |rest| > 1 && rest[1..|rest| - 1] == value
  {
  }

  lemma Frame(rest: string)
    requires |rest| > 1
    ensures rest == [rest[0]] + rest[1..|rest| - 1] + [rest[|rest| - 1]]
  {
  }

  ghost predicate EndsAtColon(line: string) {
    exists name :: NoColon(name) && line == name + ":"
  }

  ghost predicate EndsAfterColon(line: string) {
    exists name, c :: NoColon(name) && line == name + ":" + [c]
  }

  ghost predicate IsHeader(line: string, name: string, value: string) {
    NoColon(name) && exists c, d :: line == name + ":" + ([c] + value + [d])
  }

  lemma LineBreaks(line: string)
    ensures EndsAtColon(line) ==> ParseHeaderLine(line) == Throws
    ensures EndsAfterColon(line) ==> ParseHeaderLine(line) == Undefined
  {
    hide ParseHeaderLine, NoColon;
    if EndsAtColon(line) {
      var name :| NoColon(name) && line == name + ":";
      LineParses(name, "");
      assert name + ":" + "" == line;
    }
    if EndsAfterColon(line) {
      var name, c :| NoColon(name) && line == name + ":" + [c];
      LineParses(name, [c]);
    }
  }

  lemma HeaderParses(line: string, name: string, value: string)
    requires IsHeader(line, name, value)
    ensures ParseHeaderLine(line) == Header(name, value)
  {
    hide ParseHeaderLine, NoColon;
    var c, d :| line == name + ":" + ([c] + value + [d]);
    LineParses(name, [c] + value + [d]);
    Framed(c, value, d);
  }

  /** The parts of a line that is what it is. */
  lemma HeaderLineParts(line: string)
    ensures ParseHeaderLine(line) == NotHeader <==> NoColon(line)
    ensures match ParseHeaderLine(line)
            case NotHeader => true
            case Throws => EndsAtColon(line)
            case Undefined => EndsAfterColon(line)
            case Header(name, value) => IsHeader(line, name, value)
  {
    var name := BeforeColon(line);
    if |name| < |line| {
      var rest := line[|name| + 1..];
      assert line == name + ":" + rest && line[|name|] == ':';
      LineParses(name, rest);
      hide ParseHeaderLine, BeforeColon;
      if rest == "" {
        assert line == name + ":";
      } else if |rest| == 1 {
        assert line == name + ":" + [rest[0]];
      } else {
        Frame(rest);
      }
    }
  }

  /**
   What a line is as a header: the character after the first colon and the last one of the
   line are no part of the value, whatever they are.
   */
  lemma HeaderLineGrammar(line: string)
    ensures ParseHeaderLine(line) == NotHeader <==> NoColon(line)
    ensures ParseHeaderLine(line) == Throws <==> EndsAtColon(line)
    ensures ParseHeaderLine(line) == Undefined <==> EndsAfterColon(line)
    ensures forall name, value :: ParseHeaderLine(line) == Header(name, value) <==> IsHeader(line, name, value)
  {
    hide *;
    HeaderLineParts(line);
    LineBreaks(line);
    forall name, value | IsHeader(line, name, value) ensures ParseHeaderLine(line) == Header(name, value) {
      HeaderParses(line, name, value);
    }
  }

  lemma RelayedAre(code: nat)
    ensures code in RELAYED <==> code in {200, 301, 302}
  {
  }

  lemma HeadersDecide(s: string, h: map<string, string>, head: Head)
    requires ReadStatus(s) == Some(head) && HttpVersion(head.version)
    ensures ReadAnswer(s, h) == if head.code !in RELAYED then Stock(head.code)
                                else match ReadHeaders(head.rest, h)
                                     case Read(all, body) => Relayed(head.code, all, body)
                                     case Failed(NotHeader) => Stock(500)
                                     case Failed(line) => Broken(line)
  {
    hide ReadStatus, ReadHeaders, RELAYED, HttpVersion;
  }

  lemma StockWithoutStatus(s: string, h: map<string, string>)
    requires ReadStatus(s).None? || !("HTTP/" <= ReadStatus(s).value.version)
    ensures ReadAnswer(s, h) == Stock(500)
  {
    hide ReadStatus, ReadHeaders;
  }

  /**
   When a response is relayed and when a stock answer takes its place: 500 without a status
   line of HTTP or with a line that is no header, else the code if it is none of three.
   */
  lemma AnswerMeans(s: string, h: map<string, string>)
    ensures var head := ReadStatus(s);
            ReadAnswer(s, h)
            == if head.None? || !("HTTP/" <= head.value.version) then Stock(500)
               else if head.value.code !in {200, 301, 302} then Stock(head.value.code)
               else match ReadHeaders(head.value.rest, h)
                    case Read(all, body) => Relayed(head.value.code, all, body)
                    case Failed(NotHeader) => Stock(500)
                    case Failed(line) => Broken(line)
  {
    var head := ReadStatus(s);
    assert head.Some? ==> (HttpVersion(head.value.version) <==> "HTTP/" <= head.value.version);
    hide *;
    if head.None? || !HttpVersion(head.value.version) {
      StockWithoutStatus(s, h);
    } else {
      HeadersDecide(s, h, head.value);
      RelayedAre(head.value.code);
    }
  }

  lemma RelayedIsShown(code: nat)
    ensures code in RELAYED <==> code in {200, 301, 302}
    ensures code in RELAYED ==> ShownCode(code) == code
    ensures code !in RELAYED ==> ShownCode(code) !in RELAYED
  {
  }

  lemma VersionsStart(version: string)
    requires version in {"HTTP/1.0", "HTTP/1.1"}
    ensures HttpVersion(version)
  {
    assert "HTTP/1.0"[..5] == "HTTP/" && "HTTP/1.1"[..5] == "HTTP/";
  }

  lemma AnswerOf(s: string, head: Head, headers: map<string, string>, body: string)
    requires ReadStatus(s) == Some(head) && HttpVersion(head.version)
    ensures head.code !in RELAYED ==> ReadAnswer(s, map[]) == Stock(head.code)
    ensures head.code in RELAYED ==>
      (ReadAnswer(s, map[]) == Relayed(head.code, headers, body)
       <==> ReadHeaders(head.rest, map[]) == Read(headers, body))
  {
    hide ReadStatus, ReadHeaders, RELAYED, HttpVersion;
  }

  /**
    * What the proxy makes of what is sent: for a code that is relayed exactly the headers and
    * the body, if and only if they can be sent; for any other the stock answer of the code
    * that is shown, whatever the headers and the body.
    */
  lemma AnswerRoundTrip(r: Reply)
    ensures var answer := ReadAnswer(Gather(Buffers(r)), map[]);
            if r.code in {200, 301, 302} then answer == Relayed(r.code, r.headers, r.body) <==> Sendable(r.headers)
            else answer == Stock(ShownCode(r.code))
  {
    hide *;
    var text := Gather(Buffers(r));
    ResponseRoundTrip(r);
    RelayedIsShown(r.code);
    VersionsStart(ReadStatus(text).value.version);
    AnswerOf(text, ReadStatus(text).value, r.headers, r.body);
  }
}
