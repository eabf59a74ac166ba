/** The request parser: an automaton of twenty states that fills in a request. */
module HttpParser {
  import opened Basics

  datatype MethodEnum = GET | PUT | POST | UNKNOWN

  /** The value of a request's fields. */
  datatype Message = Message(
    method_: MethodEnum, uri: string, httpVersion: string, headers: map<string, string>, body: string)

  datatype State =
    | MethodStart | InMethod | InUri
    | VersionH | VersionT1 | VersionT2 | VersionP | VersionSlash
    | MajorStart | Major | MinorStart | Minor
    | ExpectingNewline1 | HeaderLineStart | HeaderLws | HeaderName
    | SpaceBeforeHeaderValue | HeaderValue | ExpectingNewline2 | ExpectingNewline3

  datatype ResultType = Good | Bad | Indeterminate | MissingData

  // ----- Character classes -----

  predicate IsChar(c: char) {
    c as int <= 127
  }

  predicate IsCtl(c: char) {
    c as int <= 31 || c as int == 127
  }

  predicate IsTspecial(c: char) {
    c in {'(', ')', '<', '>', '@', ',', ';', ':', '\\', '"', '/', '[', ']', '?', '=', '{', '}', ' ', '\t'}
  }

  predicate IsTokenChar(c: char) {
    IsChar(c) && !IsCtl(c) && !IsTspecial(c)
  }

  // ----- One character -----

  /** The parser's fields, without the count of characters. */
  datatype Parser = Parser(state: State, methodHelper: string, headerHelper: string)

  function MethodOf(s: string): MethodEnum {
    if s == "POST" then POST else if s == "PUT" then PUT else if s == "GET" then GET else UNKNOWN
  }

  function Get(headers: map<string, string>, name: string): string {
    if name in headers then headers[name] else ""
  }

  /** `headers_[name].push_back(c)`. */
  function PushHeader(r: Message, name: string, text: string): Message {
    r.(headers := r.headers[name := Get(r.headers, name) + text])
  }

  datatype Consumed = Consumed(parser: Parser, request: Message, result: ResultType)

  function Go(p: Parser, s: State, r: Message): Consumed {
    Consumed(p.(state := s), r, Indeterminate)
  }

  function Refuse(p: Parser, r: Message): Consumed {
    Consumed(p, r, Bad)
  }

  function Exactly(p: Parser, r: Message, c: char, expected: char, next: State): Consumed {
    if c == expected then Go(p, next, r) else Refuse(p, r)
  }

  function PushVersion(r: Message, c: char): Message {
    r.(httpVersion := r.httpVersion + [c])
  }

  /** `consume`. */
  function Step(p: Parser, r: Message, c: char): Consumed {
    match p.state
    case MethodStart =>
      if !IsTokenChar(c) then Refuse(p, r)
      else Go(p.(methodHelper := p.methodHelper + [c]), InMethod, r)
    case InMethod =>
      if c == ' ' then Go(p, InUri, r.(method_ := MethodOf(p.methodHelper)))
      else if !IsTokenChar(c) then Refuse(p, r)
      else Go(p.(methodHelper := p.methodHelper + [c]), InMethod, r)
    case InUri =>
      if c == ' ' then Go(p, VersionH, r)
      else if IsCtl(c) then Refuse(p, r)
      else Go(p, InUri, r.(uri := r.uri + [c]))
    case VersionH => Exactly(p, r, c, 'H', VersionT1)
    case VersionT1 => Exactly(p, r, c, 'T', VersionT2)
    case VersionT2 => Exactly(p, r, c, 'T', VersionP)
    case VersionP => Exactly(p, r, c, 'P', VersionSlash)
    case VersionSlash =>
      if c == '/' then Go(p, MajorStart, r.(httpVersion := "")) else Refuse(p, r)
    case MajorStart =>
      if IsDigit(c) then Go(p, Major, PushVersion(r, c)) else Refuse(p, r)
    case Major =>
      if c == '.' then Go(p, MinorStart, PushVersion(r, c))
      else if IsDigit(c) then Go(p, Major, PushVersion(r, c))
      else Refuse(p, r)
    case MinorStart =>
      if IsDigit(c) then Go(p, Minor, PushVersion(r, c)) else Refuse(p, r)
    case Minor =>
      if c == '\r' then Go(p, ExpectingNewline1, r)
      else if IsDigit(c) then Go(p, Minor, PushVersion(r, c))
      else Refuse(p, r)
    case ExpectingNewline1 => Exactly(p, r, c, '\n', HeaderLineStart)
    case HeaderLineStart =>
      if c == '\r' then Go(p, ExpectingNewline3, r)
      else if r.headers != map[] && (c == ' ' || c == '\t') then Go(p, HeaderLws, r)
      else if !IsTokenChar(c) then Refuse(p, r)
      else Go(p.(headerHelper := p.headerHelper + [c]), HeaderName, r)
    case HeaderLws =>
      if c == '\r' then Go(p, ExpectingNewline2, r)
      else if c == ' ' || c == '\t' then Go(p, HeaderLws, r)
      else if IsCtl(c) then Refuse(p, r)
      else Go(p.(headerHelper := p.headerHelper + [c]), HeaderValue, r)
    case HeaderName =>
      if c == ':' then Go(p, SpaceBeforeHeaderValue, r)
      else if !IsTokenChar(c) then Refuse(p, r)
      else Go(p.(headerHelper := p.headerHelper + [c]), HeaderName, r)
    case SpaceBeforeHeaderValue =>
      if c == ' ' then Go(p, HeaderValue, PushHeader(r, p.headerHelper, "")) else Refuse(p, r)
    case HeaderValue =>
      if c == '\r' then Go(p.(headerHelper := ""), ExpectingNewline2, r)
      else if IsCtl(c) then Refuse(p, r)
      else Go(p, HeaderValue, PushHeader(r, p.headerHelper, [c]))
    case ExpectingNewline2 => Exactly(p, r, c, '\n', HeaderLineStart)
    case ExpectingNewline3 => Consumed(p, r, if c == '\n' then Good else Bad)
  }

  // ----- A stretch of input -----

  /** How a call of `parse` ends: its result, both objects, and the number of characters read. */
  datatype Outcome = Outcome(result: ResultType, parser: Parser, request: Message, count: nat)

  function Shift(n: nat, o: Outcome): Outcome {
    o.(count := o.count + n)
  }

  /** `parse`. */
  function Run(p: Parser, r: Message, data: string): (o: Outcome)
    ensures o.count <= |data|
    ensures o.result != MissingData
    ensures o.result == Indeterminate ==> o.count == |data|
    ensures o.result == Good ==> o.count > 0
    decreases |data|
  {
    if data == "" then Outcome(Indeterminate, p, r, 0)
    else
      var s := Step(p, r, data[0]);
      if s.result == Good || s.result == Bad then Outcome(s.result, s.parser, s.request, 1)
      else Shift(1, Run(s.parser, s.request, data[1..]))
  }

  const FRESH: Parser := Parser(MethodStart, "", "")

  /** Input may arrive in any pieces: result, request and count are the same. */
  lemma {:induction false} RunInChunks(p: Parser, r: Message, a: string, b: string)
    ensures Run(p, r, a + b)
         == var first := Run(p, r, a);
            if first.result == Indeterminate then Shift(|a|, Run(first.parser, first.request, b)) else first
    decreases |a|
  {
    hide Step;
    if a == "" {
      assert a + b == b;
    } else {
      assert (a + b)[1..] == a[1..] + b;
      var s := Step(p, r, a[0]);
      if s.result != Good && s.result != Bad {
        RunInChunks(s.parser, s.request, a[1..], b);
      }
    }
  }

  /** The pieces of a sequence of reads, one after the other. */
  function Concat(chunks: seq<string>): string {
    if chunks == [] then "" else chunks[0] + Concat(chunks[1..])
  }

  /** Parsing chunk after chunk until the parser has decided. */
  function RunAll(p: Parser, r: Message, chunks: seq<string>): Outcome
    decreases |chunks|
  {
    if chunks == [] then Outcome(Indeterminate, p, r, 0)
    else
      var o := Run(p, r, chunks[0]);
      if o.result == Indeterminate then Shift(|chunks[0]|, RunAll(o.parser, o.request, chunks[1..])) else o
  }

  lemma {:induction false} ChunkingIsIrrelevant(p: Parser, r: Message, chunks: seq<string>)
    ensures RunAll(p, r, chunks) == Run(p, r, Concat(chunks))
    decreases |chunks|
  {
    hide Step;
    if chunks == [] {
    } else {
      var o := Run(p, r, chunks[0]);
      RunInChunks(p, r, chunks[0], Concat(chunks[1..]));
      ChunkingIsIrrelevant(o.parser, o.request, chunks[1..]);
    }
  }

  // ----- The objects -----

  class Request {
    var method_: MethodEnum
    var uri: string
    var httpVersion: string
    var headers: map<string, string>
    var body: string

    ghost function Value(): Message
      reads this
    {
      Message(method_, uri, httpVersion, headers, body)
    }

    constructor ()
      ensures Value() == Message(GET, "", "", map[], "")
    {
      method_, uri, httpVersion, headers, body := GET, "", "", map[], "";
    }
  }

  class RequestParser {
    var state: State
    var methodHelper: string
    var headerHelper: string
    var nCharParsed: nat

    ghost function Value(): Parser
      reads this
    {
      Parser(state, methodHelper, headerHelper)
    }

    constructor ()
      ensures Value() == FRESH && nCharParsed == 0
    {
      state, methodHelper, headerHelper, nCharParsed := MethodStart, "", "", 0;
    }

    /** The count of characters is not reset. */
    method Reset()
      modifies this
      ensures Value() == FRESH && nCharParsed == old(nCharParsed)
    {
      methodHelper := "";
      headerHelper := "";
      state := MethodStart;
    }

    method Consume(req: Request, input: char) returns (result: ResultType)
      modifies this, req
      ensures Consumed(Value(), req.Value(), result) == Step(old(Value()), old(req.Value()), input)
      ensures nCharParsed == old(nCharParsed)
    {
      result := Indeterminate;
      match state {
        case MethodStart =>
          if !IsChar(input) || IsCtl(input) || IsTspecial(input) {
            return Bad;
          }
          state := InMethod;
          methodHelper := methodHelper + [input];
        case InMethod =>
          if input == ' ' {
            if methodHelper == "POST" {
              req.method_ := POST;
            } else if methodHelper == "PUT" {
              req.method_ := PUT;
            } else if methodHelper == "GET" {
              req.method_ := GET;
            } else {
              req.method_ := UNKNOWN;
            }
            state := InUri;
          } else if !IsChar(input) || IsCtl(input) || IsTspecial(input) {
            return Bad;
          } else {
            methodHelper := methodHelper + [input];
          }
        case InUri =>
          if input == ' ' {
            state := VersionH;
          } else if IsCtl(input) {
            return Bad;
          } else {
            req.uri := req.uri + [input];
          }
        case VersionH => result := Expect(input, 'H', VersionT1);
        case VersionT1 => result := Expect(input, 'T', VersionT2);
        case VersionT2 => result := Expect(input, 'T', VersionP);
        case VersionP => result := Expect(input, 'P', VersionSlash);
        case VersionSlash =>
          if input != '/' {
            return Bad;
          }
          req.httpVersion := "";
          state := MajorStart;
        case MajorStart =>
          if !IsDigit(input) {
            return Bad;
          }
          req.httpVersion := req.httpVersion + [input];
          state := Major;
        case Major =>
          if input == '.' {
            req.httpVersion := req.httpVersion + ['.'];
            state := MinorStart;
          } else if IsDigit(input) {
            req.httpVersion := req.httpVersion + [input];
          } else {
            return Bad;
          }
        case MinorStart =>
          if !IsDigit(input) {
            return Bad;
          }
          req.httpVersion := req.httpVersion + [input];
          state := Minor;
        case Minor =>
          if input == '\r' {
            state := ExpectingNewline1;
          } else if IsDigit(input) {
            req.httpVersion := req.httpVersion + [input];
          } else {
            return Bad;
          }
        case ExpectingNewline1 => result := Expect(input, '\n', HeaderLineStart);
        case HeaderLineStart =>
          if input == '\r' {
            state := ExpectingNewline3;
          } else if req.headers != map[] && (input == ' ' || input == '\t') {
            state := HeaderLws;
          } else if !IsChar(input) || IsCtl(input) || IsTspecial(input) {
            return Bad;
          } else {
            headerHelper := headerHelper + [input];
            state := HeaderName;
          }
        case HeaderLws =>
          if input == '\r' {
            state := ExpectingNewline2;
          } else if input == ' ' || input == '\t' {
          } else if IsCtl(input) {
            return Bad;
          } else {
            state := HeaderValue;
            headerHelper := headerHelper + [input];
          }
        case HeaderName =>
          if input == ':' {
            state := SpaceBeforeHeaderValue;
          } else if !IsChar(input) || IsCtl(input) || IsTspecial(input) {
            return Bad;
          } else {
            headerHelper := headerHelper + [input];
          }
        case SpaceBeforeHeaderValue =>
          if input != ' ' {
            return Bad;
          }
          assert Get(req.headers, headerHelper) + "" == Get(req.headers, headerHelper);
          if headerHelper !in req.headers {
            req.headers := req.headers[headerHelper := ""];
          }
          state := HeaderValue;
        case HeaderValue =>
          if input == '\r' {
            headerHelper := "";
            state := ExpectingNewline2;
          } else if IsCtl(input) {
            return Bad;
          } else {
            req.headers := req.headers[headerHelper := Get(req.headers, headerHelper) + [input]];
          }
        case ExpectingNewline2 => result := Expect(input, '\n', HeaderLineStart);
        case ExpectingNewline3 =>
          return if input == '\n' then Good else Bad;
      }
    }

    /** The states that wait for one character. */
    method Expect(input: char, expected: char, next: State) returns (result: ResultType)
      modifies this`state
      ensures state == if input == expected then next else old(state)
      ensures result == if input == expected then Indeterminate else Bad
    {
      if input == expected {
        state := next;
        return Indeterminate;
      }
      return Bad;
    }

    /** `parse` over the characters of `data` from `begin` to `end`. */
    method Parse(req: Request, data: string, begin: nat, end: nat) returns (result: ResultType, position: nat)
      requires begin <= end <= |data|
      modifies this, req
      ensures begin <= position <= end
      ensures Outcome(result, Value(), req.Value(), position - begin)
           == Run(old(Value()), old(req.Value()), data[begin..end])
      ensures nCharParsed == old(nCharParsed) + position - begin
    {
      hide Step;
      position := begin;
      while position != end
        invariant begin <= position <= end
        invariant nCharParsed == old(nCharParsed) + position - begin
        invariant Shift(position - begin, Run(Value(), req.Value(), data[position..end]))
               == Run(old(Value()), old(req.Value()), data[begin..end])
        decreases end - position
      {
        assert data[position..end][1..] == data[position + 1..end];
        result := Consume(req, data[position]);
        position := position + 1;
        nCharParsed := nCharParsed + 1;
        if result == Good || result == Bad {
          return;
        }
      }
      return Indeterminate, position;
    }
  }
}
