/**
  * The request automaton accepts exactly its language: the request line, the whole request,
  * what is rejected, and what is never consumed.
  */
module HttpLanguage {
  import opened Basics
  import opened HttpParser
  import opened HttpGrammar

  // ----- The request line -----

  lemma MethodSteps(p: Parser, r: Message, data: string, i: nat, a: nat)
    requires p.state == MethodStart && p.methodHelper == "" && i < a < |data|
    requires StaysAll(InMethod, data[i..a]) && data[a] == ' '
    ensures At(p, r, data, i)
         == At(p.(state := InUri, methodHelper := data[i..a]), r.(method_ := MethodOf(data[i..a])), data, a + 1)
  {
    hide At, StaysAll, MethodOf;
    SpanFirst(InMethod, data, i, a);
    SpanTail(InMethod, data, i, a);
    AtStep(p, r, data, i);
    assert "" + [data[i]] == [data[i]];
    AtSpan(p.(state := InMethod, methodHelper := [data[i]]), r, data, i + 1, a);
    assert [data[i]] + data[i + 1..a] == data[i..a];
    AtStep(p.(state := InMethod, methodHelper := data[i..a]), r, data, a);
  }

  lemma MethodNeeded(p: Parser, r: Message, data: string, i: nat) returns (a: nat)
    requires p.state == MethodStart && p.methodHelper == "" && i <= |data|
    requires At(p, r, data, i).result == Good
    ensures i < a < |data| && StaysAll(InMethod, data[i..a]) && data[a] == ' '
  {
    hide At, MethodOf;
    if i == |data| { AtEnd(p, r, data, i); assert false; }
    AtStep(p, r, data, i);
    var q := p.(state := InMethod, methodHelper := [data[i]]);
    assert "" + [data[i]] == [data[i]];
    a := SpanEnd(InMethod, data, i + 1);
    AtSpan(q, r, data, i + 1, a);
    var q1 := AbsorbParser(q, data[i + 1..a]);
    if a == |data| { AtEnd(q1, r, data, a); assert false; }
    AtStep(q1, r, data, a);
    SpanHead(InMethod, data, i, a);
  }

  lemma UriSteps(p: Parser, r: Message, data: string, i: nat, b: nat)
    requires p.state == InUri && r.uri == "" && i <= b < |data|
    requires StaysAll(InUri, data[i..b]) && data[b] == ' '
    ensures At(p, r, data, i) == At(p.(state := VersionH), r.(uri := data[i..b]), data, b + 1)
  {
    hide At, StaysAll;
    AtSpan(p, r, data, i, b);
    assert "" + data[i..b] == data[i..b];
    AtStep(p, r.(uri := data[i..b]), data, b);
  }

  lemma UriNeeded(p: Parser, r: Message, data: string, i: nat) returns (b: nat)
    requires p.state == InUri && i <= |data|
    requires At(p, r, data, i).result == Good
    ensures i <= b < |data| && StaysAll(InUri, data[i..b]) && data[b] == ' '
  {
    hide At, StaysAll;
    b := SpanEnd(InUri, data, i);
    AtSpan(p, r, data, i, b);
    var r1 := AbsorbRequest(p, r, data[i..b]);
    if b == |data| { AtEnd(p, r1, data, b); assert false; }
    AtStep(p, r1, data, b);
  }

  lemma HereHttp(data: string, i: nat)
    requires Here(data, i, "HTTP/")
    ensures i + 5 <= |data| && data[i] == 'H' && data[i + 1] == 'T' && data[i + 2] == 'T'
    ensures data[i + 3] == 'P' && data[i + 4] == '/'
  {
    var s := data[i..i + 5];
    assert s[0] == 'H' && s[1] == 'T' && s[2] == 'T' && s[3] == 'P' && s[4] == '/';
  }

  lemma HttpSteps(p: Parser, r: Message, data: string, i: nat)
    requires p.state == VersionH && Here(data, i, "HTTP/")
    ensures At(p, r, data, i) == At(p.(state := MajorStart), r.(httpVersion := ""), data, i + 5)
  {
    HereHttp(data, i);
    hide At, Here;
    AtStep(p, r, data, i);
    AtStep(p.(state := VersionT1), r, data, i + 1);
    AtStep(p.(state := VersionT2), r, data, i + 2);
    AtStep(p.(state := VersionP), r, data, i + 3);
    AtStep(p.(state := VersionSlash), r, data, i + 4);
  }

  /** A state that waits for one character. */
  lemma ExactNeeded(p: Parser, r: Message, data: string, i: nat, c: char, next: State)
    requires i <= |data| && At(p, r, data, i).result == Good
    requires forall d :: Step(p, r, d) == Exactly(p, r, d, c, next)
    ensures i < |data| && data[i] == c && At(p.(state := next), r, data, i + 1).result == Good
  {
    hide At, Step;
    if i == |data| { AtEnd(p, r, data, i); assert false; }
    AtStep(p, r, data, i);
  }

  lemma HttpNeeded(p: Parser, r: Message, data: string, i: nat)
    requires p.state == VersionH && i <= |data| && At(p, r, data, i).result == Good
    ensures Here(data, i, "HTTP/")
  {
    hide At;
    ExactNeeded(p, r, data, i, 'H', VersionT1);
    ExactNeeded(p.(state := VersionT1), r, data, i + 1, 'T', VersionT2);
    ExactNeeded(p.(state := VersionT2), r, data, i + 2, 'T', VersionP);
    ExactNeeded(p.(state := VersionP), r, data, i + 3, 'P', VersionSlash);
    var q := p.(state := VersionSlash);
    if i + 4 == |data| { AtEnd(q, r, data, i + 4); assert false; }
    AtStep(q, r, data, i + 4);
    assert data[i..i + 5] == "HTTP/";
  }

  lemma MajorSteps(p: Parser, r: Message, data: string, i: nat, c: nat)
    requires p.state == MajorStart && r.httpVersion == "" && i < c < |data|
    requires StaysAll(Major, data[i..c]) && data[c] == '.'
    ensures At(p, r, data, i)
         == At(p.(state := MinorStart), r.(httpVersion := data[i..c] + "."), data, c + 1)
  {
    hide At, StaysAll;
    SpanFirst(Major, data, i, c);
    SpanTail(Major, data, i, c);
    AtStep(p, r, data, i);
    assert "" + [data[i]] == [data[i]];
    AtSpan(p.(state := Major), r.(httpVersion := [data[i]]), data, i + 1, c);
    assert [data[i]] + data[i + 1..c] == data[i..c];
    AtStep(p.(state := Major), r.(httpVersion := data[i..c]), data, c);
  }

  lemma MajorNeeded(p: Parser, r: Message, data: string, i: nat) returns (c: nat)
    requires p.state == MajorStart && i <= |data| && At(p, r, data, i).result == Good
    ensures i < c < |data| && StaysAll(Major, data[i..c]) && data[c] == '.'
  {
    hide At;
    if i == |data| { AtEnd(p, r, data, i); assert false; }
    AtStep(p, r, data, i);
    var q, r1 := p.(state := Major), PushVersion(r, data[i]);
    c := SpanEnd(Major, data, i + 1);
    AtSpan(q, r1, data, i + 1, c);
    var r2 := AbsorbRequest(q, r1, data[i + 1..c]);
    if c == |data| { AtEnd(q, r2, data, c); assert false; }
    AtStep(q, r2, data, c);
    SpanHead(Major, data, i, c);
  }

  lemma MinorSteps(p: Parser, r: Message, data: string, i: nat, d: nat)
    requires p.state == MinorStart && i < d < d + 2 <= |data|
    requires StaysAll(Minor, data[i..d]) && data[d] == '\r' && data[d + 1] == '\n'
    ensures At(p, r, data, i)
         == At(p.(state := HeaderLineStart), r.(httpVersion := r.httpVersion + data[i..d]), data, d + 2)
  {
    hide At, StaysAll;
    SpanFirst(Minor, data, i, d);
    SpanTail(Minor, data, i, d);
    AtStep(p, r, data, i);
    var r1 := PushVersion(r, data[i]);
    AtSpan(p.(state := Minor), r1, data, i + 1, d);
    assert data[i..d] == [data[i]] + data[i + 1..d];
    assert r1.httpVersion + data[i + 1..d] == r.httpVersion + data[i..d];
    var r2 := r.(httpVersion := r.httpVersion + data[i..d]);
    AtStep(p.(state := Minor), r2, data, d);
    AtStep(p.(state := ExpectingNewline1), r2, data, d + 1);
  }

  lemma MinorNeeded(p: Parser, r: Message, data: string, i: nat) returns (d: nat)
    requires p.state == MinorStart && i <= |data| && At(p, r, data, i).result == Good
    ensures i < d < d + 2 <= |data|
    ensures StaysAll(Minor, data[i..d]) && data[d] == '\r' && data[d + 1] == '\n'
  {
    hide At;
    if i == |data| { AtEnd(p, r, data, i); assert false; }
    AtStep(p, r, data, i);
    var q, r1 := p.(state := Minor), PushVersion(r, data[i]);
    d := SpanEnd(Minor, data, i + 1);
    AtSpan(q, r1, data, i + 1, d);
    var r2 := AbsorbRequest(q, r1, data[i + 1..d]);
    if d == |data| { AtEnd(q, r2, data, d); assert false; }
    AtStep(q, r2, data, d);
    ExactNeeded(p.(state := ExpectingNewline1), r2, data, d + 1, '\n', HeaderLineStart);
    SpanHead(Minor, data, i, d);
  }

  /** A request line's method ends at `a` and its URI at `b`. */
  predicate StartText(data: string, a: nat, b: nat) {
    && 0 < a < b < |data|
    && StaysAll(InMethod, data[0..a]) && data[a] == ' '
    && StaysAll(InUri, data[a + 1..b]) && data[b] == ' '
  }

  /** After the URI, the major version ends at `c` and the minor version at `d`. */
  predicate VersionText(data: string, b: nat, c: nat, d: nat) {
    && b + 6 < c < c + 1 < d < d + 2 <= |data| && Here(data, b + 1, "HTTP/")
    && StaysAll(Major, data[b + 6..c]) && data[c] == '.'
    && StaysAll(Minor, data[c + 1..d]) && data[d] == '\r' && data[d + 1] == '\n'
  }

  predicate RequestText(data: string, a: nat, b: nat, c: nat, d: nat) {
    StartText(data, a, b) && VersionText(data, b, c, d)
  }

  function Started(m: Syntax, r: Message): Message {
    r.(method_ := MethodOf(m.method_), uri := m.uri, httpVersion := m.major + "." + m.minor)
  }

  function SyntaxAt(data: string, a: nat, b: nat, c: nat, d: nat, lines: seq<Line>): Syntax
    requires RequestText(data, a, b, c, d)
  {
    Syntax(data[0..a], data[a + 1..b], data[b + 6..c], data[c + 1..d], lines)
  }

  lemma RequestLineSteps(r: Message, data: string, a: nat, b: nat, c: nat, d: nat)
    requires Blank(r) && RequestText(data, a, b, c, d)
    ensures At(FRESH, r, data, 0)
         == At(Parser(HeaderLineStart, data[0..a], ""), Started(SyntaxAt(data, a, b, c, d, []), r), data, d + 2)
  {
    hide At, StaysAll, MethodOf, Here;
    var p0 := Parser(InUri, data[0..a], "");
    MethodSteps(FRESH, r, data, 0, a);
    var r1 := r.(method_ := MethodOf(data[0..a]));
    UriSteps(p0, r1, data, a + 1, b);
    var r2 := r1.(uri := data[a + 1..b]);
    HttpSteps(p0.(state := VersionH), r2, data, b + 1);
    MajorSteps(p0.(state := MajorStart), r2.(httpVersion := ""), data, b + 6, c);
    MinorSteps(p0.(state := MinorStart), r2.(httpVersion := data[b + 6..c] + "."), data, c + 1, d);
  }

  lemma HereFits(data: string, i: nat, text: string)
    requires Here(data, i, text)
    ensures i + |text| <= |data|
  {
  }

  lemma RequestLineNeeded(r: Message, data: string) returns (a: nat, b: nat, c: nat, d: nat)
    requires Blank(r) && At(FRESH, r, data, 0).result == Good
    ensures RequestText(data, a, b, c, d)
  {
    hide At, StaysAll, MethodOf, Here;
    a := MethodNeeded(FRESH, r, data, 0);
    MethodSteps(FRESH, r, data, 0, a);
    var p0 := Parser(InUri, data[0..a], "");
    var r1 := r.(method_ := MethodOf(data[0..a]));
    b := UriNeeded(p0, r1, data, a + 1);
    UriSteps(p0, r1, data, a + 1, b);
    var r2 := r1.(uri := data[a + 1..b]);
    HttpNeeded(p0.(state := VersionH), r2, data, b + 1);
    HttpSteps(p0.(state := VersionH), r2, data, b + 1);
    HereFits(data, b + 1, "HTTP/");
    c := MajorNeeded(p0.(state := MajorStart), r2.(httpVersion := ""), data, b + 6);
    MajorSteps(p0.(state := MajorStart), r2.(httpVersion := ""), data, b + 6, c);
    d := MinorNeeded(p0.(state := MinorStart), r2.(httpVersion := data[b + 6..c] + "."), data, c + 1);
  }

  predicate ValidRequestLine(m: Syntax) {
    IsToken(m.method_) && IsUri(m.uri) && IsNumber(m.major) && IsNumber(m.minor)
  }

  lemma Extend(data: string, i: nat, j: nat, text: string)
    requires i <= j <= |data| && data[i..j] == text
    ensures data[0..i] + text == data[0..j]
  {
  }

  lemma OneSlice(data: string, i: nat)
    requires i < |data|
    ensures data[i..i + 1] == [data[i]]
  {
  }

  lemma TwoSlice(data: string, i: nat)
    requires i + 2 <= |data|
    ensures data[i..i + 2] == [data[i], data[i + 1]]
  {
  }

  lemma SpaceHttp(data: string, i: nat)
    requires i + 6 <= |data| && data[i] == ' ' && data[i + 1..i + 6] == "HTTP/"
    ensures data[i..i + 6] == " HTTP/"
  {
    assert data[i..i + 6] == [' '] + data[i + 1..i + 6];
  }

  lemma TextOfRequestLine(data: string, a: nat, b: nat, c: nat, d: nat, m: Syntax)
    requires 0 < a < b < b + 6 < c < c + 1 < d < d + 2 <= |data|
    requires data[a] == ' ' && data[b] == ' ' && data[b + 1..b + 6] == "HTTP/"
    requires data[c] == '.' && data[d] == '\r' && data[d + 1] == '\n'
    requires m.method_ == data[0..a] && m.uri == data[a + 1..b]
    requires m.major == data[b + 6..c] && m.minor == data[c + 1..d]
    ensures RequestLine(m) == data[0..d + 2]
  {
    OneSlice(data, a);
    SpaceHttp(data, b);
    OneSlice(data, c);
    TwoSlice(data, d);
    Extend(data, a, a + 1, " ");
    Extend(data, a + 1, b, m.uri);
    Extend(data, b, b + 6, " HTTP/");
    Extend(data, b + 6, c, m.major);
    Extend(data, c, c + 1, ".");
    Extend(data, c + 1, d, m.minor);
    Extend(data, d, d + 2, "\r\n");
  }

  lemma PrefixHere(data: string, n: nat)
    requires n <= |data|
    ensures Here(data, 0, data[0..n]) && |data[0..n]| == n
  {
  }

  lemma RequestTextIsLine(data: string, a: nat, b: nat, c: nat, d: nat, lines: seq<Line>)
    requires RequestText(data, a, b, c, d)
    ensures var m := SyntaxAt(data, a, b, c, d, lines);
            ValidRequestLine(m) && Here(data, 0, RequestLine(m)) && |RequestLine(m)| == d + 2
  {
    hide IsTokenChar, IsCtl, Here, RequestLine;
    HereText(data, b + 1, "HTTP/");
    TextOfRequestLine(data, a, b, c, d, SyntaxAt(data, a, b, c, d, lines));
    PrefixHere(data, d + 2);
  }

  lemma RequestLinePieces(m: Syntax)
    ensures RequestLine(m) == m.method_ + " " + m.uri + " HTTP/" + m.major + "." + m.minor + "\r\n"
  {
  }

  lemma SpaceThenHttp()
    ensures " HTTP/" == " " + "HTTP/"
  {
  }

  lemma RequestLineParts(data: string, m: Syntax)
    requires Here(data, 0, RequestLine(m))
    ensures var a := |m.method_|; var b := a + 1 + |m.uri|; var c := b + 6 + |m.major|; var d := c + 1 + |m.minor|;
            && Here(data, 0, m.method_) && Here(data, a, " ") && Here(data, a + 1, m.uri)
            && Here(data, b, " ") && Here(data, b + 1, "HTTP/")
            && Here(data, b + 6, m.major) && Here(data, c, ".")
            && Here(data, c + 1, m.minor) && Here(data, d, "\r\n")
  {
    RequestLinePieces(m);
    SpaceThenHttp();
    hide *;
    var s1 := m.method_ + " ";
    var s2 := s1 + m.uri;
    var s3 := s2 + " HTTP/";
    var s4 := s3 + m.major;
    var s5 := s4 + ".";
    var s6 := s5 + m.minor;
    HereParts(data, 0, s6, "\r\n");
    HereParts(data, 0, s5, m.minor);
    HereParts(data, 0, s4, ".");
    HereParts(data, 0, s3, m.major);
    HereParts(data, 0, s2, " HTTP/");
    HereParts(data, |s2|, " ", "HTTP/");
    HereParts(data, 0, s1, m.uri);
    HereParts(data, 0, m.method_, " ");
  }

  lemma HereChar(data: string, i: nat, c: char)
    requires Here(data, i, [c])
    ensures i < |data| && data[i] == c
  {
    assert data[i..i + 1][0] == c;
  }

  lemma ValidRequestLineStays(m: Syntax)
    requires ValidRequestLine(m)
    ensures m.method_ != "" && StaysAll(InMethod, m.method_) && StaysAll(InUri, m.uri)
    ensures m.major != "" && StaysAll(Major, m.major) && m.minor != "" && StaysAll(Minor, m.minor)
  {
    hide IsTokenChar, IsCtl;
  }

  lemma RequestLineLength(m: Syntax)
    ensures |RequestLine(m)| == |m.method_| + 1 + |m.uri| + 6 + |m.major| + 1 + |m.minor| + 2
  {
  }

  lemma LineIsStartText(data: string, method_: string, uri: string, a: nat, b: nat)
    requires method_ != "" && StaysAll(InMethod, method_) && StaysAll(InUri, uri)
    requires a == |method_| && b == a + 1 + |uri|
    requires Here(data, 0, method_) && Here(data, a, " ") && Here(data, a + 1, uri) && Here(data, b, " ")
    ensures StartText(data, a, b) && data[0..a] == method_ && data[a + 1..b] == uri
  {
    hide StaysAll, Here;
    HereText(data, 0, method_);
    HereText(data, a + 1, uri);
    HereChar(data, a, ' ');
    HereChar(data, b, ' ');
  }

  lemma LineIsVersionText(data: string, major: string, minor: string, b: nat, c: nat, d: nat)
    requires major != "" && minor != "" && StaysAll(Major, major) && StaysAll(Minor, minor)
    requires c == b + 6 + |major| && d == c + 1 + |minor|
    requires Here(data, b + 1, "HTTP/") && Here(data, b + 6, major) && Here(data, c, ".")
    requires Here(data, c + 1, minor) && Here(data, d, "\r\n")
    ensures VersionText(data, b, c, d) && data[b + 6..c] == major && data[c + 1..d] == minor
  {
    hide StaysAll, Here;
    HereText(data, b + 6, major);
    HereText(data, c + 1, minor);
    HereChar(data, c, '.');
    HerePair(data, d, '\r', '\n');
  }

  lemma SyntaxParts(data: string, m: Syntax, a: nat, b: nat, c: nat, d: nat)
    requires StartText(data, a, b) && data[0..a] == m.method_ && data[a + 1..b] == m.uri
    requires VersionText(data, b, c, d) && data[b + 6..c] == m.major && data[c + 1..d] == m.minor
    ensures d + 2 <= |data|
    ensures RequestText(data, a, b, c, d) && SyntaxAt(data, a, b, c, d, m.lines) == m
  {
    hide StaysAll, Here;
  }

  lemma LineIsRequestText(data: string, m: Syntax, a: nat, b: nat, c: nat, d: nat)
    requires ValidRequestLine(m) && Here(data, 0, RequestLine(m))
    requires a == |m.method_| && b == a + 1 + |m.uri| && c == b + 6 + |m.major| && d == c + 1 + |m.minor|
    ensures d + 2 <= |data|
    ensures RequestText(data, a, b, c, d) && SyntaxAt(data, a, b, c, d, m.lines) == m
  {
    hide *;
    ValidRequestLineStays(m);
    RequestLineParts(data, m);
    LineIsStartText(data, m.method_, m.uri, a, b);
    LineIsVersionText(data, m.major, m.minor, b, c, d);
    SyntaxParts(data, m, a, b, c, d);
  }

  // ----- The automaton is its grammar -----

  lemma ValidParts(m: Syntax, r: Message)
    requires Blank(r)
    ensures Valid(m) <==> ValidRequestLine(m) && Starts(Started(m, r), m.lines)
    ensures Meaning(m, r)
         == Started(m, r).(headers := MeaningOfLines(Started(m, r).headers, m.lines))
    ensures Render(m) == RequestLine(m) + Block(m.lines)
  {
    hide IsToken, IsUri, IsNumber, ValidLine, MeaningOfLines, RenderLines, RequestLine;
    assert RequestLine(m) + RenderLines(m.lines) + "\r\n" == RequestLine(m) + (RenderLines(m.lines) + "\r\n");
  }

  lemma RequestLineTaken(r: Message, data: string, m: Syntax)
    requires Blank(r) && ValidRequestLine(m) && Here(data, 0, RequestLine(m))
    ensures |RequestLine(m)| <= |data|
    ensures At(FRESH, r, data, 0)
         == At(Parser(HeaderLineStart, m.method_, ""), Started(m, r), data, |RequestLine(m)|)
  {
    hide At, Here, RequestLine, ValidRequestLine, StaysAll, Blank, MethodOf, RequestText;
    var a := |m.method_|;
    var b := a + 1 + |m.uri|;
    var c := b + 6 + |m.major|;
    var d := c + 1 + |m.minor|;
    LineIsRequestText(data, m, a, b, c, d);
    RequestLineLength(m);
    RequestLineSteps(r, data, a, b, c, d);
  }

  /**
    * A request in the language is accepted whatever follows it: exactly its text is consumed,
    * and the request is filled in with what the text means.
    */
  lemma GrammarAccepted(r: Message, data: string, m: Syntax)
    requires Blank(r) && Valid(m) && Render(m) <= data
    ensures Run(FRESH, r, data)
         == Outcome(Good, Parser(ExpectingNewline3, m.method_, ""), Meaning(m, r), |Render(m)|)
  {
    assert data[0..] == data;
    assert At(FRESH, r, data, 0) == Run(FRESH, r, data);
    assert Here(data, 0, Render(m));
    ValidParts(m, r);
    assert Outcome(Good, Parser(ExpectingNewline3, m.method_, ""), Meaning(m, r), |Render(m)|)
        == Completed(Parser(HeaderLineStart, m.method_, ""), Started(m, r), m.lines, |RequestLine(m)|);
    hide *;
    HereParts(data, 0, RequestLine(m), Block(m.lines));
    RequestLineTaken(r, data, m);
    BlockSteps(Parser(HeaderLineStart, m.method_, ""), Started(m, r), data, |RequestLine(m)|, m.lines);
  }

  /** What is accepted is a request in the language. */
  lemma AcceptedIsGrammar(r: Message, data: string) returns (m: Syntax)
    requires Blank(r) && Run(FRESH, r, data).result == Good
    ensures Valid(m) && Render(m) <= data
  {
    assert data[0..] == data;
    assert At(FRESH, r, data, 0) == Run(FRESH, r, data);
    hide At, Here, RequestLine, Render, Valid, Meaning, Block, ValidRequestLine, Starts, Run, StaysAll;
    var a, b, c, d := RequestLineNeeded(r, data);
    RequestLineSteps(r, data, a, b, c, d);
    var m0 := SyntaxAt(data, a, b, c, d, []);
    var lines := BlockNeeded(Parser(HeaderLineStart, data[0..a], ""), Started(m0, r), data, d + 2);
    m := SyntaxAt(data, a, b, c, d, lines);
    RequestTextIsLine(data, a, b, c, d, lines);
    ValidParts(m, r);
    HereParts(data, 0, RequestLine(m), Block(lines));
    HereText(data, 0, Render(m));
    assert Started(m, r) == Started(m0, r);
  }

  /** The parser accepts exactly the inputs that begin with a request in the language. */
  lemma AutomatonIsGrammar(r: Message, data: string)
    requires Blank(r)
    ensures Run(FRESH, r, data).result == Good <==> exists m :: Valid(m) && Render(m) <= data
  {
    hide *;
    if Run(FRESH, r, data).result == Good {
      var m := AcceptedIsGrammar(r, data);
      assert Valid(m) && Render(m) <= data;
    }
    forall m | Valid(m) && Render(m) <= data ensures Run(FRESH, r, data).result == Good {
      GrammarAccepted(r, data, m);
    }
  }

  /** No request in the language is a prefix of another, and equal texts have equal meanings. */
  lemma PrefixFree(r: Message, m: Syntax, n: Syntax)
    requires Blank(r) && Valid(m) && Valid(n) && Render(m) <= Render(n)
    ensures Render(m) == Render(n) && m.method_ == n.method_ && Meaning(m, r) == Meaning(n, r)
  {
    hide *;
    GrammarAccepted(r, Render(n), m);
    GrammarAccepted(r, Render(n), n);
    assert Render(n)[..|Render(m)|] == Render(m);
  }

  // ----- Rejection -----

  /** How many more characters a state needs at least. */
  function Distance(s: State): nat {
    match s
    case MethodStart => 14
    case InMethod => 13
    case InUri => 12
    case VersionH => 11
    case VersionT1 => 10
    case VersionT2 => 9
    case VersionP => 8
    case VersionSlash => 7
    case MajorStart => 6
    case Major => 5
    case MinorStart => 4
    case Minor => 3
    case ExpectingNewline1 => 2
    case HeaderLineStart => 1
    case HeaderLws => 3
    case HeaderName => 5
    case SpaceBeforeHeaderValue => 4
    case HeaderValue => 3
    case ExpectingNewline2 => 2
    case ExpectingNewline3 => 0
  }

  /** A character that brings a state nearer to the end of the request. */
  function Nearer(s: State): char {
    match s
    case MethodStart => 'A'
    case InMethod | InUri | SpaceBeforeHeaderValue => ' '
    case VersionH => 'H'
    case VersionT1 | VersionT2 => 'T'
    case VersionP => 'P'
    case VersionSlash => '/'
    case MajorStart | MinorStart => '1'
    case Major => '.'
    case HeaderName => ':'
    case Minor | HeaderLineStart | HeaderLws | HeaderValue => '\r'
    case ExpectingNewline1 | ExpectingNewline2 | ExpectingNewline3 => '\n'
  }

  lemma NearerStep(p: Parser, r: Message)
    ensures var s := Step(p, r, Nearer(p.state));
            if p.state == ExpectingNewline3 then s.result == Good
            else s.result == Indeterminate && Distance(s.parser.state) < Distance(p.state)
  {
  }

  /** Every state can still be completed. */
  lemma {:induction false} Completable(p: Parser, r: Message) returns (more: string)
    ensures Run(p, r, more).result == Good
    decreases Distance(p.state)
  {
    var c := Nearer(p.state);
    NearerStep(p, r);
    hide Step, Nearer, Distance;
    var s := Step(p, r, c);
    if s.result == Good {
      more := [c];
    } else {
      var rest := Completable(s.parser, s.request);
      more := [c] + rest;
      assert more[1..] == rest;
    }
  }

  /** The parser rejects as soon as, and only when, nothing that could follow would be accepted. */
  lemma RejectionIsPrompt(p: Parser, r: Message, data: string)
    ensures Run(p, r, data).result == Bad <==> forall more :: Run(p, r, data + more).result != Good
  {
    var o := Run(p, r, data);
    hide Run;
    forall more ensures o.result == Bad ==> Run(p, r, data + more).result != Good {
      RunInChunks(p, r, data, more);
    }
    if o.result == Indeterminate {
      var more := Completable(o.parser, o.request);
      RunInChunks(p, r, data, more);
      assert Run(p, r, data + more).result == Good;
    } else if o.result == Good {
      assert data + "" == data;
      assert Run(p, r, data + "").result == Good;
    }
  }

  // ----- NUL -----

  lemma NulIsRefused(p: Parser, r: Message)
    ensures Step(p, r, '\0').result == Bad
  {
  }

  /** What is consumed by a run that succeeds has no NUL in it. */
  lemma {:induction false} ConsumedNulFree(p: Parser, r: Message, data: string)
    requires Run(p, r, data).result == Good
    ensures NulFree(data[..Run(p, r, data).count])
    decreases |data|
  {
    NulIsRefused(p, r);
    hide Step;
    var s := Step(p, r, data[0]);
    var n := Run(p, r, data).count;
    if s.result == Good {
      assert data[..1] == [data[0]];
    } else {
      ConsumedNulFree(s.parser, s.request, data[1..]);
      assert data[..n] == [data[0]] + data[1..][..n - 1];
    }
  }

  lemma RenderNulFree(m: Syntax)
    requires Valid(m)
    ensures NulFree(Render(m))
  {
    hide Valid, Render, Run;
    var r := Message(GET, "", "", map[], "");
    GrammarAccepted(r, Render(m), m);
    ConsumedNulFree(FRESH, r, Render(m));
    assert Render(m)[..|Render(m)|] == Render(m);
  }
}
