/**
  * The language of the request automaton: a strict variant of the request line and header
  * fields of RFC 7230 (sections 3.1.1 and 3.2), with exactly one space after the colon and
  * with lines that begin with white space allowed after the first field.
  */
module HttpGrammar {
  import opened Basics
  import opened HttpParser

  /** A header field, or a later line that begins with white space. */
  datatype Line = Field(name: string, value: string) | Fold(blank: string, text: string)

  datatype Syntax = Syntax(method_: string, uri: string, major: string, minor: string, lines: seq<Line>)

  // ----- The grammar -----

  predicate IsToken(s: string) {
    s != "" && forall i :: 0 <= i < |s| ==> IsTokenChar(s[i])
  }

  predicate NoCtl(s: string) {
    forall i :: 0 <= i < |s| ==> !IsCtl(s[i])
  }

  predicate IsUri(s: string) {
    NoCtl(s) && forall i :: 0 <= i < |s| ==> s[i] != ' '
  }

  predicate IsNumber(s: string) {
    s != "" && AllDigits(s)
  }

  predicate IsBlankChar(c: char) {
    c == ' ' || c == '\t'
  }

  predicate IsBlank(s: string) {
    s != "" && forall i :: 0 <= i < |s| ==> IsBlankChar(s[i])
  }

  predicate ValidLine(l: Line) {
    match l
    case Field(name, value) => IsToken(name) && NoCtl(value)
    case Fold(blank, text) => IsBlank(blank) && NoCtl(text) && (text != "" ==> text[0] != ' ')
  }

  predicate ValidLines(lines: seq<Line>) {
    forall i :: 0 <= i < |lines| ==> ValidLine(lines[i])
  }

  predicate Valid(m: Syntax) {
    && IsToken(m.method_) && IsUri(m.uri) && IsNumber(m.major) && IsNumber(m.minor)
    && ValidLines(m.lines) && (m.lines != [] ==> m.lines[0].Field?)
  }

  function RenderLine(l: Line): string {
    match l
    case Field(name, value) => name + ": " + value + "\r\n"
    case Fold(blank, text) => blank + text + "\r\n"
  }

  function RenderLines(lines: seq<Line>): string {
    if lines == [] then "" else RenderLine(lines[0]) + RenderLines(lines[1..])
  }

  function RequestLine(m: Syntax): string {
    m.method_ + " " + m.uri + " HTTP/" + m.major + "." + m.minor + "\r\n"
  }

  function Render(m: Syntax): string {
    RequestLine(m) + RenderLines(m.lines) + "\r\n"
  }

  // ----- What a request means -----

  function MeaningOfLine(h: map<string, string>, l: Line): map<string, string> {
    match l
    case Field(name, value) => h[name := Get(h, name) + value]
    case Fold(_, text) => if |text| <= 1 then h else h[[text[0]] := Get(h, [text[0]]) + text[1..]]
  }

  /** The values of fields of one name are put together; a folded line starts a field of its own. */
  function MeaningOfLines(h: map<string, string>, lines: seq<Line>): map<string, string>
    decreases |lines|
  {
    if lines == [] then h else MeaningOfLines(MeaningOfLine(h, lines[0]), lines[1..])
  }

  function Meaning(m: Syntax, r: Message): Message {
    r.(method_ := MethodOf(m.method_), uri := m.uri, httpVersion := m.major + "." + m.minor,
       headers := MeaningOfLines(map[], m.lines))
  }

  /** A request that nothing was parsed into. */
  predicate Blank(r: Message) {
    r.uri == "" && r.headers == map[]
  }

  // ----- Running the automaton from a position -----

  function At(p: Parser, r: Message, data: string, i: nat): Outcome
    requires i <= |data|
  {
    Shift(i, Run(p, r, data[i..]))
  }

  lemma AtStep(p: Parser, r: Message, data: string, i: nat)
    requires i < |data|
    ensures At(p, r, data, i)
         == var s := Step(p, r, data[i]);
            if s.result == Good || s.result == Bad then Outcome(s.result, s.parser, s.request, i + 1)
            else At(s.parser, s.request, data, i + 1)
  {
    hide Step;
    assert data[i..][1..] == data[i + 1..];
  }

  lemma AtEnd(p: Parser, r: Message, data: string, i: nat)
    requires i == |data|
    ensures At(p, r, data, i).result == Indeterminate
  {
  }

  /** The states that stay as they are on some characters, and those characters. */
  predicate Stays(s: State, c: char) {
    match s
    case InMethod => IsTokenChar(c)
    case InUri => c != ' ' && !IsCtl(c)
    case Major | Minor => IsDigit(c)
    case HeaderLws => IsBlankChar(c)
    case HeaderName => IsTokenChar(c)
    case HeaderValue => !IsCtl(c)
    case _ => false
  }

  predicate StaysAll(s: State, text: string) {
    forall i :: 0 <= i < |text| ==> Stays(s, text[i])
  }

  function AbsorbParser(p: Parser, text: string): Parser {
    match p.state
    case InMethod => p.(methodHelper := p.methodHelper + text)
    case HeaderName => p.(headerHelper := p.headerHelper + text)
    case _ => p
  }

  function AbsorbRequest(p: Parser, r: Message, text: string): Message {
    match p.state
    case InUri => r.(uri := r.uri + text)
    case Major | Minor => r.(httpVersion := r.httpVersion + text)
    case HeaderValue => if text == "" then r else PushHeader(r, p.headerHelper, text)
    case _ => r
  }

  lemma StayStep(p: Parser, r: Message, c: char)
    requires Stays(p.state, c)
    ensures Step(p, r, c) == Consumed(AbsorbParser(p, [c]), AbsorbRequest(p, r, [c]), Indeterminate)
    ensures AbsorbParser(p, [c]).state == p.state
  {
  }

  lemma AbsorbTwice(p: Parser, r: Message, a: string, b: string)
    ensures AbsorbParser(AbsorbParser(p, a), b) == AbsorbParser(p, a + b)
    ensures AbsorbRequest(AbsorbParser(p, a), AbsorbRequest(p, r, a), b) == AbsorbRequest(p, r, a + b)
  {
    assert p.methodHelper + a + b == p.methodHelper + (a + b);
    assert p.headerHelper + a + b == p.headerHelper + (a + b);
    assert r.uri + a + b == r.uri + (a + b);
    assert r.httpVersion + a + b == r.httpVersion + (a + b);
    assert Get(r.headers, p.headerHelper) + a + b == Get(r.headers, p.headerHelper) + (a + b);
    assert a == "" ==> a + b == b;
    assert b == "" ==> a + b == a;
  }

  lemma SpanTail(s: State, data: string, i: nat, j: nat)
    requires i < j <= |data| && StaysAll(s, data[i..j])
    ensures StaysAll(s, data[i + 1..j])
  {
    hide Stays;
    assert data[i + 1..j] == data[i..j][1..];
  }

  /** A run of such characters is taken in one go. */
  lemma {:induction false} AtSpan(p: Parser, r: Message, data: string, i: nat, j: nat)
    requires i <= j <= |data| && StaysAll(p.state, data[i..j])
    ensures At(p, r, data, i) == At(AbsorbParser(p, data[i..j]), AbsorbRequest(p, r, data[i..j]), data, j)
    decreases j - i
  {
    if i == j {
      assert data[i..j] == "";
      assert p.methodHelper + "" == p.methodHelper && p.headerHelper + "" == p.headerHelper;
      assert r.uri + "" == r.uri && r.httpVersion + "" == r.httpVersion;
    } else {
      var c := data[i];
      assert c == data[i..j][0];
      assert data[i..j][1..] == data[i + 1..j];
      assert data[i..j] == [c] + data[i + 1..j];
      StayStep(p, r, c);
      AbsorbTwice(p, r, [c], data[i + 1..j]);
      hide *;
      AtStep(p, r, data, i);
      SpanTail(p.state, data, i, j);
      AtSpan(AbsorbParser(p, [c]), AbsorbRequest(p, r, [c]), data, i + 1, j);
    }
  }

  /** Where the run of such characters that begins at `i` ends. */
  function SpanEnd(s: State, data: string, i: nat): (j: nat)
    requires i <= |data|
    ensures i <= j <= |data|
    ensures StaysAll(s, data[i..j])
    ensures j < |data| ==> !Stays(s, data[j])
    decreases |data| - i
  {
    if i < |data| && Stays(s, data[i]) then
      var j := SpanEnd(s, data, i + 1);
      assert data[i..j] == [data[i]] + data[i + 1..j];
      j
    else i
  }

  // ----- One line -----

  /** The text of `data` from `i` to `j` is a field name and that from `j + 2` to `k` its value. */
  predicate FieldText(data: string, i: nat, j: nat, k: nat) {
    && i < j < j + 2 <= k < k + 2 <= |data|
    && StaysAll(HeaderName, data[i..j]) && data[j] == ':' && data[j + 1] == ' '
    && StaysAll(HeaderValue, data[j + 2..k]) && data[k] == '\r' && data[k + 1] == '\n'
  }

  lemma PushTwice(r: Message, name: string, value: string)
    ensures PushHeader(PushHeader(r, name, ""), name, value) == PushHeader(r, name, value)
    ensures value == "" ==> PushHeader(r, name, "") == PushHeader(r, name, value)
  {
    assert Get(r.headers, name) + "" == Get(r.headers, name);
    var h := r.headers[name := Get(r.headers, name)];
    assert h[name := Get(r.headers, name) + value] == r.headers[name := Get(r.headers, name) + value];
  }

  lemma FieldValueSteps(p: Parser, r: Message, data: string, j: nat, k: nat)
    requires j + 2 <= k < k + 2 <= |data| && p.state == HeaderName
    requires data[j] == ':' && data[j + 1] == ' '
    requires StaysAll(HeaderValue, data[j + 2..k]) && data[k] == '\r' && data[k + 1] == '\n'
    ensures At(p, r, data, j)
         == At(Parser(HeaderLineStart, p.methodHelper, ""),
               PushHeader(r, p.headerHelper, data[j + 2..k]), data, k + 2)
  {
    hide At, StaysAll, PushHeader, IsCtl, IsTokenChar;
    var name, value := p.headerHelper, data[j + 2..k];
    AtStep(p, r, data, j);
    AtStep(p.(state := SpaceBeforeHeaderValue), r, data, j + 1);
    var q := p.(state := HeaderValue);
    AtSpan(q, PushHeader(r, name, ""), data, j + 2, k);
    PushTwice(r, name, value);
    AtStep(q, PushHeader(r, name, value), data, k);
    AtStep(Parser(ExpectingNewline2, p.methodHelper, ""), PushHeader(r, name, value), data, k + 1);
  }

  lemma SpanFirst(s: State, data: string, i: nat, j: nat)
    requires i < j <= |data| && StaysAll(s, data[i..j])
    ensures Stays(s, data[i])
  {
    hide Stays;
    assert data[i] == data[i..j][0];
  }

  lemma FieldSteps(p: Parser, r: Message, data: string, i: nat, j: nat, k: nat)
    requires p.state == HeaderLineStart && p.headerHelper == "" && FieldText(data, i, j, k)
    ensures At(p, r, data, i) == At(p, PushHeader(r, data[i..j], data[j + 2..k]), data, k + 2)
  {
    hide At, StaysAll, PushHeader;
    var c := data[i];
    assert Stays(HeaderName, c) by {
      SpanFirst(HeaderName, data, i, j);
    }
    AtStep(p, r, data, i);
    SpanTail(HeaderName, data, i, j);
    var q := p.(state := HeaderName, headerHelper := [c]);
    assert "" + [c] == [c];
    AtSpan(q, r, data, i + 1, j);
    assert [c] + data[i + 1..j] == data[i..j];
    FieldValueSteps(q.(headerHelper := data[i..j]), r, data, j, k);
  }

  lemma SpanHead(s: State, data: string, i: nat, j: nat)
    requires i < j <= |data| && Stays(s, data[i]) && StaysAll(s, data[i + 1..j])
    ensures StaysAll(s, data[i..j])
  {
    hide Stays;
    assert data[i..j] == [data[i]] + data[i + 1..j];
  }

  /** A value is ended by a line end. */
  lemma LineEndNeeded(p: Parser, r: Message, data: string, k: nat)
    requires p.state == HeaderValue && k <= |data| && At(p, r, data, k).result == Good
    requires k < |data| ==> !Stays(HeaderValue, data[k])
    ensures k + 2 <= |data| && data[k] == '\r' && data[k + 1] == '\n'
  {
    hide At;
    if k == |data| { AtEnd(p, r, data, k); assert false; }
    AtStep(p, r, data, k);
    var p1 := Parser(ExpectingNewline2, p.methodHelper, "");
    if k + 1 == |data| { AtEnd(p1, r, data, k + 1); assert false; }
    AtStep(p1, r, data, k + 1);
  }

  /** The rest of a value, up to its line end. */
  lemma ValueNeeded(p: Parser, r: Message, data: string, i: nat) returns (k: nat)
    requires p.state == HeaderValue && i <= |data| && At(p, r, data, i).result == Good
    ensures i <= k < k + 2 <= |data| && StaysAll(HeaderValue, data[i..k])
    ensures data[k] == '\r' && data[k + 1] == '\n'
  {
    hide At, StaysAll, IsCtl;
    k := SpanEnd(HeaderValue, data, i);
    AtSpan(p, r, data, i, k);
    LineEndNeeded(p, AbsorbRequest(p, r, data[i..k]), data, k);
  }

  lemma FieldValueNeeded(p: Parser, r: Message, data: string, j: nat) returns (k: nat)
    requires p.state == HeaderName && j <= |data| && At(p, r, data, j).result == Good
    requires j < |data| ==> !Stays(HeaderName, data[j])
    ensures j + 2 <= k < k + 2 <= |data| && data[j] == ':' && data[j + 1] == ' '
    ensures StaysAll(HeaderValue, data[j + 2..k]) && data[k] == '\r' && data[k + 1] == '\n'
  {
    hide At, StaysAll, PushHeader;
    if j == |data| { AtEnd(p, r, data, j); assert false; }
    AtStep(p, r, data, j);
    var p1 := p.(state := SpaceBeforeHeaderValue);
    if j + 1 == |data| { AtEnd(p1, r, data, j + 1); assert false; }
    AtStep(p1, r, data, j + 1);
    k := ValueNeeded(p.(state := HeaderValue), PushHeader(r, p.headerHelper, ""), data, j + 2);
  }

  /** If the automaton succeeds from a line that begins with a name, the line is a field. */
  lemma FieldNeeded(p: Parser, r: Message, data: string, i: nat) returns (j: nat, k: nat)
    requires p.state == HeaderLineStart && p.headerHelper == "" && i <= |data|
    requires At(p, r, data, i).result == Good
    requires i < |data| && Stays(HeaderName, data[i])
    ensures FieldText(data, i, j, k)
  {
    hide At, StaysAll, PushHeader;
    AtStep(p, r, data, i);
    var q := p.(state := HeaderName, headerHelper := [data[i]]);
    assert "" + [data[i]] == [data[i]];
    j := SpanEnd(HeaderName, data, i + 1);
    AtSpan(q, r, data, i + 1, j);
    var q1 := AbsorbParser(q, data[i + 1..j]);
    k := FieldValueNeeded(q1, r, data, j);
    SpanHead(HeaderName, data, i, j);
  }

  /** A line that begins with white space, from `i` to `j`, before a text that ends at `k`. */
  predicate FoldText(data: string, i: nat, j: nat, k: nat) {
    && i < j <= k < k + 2 <= |data|
    && StaysAll(HeaderLws, data[i..j]) && StaysAll(HeaderValue, data[j..k]) && (j < k ==> data[j] != ' ')
    && data[k] == '\r' && data[k + 1] == '\n'
  }

  function FoldMeaning(r: Message, text: string): Message {
    r.(headers := MeaningOfLine(r.headers, Fold("", text)))
  }

  lemma AbsorbFold(p: Parser, r: Message, c: char, rest: string)
    requires p.state == HeaderValue && p.headerHelper == [c]
    ensures AbsorbRequest(p, r, rest) == FoldMeaning(r, [c] + rest) && AbsorbParser(p, rest) == p
  {
    assert ([c] + rest)[1..] == rest;
  }

  lemma FoldWordStart(p: Parser, r: Message, data: string, j: nat)
    requires p.state == HeaderLws && p.headerHelper == "" && j < |data|
    requires Stays(HeaderValue, data[j]) && data[j] != ' '
    ensures At(p, r, data, j) == At(p.(state := HeaderValue, headerHelper := [data[j]]), r, data, j + 1)
  {
    hide At;
    AtStep(p, r, data, j);
    assert "" + [data[j]] == [data[j]];
  }

  lemma ValueEnd(p: Parser, r: Message, data: string, k: nat)
    requires p.state == HeaderValue && k < |data| && data[k] == '\r'
    ensures At(p, r, data, k) == At(p.(state := ExpectingNewline2, headerHelper := ""), r, data, k + 1)
  {
    hide At;
    AtStep(p, r, data, k);
  }

  lemma FoldWordSteps(p: Parser, r: Message, data: string, j: nat, k: nat)
    requires p.state == HeaderLws && p.headerHelper == "" && j < k < |data|
    requires StaysAll(HeaderValue, data[j..k]) && data[j] != ' ' && data[k] == '\r'
    ensures At(p, r, data, j)
         == At(p.(state := ExpectingNewline2), FoldMeaning(r, data[j..k]), data, k + 1)
  {
    hide *;
    SpanFirst(HeaderValue, data, j, k);
    SpanTail(HeaderValue, data, j, k);
    FoldWordStart(p, r, data, j);
    var q := p.(state := HeaderValue, headerHelper := [data[j]]);
    AtSpan(q, r, data, j + 1, k);
    assert data[j..k] == [data[j]] + data[j + 1..k];
    AbsorbFold(q, r, data[j], data[j + 1..k]);
    ValueEnd(q, FoldMeaning(r, data[j..k]), data, k);
  }

  lemma FoldTextSteps(p: Parser, r: Message, data: string, j: nat, k: nat)
    requires p.state == HeaderLws && p.headerHelper == "" && j <= k < k + 2 <= |data|
    requires StaysAll(HeaderValue, data[j..k]) && (j < k ==> data[j] != ' ')
    requires data[k] == '\r' && data[k + 1] == '\n'
    ensures At(p, r, data, j)
         == At(p.(state := HeaderLineStart), FoldMeaning(r, data[j..k]), data, k + 2)
  {
    hide At, StaysAll;
    if j < k {
      hide FoldMeaning;
      FoldWordSteps(p, r, data, j, k);
    } else {
      AtStep(p, r, data, j);
    }
    AtStep(p.(state := ExpectingNewline2), FoldMeaning(r, data[j..k]), data, k + 1);
  }

  lemma FoldSteps(p: Parser, r: Message, data: string, i: nat, j: nat, k: nat)
    requires p.state == HeaderLineStart && p.headerHelper == "" && r.headers != map[]
    requires FoldText(data, i, j, k)
    ensures At(p, r, data, i) == At(p, FoldMeaning(r, data[j..k]), data, k + 2)
  {
    hide At, StaysAll;
    SpanFirst(HeaderLws, data, i, j);
    AtStep(p, r, data, i);
    SpanTail(HeaderLws, data, i, j);
    AtSpan(p.(state := HeaderLws), r, data, i + 1, j);
    FoldTextSteps(p.(state := HeaderLws), r, data, j, k);
  }

  lemma FoldTextNeeded(p: Parser, r: Message, data: string, j: nat) returns (k: nat)
    requires p.state == HeaderLws && p.headerHelper == "" && j <= |data|
    requires At(p, r, data, j).result == Good
    requires j < |data| ==> !Stays(HeaderLws, data[j])
    ensures j <= k < k + 2 <= |data| && StaysAll(HeaderValue, data[j..k]) && (j < k ==> data[j] != ' ')
    ensures data[k] == '\r' && data[k + 1] == '\n'
  {
    hide At;
    if j == |data| { AtEnd(p, r, data, j); assert false; }
    AtStep(p, r, data, j);
    if data[j] == '\r' {
      k := j;
      var q := p.(state := ExpectingNewline2);
      if j + 1 == |data| { AtEnd(q, r, data, j + 1); assert false; }
      AtStep(q, r, data, j + 1);
    } else {
      var q := p.(state := HeaderValue, headerHelper := [data[j]]);
      assert "" + [data[j]] == [data[j]] && data[j] != ' ' && Stays(HeaderValue, data[j]);
      hide *;
      k := ValueNeeded(q, r, data, j + 1);
      SpanHead(HeaderValue, data, j, k);
    }
  }

  lemma FoldNeeded(p: Parser, r: Message, data: string, i: nat) returns (j: nat, k: nat)
    requires p.state == HeaderLineStart && p.headerHelper == "" && i < |data|
    requires At(p, r, data, i).result == Good
    requires data[i] != '\r' && !Stays(HeaderName, data[i])
    ensures r.headers != map[] && FoldText(data, i, j, k)
  {
    hide At, StaysAll;
    AtStep(p, r, data, i);
    j := SpanEnd(HeaderLws, data, i + 1);
    AtSpan(p.(state := HeaderLws), r, data, i + 1, j);
    k := FoldTextNeeded(p.(state := HeaderLws), r, data, j);
    SpanHead(HeaderLws, data, i, j);
  }

  // ----- The lines of a header block -----

  /** `text` stands in `data` at `i`. */
  predicate Here(data: string, i: nat, text: string) {
    i + |text| <= |data| && data[i..i + |text|] == text
  }

  lemma HereParts(data: string, i: nat, a: string, b: string)
    ensures Here(data, i, a + b) <==> Here(data, i, a) && Here(data, i + |a|, b)
  {
    if Here(data, i, a + b) {
      assert data[i..i + |a|] == data[i..i + |a + b|][..|a|];
      assert data[i + |a|..i + |a| + |b|] == data[i..i + |a + b|][|a|..];
    }
    if Here(data, i, a) && Here(data, i + |a|, b) {
      assert data[i..i + |a + b|] == data[i..i + |a|] + data[i + |a|..i + |a| + |b|];
    }
  }

  lemma FieldTextIsLine(data: string, i: nat, j: nat, k: nat)
    requires FieldText(data, i, j, k)
    ensures var l := Field(data[i..j], data[j + 2..k]);
            ValidLine(l) && Here(data, i, RenderLine(l)) && i + |RenderLine(l)| == k + 2
  {
    assert data[i..k + 2] == data[i..j] + ": " + data[j + 2..k] + "\r\n";
  }

  lemma HerePair(data: string, i: nat, c: char, d: char)
    requires Here(data, i, [c, d])
    ensures i + 2 <= |data| && data[i] == c && data[i + 1] == d
  {
    assert data[i..i + 2][0] == c && data[i..i + 2][1] == d;
  }

  lemma HereText(data: string, i: nat, text: string)
    requires Here(data, i, text)
    ensures i + |text| <= |data| && data[i..i + |text|] == text
  {
  }

  lemma FieldParts(data: string, i: nat, name: string, value: string)
    requires Here(data, i, RenderLine(Field(name, value)))
    ensures Here(data, i, name) && Here(data, i + |name|, ": ") && Here(data, i + |name| + 2, value)
    ensures Here(data, i + |name| + 2 + |value|, "\r\n")
  {
    assert RenderLine(Field(name, value)) == name + ": " + value + "\r\n";
    hide *;
    HereParts(data, i, name + ": " + value, "\r\n");
    HereParts(data, i, name + ": ", value);
    HereParts(data, i, name, ": ");
  }

  lemma ValidStays(l: Line)
    requires ValidLine(l)
    ensures l.Field? ==> l.name != "" && StaysAll(HeaderName, l.name) && StaysAll(HeaderValue, l.value)
    ensures l.Fold? ==> l.blank != "" && StaysAll(HeaderLws, l.blank) && StaysAll(HeaderValue, l.text)
    ensures l.Fold? && l.text != "" ==> l.text[0] != ' '
  {
    hide IsCtl, IsTokenChar;
  }

  lemma LineIsFieldText(data: string, i: nat, name: string, value: string)
    requires ValidLine(Field(name, value)) && Here(data, i, RenderLine(Field(name, value)))
    ensures var j, k := i + |name|, i + |name| + 2 + |value|;
            k + 2 <= |data| && FieldText(data, i, j, k) && name == data[i..j] && value == data[j + 2..k]
  {
    ValidStays(Field(name, value));
    hide StaysAll, Here, RenderLine, ValidLine;
    FieldParts(data, i, name, value);
    HereText(data, i, name);
    HereText(data, i + |name| + 2, value);
    HerePair(data, i + |name|, ':', ' ');
    HerePair(data, i + |name| + 2 + |value|, '\r', '\n');
  }

  lemma FoldTextIsLine(data: string, i: nat, j: nat, k: nat)
    requires FoldText(data, i, j, k)
    ensures var l := Fold(data[i..j], data[j..k]);
            ValidLine(l) && Here(data, i, RenderLine(l)) && i + |RenderLine(l)| == k + 2
  {
    assert data[i..k + 2] == data[i..j] + data[j..k] + "\r\n";
  }

  lemma FoldParts(data: string, i: nat, blank: string, text: string)
    requires Here(data, i, RenderLine(Fold(blank, text)))
    ensures Here(data, i, blank) && Here(data, i + |blank|, text) && Here(data, i + |blank| + |text|, "\r\n")
  {
    assert RenderLine(Fold(blank, text)) == blank + text + "\r\n";
    hide *;
    HereParts(data, i, blank + text, "\r\n");
    HereParts(data, i, blank, text);
  }

  lemma LineIsFoldText(data: string, i: nat, blank: string, text: string)
    requires ValidLine(Fold(blank, text)) && Here(data, i, RenderLine(Fold(blank, text)))
    ensures var j, k := i + |blank|, i + |blank| + |text|;
            k + 2 <= |data| && FoldText(data, i, j, k) && blank == data[i..j] && text == data[j..k]
  {
    ValidStays(Fold(blank, text));
    hide StaysAll, Here, RenderLine, ValidLine;
    FoldParts(data, i, blank, text);
    HereText(data, i, blank);
    HereText(data, i + |blank|, text);
    HerePair(data, i + |blank| + |text|, '\r', '\n');
  }

  function After(r: Message, l: Line): Message {
    r.(headers := MeaningOfLine(r.headers, l))
  }

  lemma AfterLine(r: Message, l: Line)
    ensures l.Field? ==> After(r, l) == PushHeader(r, l.name, l.value)
    ensures l.Fold? ==> After(r, l) == FoldMeaning(r, l.text)
    ensures l.Field? ==> |RenderLine(l)| == |l.name| + 2 + |l.value| + 2
    ensures l.Fold? ==> |RenderLine(l)| == |l.blank| + |l.text| + 2
  {
  }

  lemma FieldTaken(p: Parser, r: Message, data: string, i: nat, name: string, value: string)
    requires p.state == HeaderLineStart && p.headerHelper == ""
    requires ValidLine(Field(name, value)) && Here(data, i, RenderLine(Field(name, value)))
    ensures i + |name| + 2 + |value| + 2 <= |data|
    ensures At(p, r, data, i) == At(p, PushHeader(r, name, value), data, i + |name| + 2 + |value| + 2)
  {
    hide *;
    LineIsFieldText(data, i, name, value);
    FieldSteps(p, r, data, i, i + |name|, i + |name| + 2 + |value|);
  }

  lemma FoldTaken(p: Parser, r: Message, data: string, i: nat, blank: string, text: string)
    requires p.state == HeaderLineStart && p.headerHelper == "" && r.headers != map[]
    requires ValidLine(Fold(blank, text)) && Here(data, i, RenderLine(Fold(blank, text)))
    ensures i + |blank| + |text| + 2 <= |data|
    ensures At(p, r, data, i) == At(p, FoldMeaning(r, text), data, i + |blank| + |text| + 2)
  {
    hide *;
    LineIsFoldText(data, i, blank, text);
    FoldSteps(p, r, data, i, i + |blank|, i + |blank| + |text|);
  }

  /** A valid line takes the automaton from line start to line start. */
  lemma LineSteps(p: Parser, r: Message, data: string, i: nat, l: Line)
    requires p.state == HeaderLineStart && p.headerHelper == ""
    requires ValidLine(l) && (l.Fold? ==> r.headers != map[]) && Here(data, i, RenderLine(l))
    ensures i + |RenderLine(l)| <= |data|
    ensures At(p, r, data, i) == At(p, After(r, l), data, i + |RenderLine(l)|)
  {
    AfterLine(r, l);
    hide *;
    if l.Field? {
      FieldTaken(p, r, data, i, l.name, l.value);
    } else {
      FoldTaken(p, r, data, i, l.blank, l.text);
    }
  }

  /** Only valid lines do. */
  lemma LineNeeded(p: Parser, r: Message, data: string, i: nat) returns (l: Line)
    requires p.state == HeaderLineStart && p.headerHelper == "" && i < |data| && data[i] != '\r'
    requires At(p, r, data, i).result == Good
    ensures ValidLine(l) && (l.Fold? ==> r.headers != map[]) && Here(data, i, RenderLine(l))
  {
    hide At, StaysAll, ValidLine, RenderLine, Step, IsCtl, IsTokenChar;
    if Stays(HeaderName, data[i]) {
      var j, k := FieldNeeded(p, r, data, i);
      FieldTextIsLine(data, i, j, k);
      l := Field(data[i..j], data[j + 2..k]);
    } else {
      var j, k := FoldNeeded(p, r, data, i);
      FoldTextIsLine(data, i, j, k);
      l := Fold(data[i..j], data[j..k]);
    }
  }

  function Block(lines: seq<Line>): string {
    RenderLines(lines) + "\r\n"
  }

  lemma BlockParts(data: string, i: nat, lines: seq<Line>)
    requires lines != []
    ensures Here(data, i, Block(lines))
       <==> Here(data, i, RenderLine(lines[0])) && Here(data, i + |RenderLine(lines[0])|, Block(lines[1..]))
    ensures |Block(lines)| == |RenderLine(lines[0])| + |Block(lines[1..])|
  {
    hide Here, RenderLine;
    assert Block(lines) == RenderLine(lines[0]) + Block(lines[1..]);
    HereParts(data, i, RenderLine(lines[0]), Block(lines[1..]));
  }

  lemma LineStartsOk(l: Line)
    requires ValidLine(l)
    ensures RenderLine(l) != "" && RenderLine(l)[0] != '\r'
  {
  }

  lemma AfterHasHeaders(r: Message, l: Line)
    requires l.Fold? ==> r.headers != map[]
    ensures After(r, l).headers != map[]
  {
    var h := After(r, l).headers;
    match l {
      case Field(name, _) => assert name in h;
      case Fold(_, text) =>
        if |text| > 1 {
          assert [text[0]] in h;
        }
    }
  }

  predicate Starts(r: Message, lines: seq<Line>) {
    ValidLines(lines) && (r.headers == map[] && lines != [] ==> lines[0].Field?)
  }

  lemma StartsTail(r: Message, lines: seq<Line>)
    requires Starts(r, lines) && lines != []
    ensures ValidLine(lines[0]) && (lines[0].Fold? ==> r.headers != map[])
    ensures Starts(After(r, lines[0]), lines[1..])
  {
    hide ValidLine, MeaningOfLine;
    AfterHasHeaders(r, lines[0]);
  }

  lemma StartsCons(r: Message, l: Line, lines: seq<Line>)
    requires ValidLine(l) && (l.Fold? ==> r.headers != map[]) && Starts(After(r, l), lines)
    ensures Starts(r, [l] + lines)
  {
    hide ValidLine;
  }

  function Completed(p: Parser, r: Message, lines: seq<Line>, i: nat): Outcome {
    Outcome(Good, p.(state := ExpectingNewline3),
            r.(headers := MeaningOfLines(r.headers, lines)), i + |Block(lines)|)
  }

  lemma CompletedCons(p: Parser, r: Message, lines: seq<Line>, i: nat)
    requires lines != []
    ensures Completed(p, After(r, lines[0]), lines[1..], i + |RenderLine(lines[0])|) == Completed(p, r, lines, i)
  {
    hide MeaningOfLine, RenderLine, Block;
    BlockParts("", 0, lines);
  }

  lemma BlockEndSteps(p: Parser, r: Message, data: string, i: nat)
    requires p.state == HeaderLineStart && i <= |data| && Here(data, i, Block([]))
    ensures At(p, r, data, i) == Completed(p, r, [], i)
  {
    assert Block([]) == "\r\n";
    assert r.(headers := MeaningOfLines(r.headers, [])) == r;
    HerePair(data, i, '\r', '\n');
    hide At;
    AtStep(p, r, data, i);
    AtStep(p.(state := ExpectingNewline3), r, data, i + 1);
  }

  /** A valid block of lines, and the empty line after it, complete the request. */
  lemma {:induction false} BlockSteps(p: Parser, r: Message, data: string, i: nat, lines: seq<Line>)
    requires p.state == HeaderLineStart && p.headerHelper == ""
    requires Starts(r, lines) && i <= |data| && Here(data, i, Block(lines))
    ensures At(p, r, data, i) == Completed(p, r, lines, i)
    decreases |lines|
  {
    hide *;
    if lines == [] {
      BlockEndSteps(p, r, data, i);
    } else {
      StartsTail(r, lines);
      BlockParts(data, i, lines);
      LineSteps(p, r, data, i, lines[0]);
      CompletedCons(p, r, lines, i);
      BlockSteps(p, After(r, lines[0]), data, i + |RenderLine(lines[0])|, lines[1..]);
    }
  }

  lemma HereTwo(data: string, i: nat, c: char, d: char)
    requires i + 2 <= |data| && data[i] == c && data[i + 1] == d
    ensures Here(data, i, [c, d])
  {
    assert data[i..i + 2] == [c, d];
  }

  lemma EmptyBlock(r: Message)
    ensures Block([]) == ['\r', '\n'] && Starts(r, [])
  {
    assert Block([]) == "\r\n";
  }

  lemma BlockEndNeeded(p: Parser, r: Message, data: string, i: nat)
    requires p.state == HeaderLineStart && i < |data| && data[i] == '\r'
    requires At(p, r, data, i).result == Good
    ensures Here(data, i, Block([])) && Starts(r, [])
  {
    hide At;
    AtStep(p, r, data, i);
    var q := p.(state := ExpectingNewline3);
    if i + 1 == |data| { AtEnd(q, r, data, i + 1); assert false; }
    AtStep(q, r, data, i + 1);
    hide *;
    HereTwo(data, i, '\r', '\n');
    EmptyBlock(r);
  }

  lemma BlockCons(r: Message, data: string, i: nat, l: Line, rest: seq<Line>)
    requires ValidLine(l) && (l.Fold? ==> r.headers != map[]) && Here(data, i, RenderLine(l))
    requires Starts(After(r, l), rest) && Here(data, i + |RenderLine(l)|, Block(rest))
    ensures Starts(r, [l] + rest) && Here(data, i, Block([l] + rest))
  {
    hide *;
    StartsCons(r, l, rest);
    assert ([l] + rest)[0] == l && ([l] + rest)[1..] == rest;
    BlockParts(data, i, [l] + rest);
  }

  /** Nothing else does. */
  lemma {:induction false} BlockNeeded(p: Parser, r: Message, data: string, i: nat) returns (lines: seq<Line>)
    requires p.state == HeaderLineStart && p.headerHelper == "" && i <= |data|
    requires At(p, r, data, i).result == Good
    ensures Starts(r, lines) && Here(data, i, Block(lines))
    decreases |data| - i
  {
    hide *;
    if i == |data| { AtEnd(p, r, data, i); assert false; }
    if data[i] == '\r' {
      BlockEndNeeded(p, r, data, i);
      lines := [];
    } else {
      var l := LineNeeded(p, r, data, i);
      LineSteps(p, r, data, i, l);
      LineStartsOk(l);
      var rest := BlockNeeded(p, After(r, l), data, i + |RenderLine(l)|);
      BlockCons(r, data, i, l, rest);
      lines := [l] + rest;
    }
  }
}
