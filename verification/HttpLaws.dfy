/** Parsing what the echo handler and the proxy print. */
module HttpLaws {
  import opened Basics
  import opened OrderedMap
  import opened HttpParser
  import opened HttpGrammar
  import opened HttpLanguage
  import opened HttpData
  import opened HttpPrinters

  // ----- Requests that can be printed -----

  predicate HeadersOk(h: map<string, string>) {
    forall k :: k in h && h[k] != "" ==> IsToken(k) && NoCtl(h[k])
  }

  ghost predicate IsVersion(v: string) {
    exists major, minor :: IsNumber(major) && IsNumber(minor) && v == major + "." + minor
  }

  ghost predicate WellFormed(r: Message) {
    IsUri(r.uri) && IsVersion(r.httpVersion) && HeadersOk(r.headers)
  }

  /** The headers the echo handler prints. */
  function NonEmpty(h: map<string, string>): map<string, string> {
    map k | k in h && h[k] != "" :: h[k]
  }

  /** The headers the proxy passes on. */
  function Kept(h: map<string, string>): map<string, string> {
    map k | k in h && h[k] != "" && k != "Accept-Encoding" :: if k == "Connection" then "close" else h[k]
  }

  /** What the other side of the proxy sees: one Connection header, which says to close. */
  function Forwarded(h: map<string, string>): map<string, string> {
    (map k | k in h && h[k] != "" && k != "Accept-Encoding" :: h[k])["Connection" := "close"]
  }

  // ----- Fields of the grammar -----

  function LinesOf(es: seq<Entry<string>>): seq<Line> {
    if es == [] then []
    else (if es[0].value == "" then [] else [Field(es[0].key, es[0].value)]) + LinesOf(es[1..])
  }

  lemma {:induction false} LinesText(es: seq<Entry<string>>)
    ensures RenderLines(LinesOf(es)) == FieldsText(es)
  {
    if es == [] {
    } else {
      LinesText(es[1..]);
      var rest := LinesOf(es[1..]);
      if es[0].value == "" {
        assert LinesOf(es) == rest;
      } else {
        assert LinesOf(es)[1..] == rest;
      }
    }
  }

  predicate EntriesOk(es: seq<Entry<string>>) {
    forall i :: 0 <= i < |es| && es[i].value != "" ==> IsToken(es[i].key) && NoCtl(es[i].value)
  }

  predicate AllFields(lines: seq<Line>) {
    forall i :: 0 <= i < |lines| ==> lines[i].Field?
  }

  lemma {:induction false} LinesValid(es: seq<Entry<string>>)
    requires EntriesOk(es)
    ensures ValidLines(LinesOf(es)) && AllFields(LinesOf(es))
  {
    hide IsToken, NoCtl;
    if es == [] {
    } else {
      assert forall i :: 0 <= i < |es[1..]| ==> es[1..][i] == es[i + 1];
      LinesValid(es[1..]);
    }
  }

  lemma NonEmptyCons(es: seq<Entry<string>>)
    requires Ascending(es) && es != []
    ensures NonEmpty(ToMap(es))
         == if es[0].value == "" then NonEmpty(ToMap(es[1..]))
            else NonEmpty(ToMap(es[1..]))[es[0].key := es[0].value]
    ensures es[0].key !in ToMap(es[1..])
  {
    AscendingHead(es);
  }

  lemma LinesCons(es: seq<Entry<string>>, h: map<string, string>)
    requires es != [] && es[0].key !in h
    ensures MeaningOfLines(h, LinesOf(es))
         == MeaningOfLines(if es[0].value == "" then h else h[es[0].key := es[0].value], LinesOf(es[1..]))
  {
    var e, rest := es[0], LinesOf(es[1..]);
    if e.value == "" {
      assert LinesOf(es) == rest;
    } else {
      assert LinesOf(es)[0] == Field(e.key, e.value) && LinesOf(es)[1..] == rest;
      assert "" + e.value == e.value;
    }
  }

  lemma DisjointCons(h: map<string, string>, es: seq<Entry<string>>)
    requires Ascending(es) && es != [] && h.Keys !! ToMap(es).Keys
    ensures es[0].key !in h && Ascending(es[1..]) && h.Keys !! ToMap(es[1..]).Keys
    ensures h[es[0].key := es[0].value].Keys !! ToMap(es[1..]).Keys
  {
    AscendingHead(es);
    assert es[0].key in ToMap(es);
    assert ToMap(es).Keys == ToMap(es[1..]).Keys + {es[0].key};
  }

  lemma NonEmptyKeys(h: map<string, string>, k: string)
    ensures k !in h ==> k !in NonEmpty(h)
  {
  }

  /** Distinct fields mean the map they were printed from. */
  lemma {:induction false} LinesMeaning(h: map<string, string>, es: seq<Entry<string>>)
    requires Ascending(es) && h.Keys !! ToMap(es).Keys
    ensures MeaningOfLines(h, LinesOf(es)) == h + NonEmpty(ToMap(es))
    decreases |es|
  {
    if es == [] {
      assert h + NonEmpty(map[]) == h;
    } else {
      hide *;
      NonEmptyCons(es);
      DisjointCons(h, es);
      LinesCons(es, h);
      var e, m := es[0], NonEmpty(ToMap(es[1..]));
      LinesMeaning(if e.value == "" then h else h[e.key := e.value], es[1..]);
      NonEmptyKeys(ToMap(es[1..]), e.key);
      UnionPut(h, m, e.key, e.value);
    }
  }

  lemma EntriesOfHeaders(h: map<string, string>)
    requires HeadersOk(h)
    ensures EntriesOk(FromMap(h))
  {
    hide IsToken, NoCtl;
    var es := FromMap(h);
    forall i | 0 <= i < |es| ensures es[i].key in h && h[es[i].key] == es[i].value {
      EntryInMap(es, i);
    }
  }

  lemma LengthUnchanged(h: map<string, string>)
    ensures ContentLength(NonEmpty(h)) == ContentLength(h)
    ensures ContentLength(Forwarded(h)) == ContentLength(h)
  {
  }

  lemma MethodRoundTrip(m: MethodEnum)
    ensures MethodOf(MethodName(m)) == m && IsToken(MethodName(m))
  {
  }

  // ----- The echo handler -----

  ghost function EchoSyntax(r: Message, major: string, minor: string): Syntax {
    Syntax(MethodName(r.method_), r.uri, major, minor, LinesOf(FromMap(r.headers)))
  }

  lemma EchoRendered(r: Message, major: string, minor: string)
    requires r.httpVersion == major + "." + minor
    ensures EchoText(r) == Render(EchoSyntax(r, major, minor)) + r.body
  {
    LinesText(FromMap(r.headers));
    hide MethodName, FieldsText, LinesOf, RenderLines, FromMap;
    var start := MethodName(r.method_) + " " + r.uri + " HTTP/";
    assert start + r.httpVersion + "\r\n" == start + major + "." + minor + "\r\n";
  }

  lemma EchoValid(r: Message, major: string, minor: string)
    requires WellFormed(r) && IsNumber(major) && IsNumber(minor)
    ensures Valid(EchoSyntax(r, major, minor))
  {
    EntriesOfHeaders(r.headers);
    LinesValid(FromMap(r.headers));
    MethodRoundTrip(r.method_);
    hide IsToken, IsUri, IsNumber, ValidLine, MethodName, LinesOf, FromMap;
  }

  lemma EchoMeaning(r0: Message, r: Message, major: string, minor: string)
    requires r.httpVersion == major + "." + minor
    ensures Meaning(EchoSyntax(r, major, minor), r0)
         == r.(headers := NonEmpty(r.headers), body := r0.body)
  {
    MethodRoundTrip(r.method_);
    LinesMeaning(map[], FromMap(r.headers));
    hide MethodName, MethodOf, LinesOf, FromMap, MeaningOfLines, NonEmpty;
    assert map[] + NonEmpty(r.headers) == NonEmpty(r.headers);
  }

  lemma PrintedRoundTrip(r0: Message, r: Message, junk: string)
    requires Blank(r0) && WellFormed(r)
    ensures var text := EchoText(r);
            var d := ParseData(FRESH, 0, r0, Buffer(text, junk), |text|);
            && d.request.(body := "") == r.(headers := WithLength(NonEmpty(r.headers)), body := "")
            && (d.result == Success(Good) && d.request == r.(headers := WithLength(NonEmpty(r.headers)))
                <==> NulFree(r.body) && ContentLength(r.headers) == Success(|r.body|))
  {
    var major, minor :| IsNumber(major) && IsNumber(minor) && r.httpVersion == major + "." + minor;
    var m := EchoSyntax(r, major, minor);
    EchoRendered(r, major, minor);
    EchoValid(r, major, minor);
    EchoMeaning(r0, r, major, minor);
    LengthUnchanged(r.headers);
    hide *;
    BodyRecovered(r0, m, r.body, junk);
  }

  // What is read back was well-formed.

  /** A header of a parsed request; the name may be the first character of a folded line. */
  predicate Shaped(name: string, value: string) {
    NoCtl(value) && (IsToken(name) || (|name| == 1 && !IsCtl(name[0]) && name[0] != ' '))
  }

  predicate AllShaped(h: map<string, string>) {
    forall k :: k in h ==> Shaped(k, h[k])
  }

  lemma LineShaped(h: map<string, string>, l: Line)
    requires AllShaped(h) && ValidLine(l)
    ensures AllShaped(MeaningOfLine(h, l))
  {
    hide IsToken, IsCtl;
    match l {
      case Field(name, value) => assert NoCtl(Get(h, name) + value);
      case Fold(_, text) =>
        if |text| > 1 {
          assert NoCtl(Get(h, [text[0]]) + text[1..]);
        }
    }
  }

  lemma {:induction false} LinesShaped(h: map<string, string>, lines: seq<Line>)
    requires AllShaped(h) && ValidLines(lines)
    ensures AllShaped(MeaningOfLines(h, lines))
    decreases |lines|
  {
    hide AllShaped, ValidLine, MeaningOfLine;
    if lines == [] {
    } else {
      LineShaped(h, lines[0]);
      LinesShaped(MeaningOfLine(h, lines[0]), lines[1..]);
    }
  }

  predicate EntriesShaped(es: seq<Entry<string>>) {
    forall i :: 0 <= i < |es| && es[i].value != "" ==> Shaped(es[i].key, es[i].value)
  }

  lemma FieldsTextCons(es: seq<Entry<string>>)
    requires es != []
    ensures FieldsText(es) == FieldLine(es[0]) + FieldsText(es[1..])
  {
  }

  lemma FieldsTextParts(data: string, i: nat, es: seq<Entry<string>>)
    requires es != [] && Here(data, i, FieldsText(es))
    ensures Here(data, i, FieldLine(es[0])) && Here(data, i + |FieldLine(es[0])|, FieldsText(es[1..]))
  {
    hide *;
    FieldsTextCons(es);
    HereParts(data, i, FieldLine(es[0]), FieldsText(es[1..]));
  }

  /** A line cannot begin with a name that is no token. */
  lemma NameIsToken(p: Parser, r: Message, data: string, i: nat, e: Entry<string>)
    requires p.state == HeaderLineStart && i <= |data| && At(p, r, data, i).result == Good
    requires Shaped(e.key, e.value) && e.value != "" && Here(data, i, FieldLine(e))
    ensures IsToken(e.key)
  {
    hide At;
    if !IsToken(e.key) {
      assert FieldLine(e)[0] == e.key[0];
      assert data[i] == data[i..i + |FieldLine(e)|][0];
      assert !IsTokenChar(e.key[0]);
      AtStep(p, r, data, i);
      assert false;
    }
  }

  lemma FieldLineRendered(e: Entry<string>)
    requires e.value != ""
    ensures FieldLine(e) == RenderLine(Field(e.key, e.value))
  {
  }

  lemma ShapedTail(es: seq<Entry<string>>)
    requires es != [] && EntriesShaped(es)
    ensures EntriesShaped(es[1..]) && (es[0].value != "" ==> Shaped(es[0].key, es[0].value))
  {
    hide Shaped;
  }

  lemma EntriesOkCons(es: seq<Entry<string>>)
    requires es != [] && EntriesOk(es[1..])
    requires es[0].value != "" ==> IsToken(es[0].key) && NoCtl(es[0].value)
    ensures EntriesOk(es)
  {
    hide IsToken, NoCtl;
    assert forall i :: 1 <= i < |es| ==> es[i] == es[1..][i - 1];
  }

  lemma ShapedValue(name: string, value: string)
    requires Shaped(name, value)
    ensures NoCtl(value) && (IsToken(name) ==> ValidLine(Field(name, value)))
  {
  }

  lemma NothingHere(data: string, i: nat, e: Entry<string>)
    ensures e.value == "" ==> FieldLine(e) == ""
    ensures EntriesOk([])
  {
  }

  /** Printed fields that are accepted have names and values a request can have. */
  lemma {:induction false} FieldsNeeded(p: Parser, r: Message, data: string, i: nat, es: seq<Entry<string>>)
    requires p.state == HeaderLineStart && p.headerHelper == "" && i <= |data|
    requires At(p, r, data, i).result == Good && Here(data, i, FieldsText(es)) && EntriesShaped(es)
    ensures EntriesOk(es)
    decreases |es|
  {
    hide *;
    if es == [] {
      NothingHere(data, i, Entry("", ""));
    } else {
      var e := es[0];
      FieldsTextParts(data, i, es);
      ShapedTail(es);
      NothingHere(data, i, e);
      if e.value == "" {
        FieldsNeeded(p, r, data, i, es[1..]);
      } else {
        NameIsToken(p, r, data, i, e);
        ShapedValue(e.key, e.value);
        FieldLineRendered(e);
        LineSteps(p, r, data, i, Field(e.key, e.value));
        FieldsNeeded(p, After(r, Field(e.key, e.value)), data, i + |FieldLine(e)|, es[1..]);
      }
      EntriesOkCons(es);
    }
  }

  lemma ParsedHeaders(h: map<string, string>, parsed: map<string, string>, kept: map<string, string>)
    requires AllShaped(parsed) && WithLength(parsed) == WithLength(kept)
    requires forall k :: k in h && h[k] != "" ==> k in kept && kept[k] == h[k]
    ensures forall k :: k in h && h[k] != "" ==> Shaped(k, h[k])
  {
    hide Shaped;
    forall k | k in h && h[k] != "" ensures Shaped(k, h[k]) {
      var a, b := WithLength(parsed), WithLength(kept);
      assert b[k] == h[k] && k in a && a[k] == h[k];
      assert k in parsed && parsed[k] == h[k];
    }
  }

  lemma ShapedEntries(es: seq<Entry<string>>)
    requires Ascending(es) && forall k :: k in ToMap(es) && ToMap(es)[k] != "" ==> Shaped(k, ToMap(es)[k])
    ensures EntriesShaped(es)
  {
    hide Shaped, ToMap, Ascending;
    forall i | 0 <= i < |es| && es[i].value != "" ensures Shaped(es[i].key, es[i].value) {
      EntryInMap(es, i);
    }
  }

  lemma OkFromEntries(es: seq<Entry<string>>)
    requires EntriesOk(es)
    ensures HeadersOk(ToMap(es))
  {
    hide IsToken, NoCtl, ToMap;
    forall k | k in ToMap(es) && ToMap(es)[k] != "" ensures IsToken(k) && NoCtl(ToMap(es)[k]) {
      var i := MapInEntries(es, k);
    }
  }

  lemma TextsHere(a: string, b: string, c: string)
    ensures Here(a + b + c, 0, a) && Here(a + b + c, |a|, b)
  {
    assert (a + b + c)[0..|a|] == a && (a + b + c)[|a|..|a| + |b|] == b;
  }

  lemma MeaningParts(m: Syntax, r0: Message)
    requires Valid(m)
    ensures ValidRequestLine(m) && ValidLines(m.lines) && AllShaped(map[])
    ensures Meaning(m, r0).uri == m.uri && Meaning(m, r0).httpVersion == m.major + "." + m.minor
    ensures Meaning(m, r0).headers == MeaningOfLines(map[], m.lines)
  {
  }

  lemma RunIsAt(r: Message, data: string)
    ensures At(FRESH, r, data, 0) == Run(FRESH, r, data)
  {
    assert data[0..] == data;
  }

  lemma HeadIsRequestLine(m: Syntax)
    ensures m.method_ + " " + m.uri + " HTTP/" + (m.major + "." + m.minor) + "\r\n" == RequestLine(m)
  {
  }

  /**
    * A text that begins with a printed request line and printed fields, and is accepted with
    * that method, URI and version and with those headers, has a valid URI and valid fields.
    */
  lemma ReadBackIsOk(r0: Message, text: string, method_: MethodEnum, uri: string, version: string,
                     es: seq<Entry<string>>, kept: map<string, string>)
    requires Blank(r0) && Run(FRESH, r0, text).result == Good && Ascending(es)
    requires var r := Run(FRESH, r0, text).request;
             r.uri == uri && r.httpVersion == version && WithLength(r.headers) == WithLength(kept)
    requires forall k :: k in ToMap(es) && ToMap(es)[k] != "" ==> k in kept && kept[k] == ToMap(es)[k]
    requires var head := MethodName(method_) + " " + uri + " HTTP/" + version + "\r\n";
             Here(text, 0, head) && Here(text, |head|, FieldsText(es))
    ensures IsUri(uri) && IsVersion(version) && HeadersOk(ToMap(es))
  {
    var head := MethodName(method_) + " " + uri + " HTTP/" + version + "\r\n";
    hide Run, Valid, Meaning, Render, WithLength, Blank, Here, MethodName, FieldsText, ToMap, Ascending, IsToken,
         IsUri, IsNumber, AllShaped, ValidLine, EntriesOk, EntriesShaped, MeaningOfLines;
    var m := AcceptedIsGrammar(r0, text);
    GrammarAccepted(r0, text, m);
    MeaningParts(m, r0);
    LinesShaped(map[], m.lines);
    ParsedHeaders(ToMap(es), Run(FRESH, r0, text).request.headers, kept);
    ShapedEntries(es);
    var m0 := Syntax(MethodName(method_), uri, m.major, m.minor, []);
    HeadIsRequestLine(m0);
    MethodRoundTrip(method_);
    RequestLineTaken(r0, text, m0);
    RunIsAt(r0, text);
    FieldsNeeded(Parser(HeaderLineStart, m0.method_, ""), Started(m0, r0), text, |head|, es);
    OkFromEntries(es);
  }

  lemma EchoTextParts(r: Message)
    ensures Here(EchoText(r), 0, EchoHead(r)) && Here(EchoText(r), |EchoHead(r)|, FieldsText(FromMap(r.headers)))
  {
    hide EchoHead, FieldsText, FromMap;
    var a, b, c := EchoHead(r), FieldsText(FromMap(r.headers)), "\r\n" + r.body;
    assert EchoText(r) == a + b + c;
    TextsHere(a, b, c);
  }

  lemma NonEmptyKept(h: map<string, string>)
    ensures forall k :: k in h && h[k] != "" ==> k in NonEmpty(h) && NonEmpty(h)[k] == h[k]
  {
  }

  /** A request that is read back from its text was well-formed. */
  lemma ReadBackIsWellFormed(r0: Message, r: Message)
    requires Blank(r0) && Run(FRESH, r0, EchoText(r)).result == Good
    requires var o := Run(FRESH, r0, EchoText(r)).request;
             && o.uri == r.uri && o.httpVersion == r.httpVersion
             && WithLength(o.headers) == WithLength(NonEmpty(r.headers))
    ensures WellFormed(r)
  {
    EchoTextParts(r);
    NonEmptyKept(r.headers);
    assert EchoHead(r) == MethodName(r.method_) + " " + r.uri + " HTTP/" + r.httpVersion + "\r\n";
    hide Run, Blank, Here, MethodName, FieldsText, FromMap, WithLength, NonEmpty, EchoText, EchoHead, IsUri, IsVersion,
         HeadersOk, ToMap, Ascending;
    ReadBackIsOk(r0, EchoText(r), r.method_, r.uri, r.httpVersion, FromMap(r.headers), NonEmpty(r.headers));
  }

  lemma ReadBackRun(r0: Message, text: string, junk: string)
    requires Blank(r0)
    ensures var d := ParseData(FRESH, 0, r0, Buffer(text, junk), |text|);
            var o := Run(FRESH, r0, text);
            d.result == Success(Good) ==>
              && o.result == Good && d.request.headers == WithLength(o.request.headers)
              && d.request.(headers := o.request.headers, body := o.request.body) == o.request
  {
    assert Buffer(text, junk)[..|text|] == text;
    hide Run, Buffer, WithLength, ContentLength, CString;
  }

  /**
    * A request is read back from its echo, with the headers that were printed and the body,
    * if and only if it is well-formed and its body has no NUL and the length it declares.
    * All but the body of a well-formed request is read back in any case.
    */
  lemma EchoRoundTrip(r0: Message, r: Message, junk: string)
    requires Blank(r0)
    ensures var text := EchoText(r);
            var d := ParseData(FRESH, 0, r0, Buffer(text, junk), |text|);
            && (WellFormed(r) ==>
                  d.request.(body := "") == r.(headers := WithLength(NonEmpty(r.headers)), body := ""))
            && (d.result == Success(Good) && d.request == r.(headers := WithLength(NonEmpty(r.headers)))
                <==> WellFormed(r) && NulFree(r.body) && ContentLength(r.headers) == Success(|r.body|))
  {
    var text := EchoText(r);
    assert |text| <= |Buffer(text, junk)|;
    hide *;
    var d := ParseData(FRESH, 0, r0, Buffer(text, junk), |text|);
    if WellFormed(r) {
      PrintedRoundTrip(r0, r, junk);
    } else if d.result == Success(Good) && d.request == r.(headers := WithLength(NonEmpty(r.headers))) {
      ReadBackRun(r0, text, junk);
      ReadBackIsWellFormed(r0, r);
    }
  }

  // ----- Parsed requests -----

  /** Header names are tokens, and values have no control characters. */
  predicate HeadersParsed(h: map<string, string>) {
    forall k :: k in h ==> IsToken(k) && NoCtl(h[k])
  }

  /** A folded line gives its first character as a header name, if anything follows it. */
  predicate NamesToken(l: Line) {
    l.Fold? && |l.text| > 1 ==> IsTokenChar(l.text[0])
  }

  predicate FoldsNameTokens(lines: seq<Line>) {
    forall i :: 0 <= i < |lines| ==> NamesToken(lines[i])
  }

  lemma LineParsed(h: map<string, string>, l: Line)
    requires HeadersParsed(h) && ValidLine(l) && NamesToken(l)
    ensures HeadersParsed(MeaningOfLine(h, l))
  {
    hide IsTokenChar, IsCtl;
    match l {
      case Field(name, value) => assert NoCtl(Get(h, name) + value);
      case Fold(_, text) =>
        if |text| > 1 {
          assert NoCtl(Get(h, [text[0]]) + text[1..]);
        }
    }
  }

  lemma {:induction false} LinesParsed(h: map<string, string>, lines: seq<Line>)
    requires HeadersParsed(h) && ValidLines(lines) && FoldsNameTokens(lines)
    ensures HeadersParsed(MeaningOfLines(h, lines))
    decreases |lines|
  {
    hide HeadersParsed, ValidLine, MeaningOfLine, NamesToken;
    if lines == [] {
    } else {
      LineParsed(h, lines[0]);
      LinesParsed(MeaningOfLine(h, lines[0]), lines[1..]);
    }
  }

  lemma {:induction false} HeaderStays(h: map<string, string>, lines: seq<Line>, k: string)
    requires k in h && h[k] != ""
    ensures k in MeaningOfLines(h, lines) && MeaningOfLines(h, lines)[k] != ""
    decreases |lines|
  {
    if lines == [] {
    } else {
      HeaderStays(MeaningOfLine(h, lines[0]), lines[1..], k);
    }
  }

  lemma {:induction false} FoldNames(h: map<string, string>, lines: seq<Line>, i: nat)
    requires i < |lines| && lines[i].Fold? && |lines[i].text| > 1
    ensures var k := [lines[i].text[0]];
            k in MeaningOfLines(h, lines) && MeaningOfLines(h, lines)[k] != ""
    decreases |lines|
  {
    if i == 0 {
      HeaderStays(MeaningOfLine(h, lines[0]), lines[1..], [lines[0].text[0]]);
    } else {
      hide MeaningOfLine;
      FoldNames(MeaningOfLine(h, lines[0]), lines[1..], i - 1);
    }
  }

  lemma NoHeadersParsed()
    ensures HeadersParsed(map[])
  {
  }

  /**
    * A request that was parsed can be printed and parsed again if and only if no folded line
    * names a header that is no token.
    */
  lemma ParsedIsWellFormed(r0: Message, m: Syntax)
    requires Valid(m)
    ensures WellFormed(Meaning(m, r0)) <==> FoldsNameTokens(m.lines)
  {
    MeaningParts(m, r0);
    assert IsUri(m.uri) && IsNumber(m.major) && IsNumber(m.minor);
    var h := MeaningOfLines(map[], m.lines);
    hide NoCtl, IsUri, IsNumber, ValidLine, MeaningOfLines, MethodOf, Meaning, Valid, IsTokenChar;
    if FoldsNameTokens(m.lines) {
      NoHeadersParsed();
      LinesParsed(map[], m.lines);
    } else {
      var i :| 0 <= i < |m.lines| && !NamesToken(m.lines[i]);
      FoldNames(map[], m.lines, i);
      var k := [m.lines[i].text[0]];
      assert k in h && h[k] != "" && !IsTokenChar(k[0]);
      assert !HeadersOk(h);
    }
  }

  /** A folded line whose first character is no token character. */
  function FoldedRequest(): Syntax {
    Syntax("GET", "/", "1", "1", [Field("A", "b"), Fold(" ", "(x")])
  }

  lemma FoldedLines()
    ensures RenderLines([Fold(" ", "(x")]) == " (x\r\n"
  {
    assert [Fold(" ", "(x")][1..] == [] && RenderLines([]) == "";
    hide RenderLines;
  }

  lemma FoldedFields()
    ensures RenderLines(FoldedRequest().lines) == "A: b\r\n (x\r\n"
  {
    var lines := FoldedRequest().lines;
    assert lines[0] == Field("A", "b") && lines[1..] == [Fold(" ", "(x")];
    assert RenderLine(lines[0]) == "A: b\r\n";
    FoldedLines();
    assert RenderLines(lines) == RenderLine(lines[0]) + RenderLines(lines[1..]);
  }

  lemma FoldedRequestLine()
    ensures RequestLine(FoldedRequest()) == "GET / HTTP/1.1\r\n"
  {
  }

  lemma FoldedText()
    ensures Render(FoldedRequest()) == "GET / HTTP/1.1\r\nA: b\r\n (x\r\n\r\n"
  {
    FoldedFields();
    FoldedRequestLine();
    hide RenderLines, RequestLine;
  }

  lemma FoldedIsValid()
    ensures Valid(FoldedRequest()) && !FoldsNameTokens(FoldedRequest().lines)
  {
    assert !NamesToken(FoldedRequest().lines[1]);
  }

  /** A text that is accepted although the echo of its request is not. */
  lemma FoldedIsNotReadBack(r0: Message, junk: string)
    requires Blank(r0)
    ensures var o := Run(FRESH, r0, "GET / HTTP/1.1\r\nA: b\r\n (x\r\n\r\n");
            var text := EchoText(o.request);
            var d := ParseData(FRESH, 0, r0, Buffer(text, junk), |text|);
            && o.result == Good
            && !(d.result == Success(Good)
                 && d.request == o.request.(headers := WithLength(NonEmpty(o.request.headers))))
  {
    hide *;
    var m := FoldedRequest();
    FoldedText();
    FoldedIsValid();
    GrammarAccepted(r0, Render(m), m);
    ParsedIsWellFormed(r0, m);
    EchoRoundTrip(r0, Meaning(m, r0), junk);
  }

  // ----- The proxy -----

  lemma KeptPut(m: map<string, string>, e: Entry<string>)
    requires e.key !in m
    ensures Kept(m[e.key := e.value])
         == if Rewrite(e) == [] then Kept(m) else Kept(m)[e.key := Rewrite(e)[0].value]
  {
  }

  lemma KeptCons(es: seq<Entry<string>>)
    requires Ascending(es) && es != []
    ensures Kept(ToMap(es))
         == if Rewrite(es[0]) == [] then Kept(ToMap(es[1..]))
            else Kept(ToMap(es[1..]))[es[0].key := Rewrite(es[0])[0].value]
  {
    assert ToMap(es) == ToMap(es[1..])[es[0].key := es[0].value];
    hide *;
    AscendingHead(es);
    KeptPut(ToMap(es[1..]), es[0]);
  }

  lemma RewriteCons(e: Entry<string>, rest: seq<Entry<string>>)
    requires Ascending(rest) && (Rewrite(e) != [] ==> Above(e.key, rest))
    ensures Ascending(Rewrite(e) + rest)
    ensures ToMap(Rewrite(e) + rest)
         == if Rewrite(e) == [] then ToMap(rest) else ToMap(rest)[e.key := Rewrite(e)[0].value]
  {
    if Rewrite(e) == [] {
      assert Rewrite(e) + rest == rest;
    } else {
      assert (Rewrite(e) + rest)[1..] == rest;
    }
  }

  lemma KeptAbove(k: string, es: seq<Entry<string>>, kept: seq<Entry<string>>)
    requires Above(k, es) && Ascending(kept) && ToMap(kept) == Kept(ToMap(es))
    ensures Above(k, kept)
  {
    forall i | 0 <= i < |kept| ensures Less(k, kept[i].key) {
      EntryInMap(kept, i);
      var _ := MapInEntries(es, kept[i].key);
    }
  }

  lemma {:induction false} RewriteMap(es: seq<Entry<string>>)
    requires Ascending(es)
    ensures Ascending(RewriteAll(es)) && ToMap(RewriteAll(es)) == Kept(ToMap(es))
  {
    if es == [] {
    } else {
      assert Ascending(es[1..]) && Above(es[0].key, es[1..]);
      RewriteMap(es[1..]);
      assert RewriteAll(es) == Rewrite(es[0]) + RewriteAll(es[1..]);
      hide *;
      KeptCons(es);
      KeptAbove(es[0].key, es[1..], RewriteAll(es[1..]));
      RewriteCons(es[0], RewriteAll(es[1..]));
    }
  }

  function ClosingLines(h: map<string, string>): seq<Line> {
    if Connected(h) then [] else [Field(CONNECTION, "close")]
  }

  ghost function ProxyLines(h: map<string, string>): seq<Line> {
    LinesOf(RewriteAll(FromMap(h))) + ClosingLines(h)
  }

  lemma {:induction false} RenderConcat(a: seq<Line>, b: seq<Line>)
    ensures RenderLines(a + b) == RenderLines(a) + RenderLines(b)
  {
    hide RenderLine;
    if a == [] {
      assert a + b == b;
    } else {
      assert (a + b)[1..] == a[1..] + b;
      RenderConcat(a[1..], b);
    }
  }

  lemma {:induction false} MeaningConcat(h: map<string, string>, a: seq<Line>, b: seq<Line>)
    ensures MeaningOfLines(h, a + b) == MeaningOfLines(MeaningOfLines(h, a), b)
    decreases |a|
  {
    hide MeaningOfLine;
    if a == [] {
      assert a + b == b;
    } else {
      assert (a + b)[1..] == a[1..] + b;
      MeaningConcat(MeaningOfLine(h, a[0]), a[1..], b);
    }
  }

  lemma ProxyLinesText(h: map<string, string>)
    ensures RenderLines(ProxyLines(h)) == FieldsText(RewriteAll(FromMap(h))) + ClosingText(h)
  {
    var es := RewriteAll(FromMap(h));
    LinesText(es);
    RenderConcat(LinesOf(es), ClosingLines(h));
    hide LinesOf, FieldsText, FromMap, RewriteAll, Connected;
    if !Connected(h) {
      var l := Field(CONNECTION, "close");
      assert CONNECTION + ": " + "close" + "\r\n" == "Connection: close\r\n";
      assert [l][1..] == [];
      assert RenderLines([l]) == RenderLine(l);
    }
  }

  lemma KeptAndClosed(h: map<string, string>)
    ensures NonEmpty(Kept(h)) == Kept(h)
    ensures (if Connected(h) then Kept(h) else Kept(h)[CONNECTION := "close"]) == Forwarded(h)
  {
  }

  lemma ClosingMeaning(h: map<string, string>, kept: map<string, string>)
    requires Connected(h) || CONNECTION !in kept
    ensures MeaningOfLines(kept, ClosingLines(h)) == if Connected(h) then kept else kept[CONNECTION := "close"]
  {
    if !Connected(h) {
      var l := Field(CONNECTION, "close");
      assert [l][1..] == [];
      assert MeaningOfLines(kept, [l]) == MeaningOfLine(kept, l);
      assert "" + "close" == "close";
    }
  }

  lemma KeptMeaning(h: map<string, string>)
    ensures MeaningOfLines(map[], LinesOf(RewriteAll(FromMap(h)))) == Kept(h)
  {
    hide *;
    RewriteMap(FromMap(h));
    LinesMeaning(map[], RewriteAll(FromMap(h)));
    KeptAndClosed(h);
    assert map[] + Kept(h) == Kept(h);
  }

  lemma NotKept(h: map<string, string>)
    ensures Connected(h) || CONNECTION !in Kept(h)
  {
  }

  lemma ProxyLinesParts(h: map<string, string>)
    ensures ProxyLines(h) == LinesOf(RewriteAll(FromMap(h))) + ClosingLines(h)
  {
  }

  lemma ProxyLinesMeaning(h: map<string, string>)
    ensures MeaningOfLines(map[], ProxyLines(h)) == Forwarded(h)
  {
    hide *;
    ProxyLinesParts(h);
    KeptMeaning(h);
    MeaningConcat(map[], LinesOf(RewriteAll(FromMap(h))), ClosingLines(h));
    NotKept(h);
    ClosingMeaning(h, Kept(h));
    KeptAndClosed(h);
  }

  lemma ValidConcat(a: seq<Line>, b: seq<Line>)
    requires ValidLines(a) && AllFields(a) && ValidLines(b) && AllFields(b)
    ensures ValidLines(a + b) && AllFields(a + b)
  {
    hide ValidLine;
  }

  lemma CloseIsValid()
    ensures ValidLine(Field(CONNECTION, "close"))
  {
  }

  lemma ClosingLinesValid(h: map<string, string>)
    ensures ValidLines(ClosingLines(h)) && AllFields(ClosingLines(h))
  {
    CloseIsValid();
    hide ValidLine;
  }

  lemma RewrittenOk(h: map<string, string>)
    requires HeadersOk(Kept(h)) && Ascending(RewriteAll(FromMap(h))) && ToMap(RewriteAll(FromMap(h))) == Kept(h)
    ensures EntriesOk(RewriteAll(FromMap(h)))
  {
    var es := RewriteAll(FromMap(h));
    hide IsToken, NoCtl, RewriteAll, FromMap;
    forall i | 0 <= i < |es| && es[i].value != "" ensures IsToken(es[i].key) && NoCtl(es[i].value) {
      EntryInMap(es, i);
    }
  }

  lemma ProxyLinesValid(h: map<string, string>)
    requires HeadersOk(Kept(h))
    ensures ValidLines(ProxyLines(h)) && AllFields(ProxyLines(h))
  {
    hide *;
    RewriteMap(FromMap(h));
    RewrittenOk(h);
    LinesValid(RewriteAll(FromMap(h)));
    ClosingLinesValid(h);
    ValidConcat(LinesOf(RewriteAll(FromMap(h))), ClosingLines(h));
    ProxyLinesParts(h);
  }

  ghost function ProxySyntax(r: Message, target: string): Syntax {
    Syntax(MethodName(r.method_), target, "1", "0", ProxyLines(r.headers))
  }

  lemma ProxyRequestLine(r: Message, target: string)
    ensures RequestLine(ProxySyntax(r, target)) == ProxyHead(r.method_, target)
  {
    hide MethodName, ProxyLines;
    var start := MethodName(r.method_) + " " + target;
    assert " HTTP/" + "1" + "." + "0" + "\r\n" == " HTTP/1.0\r\n";
    assert start + " HTTP/" + "1" + "." + "0" + "\r\n" == start + (" HTTP/" + "1" + "." + "0" + "\r\n");
  }

  lemma ProxyRegroup(line: string, fields: string, closing: string)
    ensures line + (fields + closing) + "\r\n" == line + fields + closing + "\r\n"
  {
  }

  lemma ProxyRendered(path: string, r: Message, isRedirect: bool)
    ensures var target := Target(path, r.uri, isRedirect);
            ProxyText(path, r, isRedirect)
            == if target.Failure? then Failure(target.error)
               else Success(Render(ProxySyntax(r, target.value)) + r.body)
  {
    var target := Target(path, r.uri, isRedirect);
    if target.Success? {
      var head, fields := ProxyHead(r.method_, target.value), FieldsText(RewriteAll(FromMap(r.headers)));
      assert ProxyText(path, r, isRedirect)
          == Success(head + fields + ClosingText(r.headers) + "\r\n" + r.body);
      assert Render(ProxySyntax(r, target.value))
          == RequestLine(ProxySyntax(r, target.value)) + RenderLines(ProxyLines(r.headers)) + "\r\n";
      hide *;
      ProxyLinesText(r.headers);
      ProxyRequestLine(r, target.value);
      ProxyRegroup(head, fields, ClosingText(r.headers));
    }
  }

  lemma ProxyValid(r: Message, target: string)
    requires IsUri(target) && HeadersOk(Kept(r.headers))
    ensures Valid(ProxySyntax(r, target))
  {
    ProxyLinesValid(r.headers);
    MethodRoundTrip(r.method_);
    hide IsToken, IsUri, ValidLine, MethodName, ProxyLines;
    assert IsNumber("1") && IsNumber("0");
  }

  /** What the server behind the proxy parses: the request, rewritten. */
  function Proxied(r: Message, target: string): Message {
    Message(r.method_, target, "1.0", WithLength(Forwarded(r.headers)), r.body)
  }

  lemma ProxyMeaning(r0: Message, r: Message, target: string)
    ensures Meaning(ProxySyntax(r, target), r0)
         == Message(r.method_, target, "1.0", Forwarded(r.headers), r0.body)
  {
    MethodRoundTrip(r.method_);
    ProxyLinesMeaning(r.headers);
    hide MethodName, MethodOf, ProxyLines, MeaningOfLines, Forwarded;
    assert "1" + "." + "0" == "1.0";
  }

  /** What the proxy passes on can be parsed. */
  predicate Passable(r: Message, target: string) {
    IsUri(target) && HeadersOk(Kept(r.headers))
  }

  lemma PassedRoundTrip(r0: Message, r: Message, target: string, junk: string)
    requires Blank(r0) && Passable(r, target)
    ensures var text := Render(ProxySyntax(r, target)) + r.body;
            var d := ParseData(FRESH, 0, r0, Buffer(text, junk), |text|);
            && d.request.(body := "") == Proxied(r, target).(body := "")
            && (d.result == Success(Good) && d.request == Proxied(r, target)
                <==> NulFree(r.body) && ContentLength(r.headers) == Success(|r.body|))
  {
    var m := ProxySyntax(r, target);
    ProxyValid(r, target);
    ProxyMeaning(r0, r, target);
    LengthUnchanged(r.headers);
    hide ProxySyntax, Valid, Meaning, Render, ParseData, Buffer, WithLength, Forwarded, ContentLength, Passable;
    BodyRecovered(r0, m, r.body, junk);
  }

  lemma PartsHere(a: string, b: string, c: string, d: string)
    ensures var text := a + (b + c) + "\r\n" + d;
            Here(text, 0, a) && Here(text, |a|, b)
  {
    var end := c + "\r\n" + d;
    assert a + (b + c) + "\r\n" + d == a + b + end;
    hide Here;
    TextsHere(a, b, end);
  }

  lemma ProxyTextParts(r: Message, target: string)
    ensures var text := Render(ProxySyntax(r, target)) + r.body;
            var head := MethodName(r.method_) + " " + target + " HTTP/" + "1.0" + "\r\n";
            Here(text, 0, head) && Here(text, |head|, FieldsText(RewriteAll(FromMap(r.headers))))
  {
    var m, es := ProxySyntax(r, target), RewriteAll(FromMap(r.headers));
    assert "1.0" == "1" + "." + "0";
    HeadIsRequestLine(m);
    ProxyLinesText(r.headers);
    assert Render(m) == RequestLine(m) + RenderLines(ProxyLines(r.headers)) + "\r\n";
    hide *;
    PartsHere(RequestLine(m), FieldsText(es), ClosingText(r.headers), r.body);
  }

  lemma KeptForwarded(h: map<string, string>)
    ensures forall k :: k in Kept(h) && Kept(h)[k] != "" ==> k in Forwarded(h) && Forwarded(h)[k] == Kept(h)[k]
  {
  }

  lemma ReadBackIsPassable(r0: Message, r: Message, target: string)
    requires Blank(r0) && Run(FRESH, r0, Render(ProxySyntax(r, target)) + r.body).result == Good
    requires var o := Run(FRESH, r0, Render(ProxySyntax(r, target)) + r.body).request;
             o.uri == target && o.httpVersion == "1.0" && WithLength(o.headers) == WithLength(Forwarded(r.headers))
    ensures Passable(r, target)
  {
    hide Run, Blank, Here, MethodName, FieldsText, FromMap, WithLength, Kept, Forwarded, Render, ProxySyntax, IsUri,
         HeadersOk, ToMap, Ascending, RewriteAll, IsVersion;
    ProxyTextParts(r, target);
    KeptForwarded(r.headers);
    RewriteMap(FromMap(r.headers));
    ReadBackIsOk(r0, Render(ProxySyntax(r, target)) + r.body, r.method_, target, "1.0",
                 RewriteAll(FromMap(r.headers)), Forwarded(r.headers));
  }

  lemma PassedExactly(r0: Message, r: Message, target: string, junk: string)
    requires Blank(r0)
    ensures var text := Render(ProxySyntax(r, target)) + r.body;
            var d := ParseData(FRESH, 0, r0, Buffer(text, junk), |text|);
            && (Passable(r, target) ==> d.request.(body := "") == Proxied(r, target).(body := ""))
            && (d.result == Success(Good) && d.request == Proxied(r, target)
                <==> Passable(r, target) && NulFree(r.body) && ContentLength(r.headers) == Success(|r.body|))
  {
    var text := Render(ProxySyntax(r, target)) + r.body;
    assert |text| <= |Buffer(text, junk)|;
    assert Proxied(r, target).uri == target && Proxied(r, target).httpVersion == "1.0";
    assert Proxied(r, target).headers == WithLength(Forwarded(r.headers));
    hide *;
    var d := ParseData(FRESH, 0, r0, Buffer(text, junk), |text|);
    if Passable(r, target) {
      PassedRoundTrip(r0, r, target, junk);
    } else if d.result == Success(Good) && d.request == Proxied(r, target) {
      ReadBackRun(r0, text, junk);
      ReadBackIsPassable(r0, r, target);
    }
  }

  /**
    * The proxy's text exists if and only if the request is a redirect or the URI reaches to
    * the last character of the location path. The server behind the proxy then reads the
    * rewritten request, body and all, if and only if the stripped URI and the headers that
    * are passed on are printable, and the body has no NUL and the declared length.
    */
  lemma ProxyRoundTrip(r0: Message, r: Message, path: string, isRedirect: bool, junk: string)
    requires Blank(r0)
    ensures ProxyText(path, r, isRedirect).Success? <==> isRedirect || (path != "" && |path| - 1 <= |r.uri|)
    ensures ProxyText(path, r, isRedirect).Success? ==>
              var text := ProxyText(path, r, isRedirect).value;
              var stripped := if isRedirect then r.uri else r.uri[|path| - 1..];
              var target := if isRedirect || (stripped != "" && stripped[0] == '/') then stripped else "/" + stripped;
              var d := ParseData(FRESH, 0, r0, Buffer(text, junk), |text|);
              && (Passable(r, target) ==> d.request.(body := "") == Proxied(r, target).(body := ""))
              && (d.result == Success(Good) && d.request == Proxied(r, target)
                  <==> Passable(r, target) && NulFree(r.body) && ContentLength(r.headers) == Success(|r.body|))
  {
    var target := Target(path, r.uri, isRedirect);
    ProxyRendered(path, r, isRedirect);
    if target.Success? {
      hide ProxySyntax, Render, ParseData, Buffer, ContentLength, ProxyText, Passable, Proxied;
      PassedExactly(r0, r, target.value, junk);
    }
  }

  /** A well-formed request is printable however it is rewritten. */
  lemma WellFormedIsPassable(r: Message, path: string, isRedirect: bool)
    requires WellFormed(r) && Target(path, r.uri, isRedirect).Success?
    ensures Passable(r, Target(path, r.uri, isRedirect).value)
  {
    assert NoCtl("close") && !IsCtl('/');
    hide IsCtl, IsToken;
  }
}
