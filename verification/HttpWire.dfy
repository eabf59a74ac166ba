/** Requests and responses byte for byte: what is written, and what is read of literal texts. */
module HttpWire {
  import opened Basics
  import opened OrderedMap
  import opened Characters
  import opened HttpParser
  import opened HttpGrammar
  import opened HttpLanguage
  import opened HttpData
  import opened HttpPrinters
  import opened HttpLaws
  import HttpResponse

  // ----- Fields in order -----

  /** All these keys, in lexicographic order. */
  ghost predicate Lists(ks: seq<string>, keys: set<string>) {
    (forall k :: k in ks <==> k in keys) && forall i, j :: 0 <= i < j < |ks| ==> Precedes(ks[i], ks[j])
  }

  /** A line for each key. */
  function Lines(ks: seq<string>, h: map<string, string>): string
    requires forall i :: 0 <= i < |ks| ==> ks[i] in h
  {
    if ks == [] then "" else ks[0] + ": " + h[ks[0]] + "\r\n" + Lines(ks[1..], h)
  }

  function KeysOf(es: seq<Entry<string>>): (ks: seq<string>)
    ensures |ks| == |es| && forall i :: 0 <= i < |es| ==> ks[i] == es[i].key
  {
    if es == [] then [] else [es[0].key] + KeysOf(es[1..])
  }

  lemma KeysAreListed(es: seq<Entry<string>>)
    requires Ascending(es)
    ensures Lists(KeysOf(es), ToMap(es).Keys)
  {
    AscendingIsSorted(es);
    var ks := KeysOf(es);
    hide Precedes, KeysOf;
    forall k ensures k in ks <==> k in ToMap(es).Keys {
      ToMapHas(es, k);
      if i :| 0 <= i < |es| && es[i].key == k {
        assert ks[i] == k;
      }
    }
  }

  predicate Holds(h: map<string, string>, es: seq<Entry<string>>) {
    forall i :: 0 <= i < |es| ==> es[i].key in h && h[es[i].key] == es[i].value
  }

  lemma AscendingHolds(es: seq<Entry<string>>)
    requires Ascending(es)
    ensures Holds(ToMap(es), es)
  {
    forall i | 0 <= i < |es| ensures es[i].key in ToMap(es) && ToMap(es)[es[i].key] == es[i].value {
      EntryInMap(es, i);
    }
  }

  lemma {:induction false} HeaderTextLines(es: seq<Entry<string>>, h: map<string, string>)
    requires Holds(h, es)
    ensures HttpResponse.HeaderText(es) == Lines(KeysOf(es), h)
  {
    if es == [] {
    } else {
      assert KeysOf(es)[1..] == KeysOf(es[1..]);
      HeaderTextLines(es[1..], h);
    }
  }

  lemma {:induction false} FieldsTextLines(es: seq<Entry<string>>)
    requires forall i :: 0 <= i < |es| ==> es[i].value != ""
    ensures FieldsText(es) == HttpResponse.HeaderText(es)
  {
    if es == [] {
    } else {
      FieldsTextLines(es[1..]);
    }
  }

  /** The fields of ascending entries without empty values. */
  lemma FieldsListed(es: seq<Entry<string>>) returns (ks: seq<string>)
    requires Ascending(es) && forall i :: 0 <= i < |es| ==> es[i].value != ""
    ensures Lists(ks, ToMap(es).Keys) && (forall i :: 0 <= i < |ks| ==> ks[i] in ToMap(es))
    ensures FieldsText(es) == Lines(ks, ToMap(es))
  {
    ks := KeysOf(es);
    KeysAreListed(es);
    AscendingHolds(es);
    FieldsTextLines(es);
    HeaderTextLines(es, ToMap(es));
    hide Ascending, ToMap, FieldsText, Precedes;
    forall i | 0 <= i < |ks| ensures ks[i] in ToMap(es) {
      assert ks[i] in ks;
    }
  }

  /** Entries without empty values. */
  function Filled(es: seq<Entry<string>>): seq<Entry<string>> {
    if es == [] then [] else (if es[0].value == "" then [] else [es[0]]) + Filled(es[1..])
  }

  lemma {:induction false} FilledText(es: seq<Entry<string>>)
    ensures FieldsText(Filled(es)) == FieldsText(es)
  {
    if es == [] {
    } else {
      FilledText(es[1..]);
      if es[0].value != "" {
        assert Filled(es)[1..] == Filled(es[1..]);
      } else {
        assert Filled(es) == Filled(es[1..]);
      }
    }
  }

  lemma {:induction false} FilledKept(es: seq<Entry<string>>)
    ensures forall i :: 0 <= i < |Filled(es)| ==> Filled(es)[i] in es && Filled(es)[i].value != ""
  {
    if es == [] {
    } else {
      FilledKept(es[1..]);
    }
  }

  lemma {:induction false} FilledMap(es: seq<Entry<string>>)
    requires Ascending(es)
    ensures Ascending(Filled(es)) && ToMap(Filled(es)) == NonEmpty(ToMap(es))
  {
    if es == [] {
    } else {
      FilledMap(es[1..]);
      NonEmptyCons(es);
      FilledKept(es[1..]);
      var tail := Filled(es[1..]);
      forall i | 0 <= i < |tail| ensures Less(es[0].key, tail[i].key) {
        var j :| 0 <= j < |es[1..]| && es[1..][j] == tail[i];
      }
      if es[0].value == "" {
        assert Filled(es) == tail;
      } else {
        assert Filled(es)[1..] == tail;
      }
    }
  }

  // ----- What the printers write -----

  lemma Methods(s: string)
    ensures MethodOf(s) == GET <==> s == "GET"
    ensures MethodOf(s) == POST <==> s == "POST"
    ensures MethodOf(s) == PUT <==> s == "PUT"
    ensures MethodName(GET) == "GET" && MethodName(POST) == "POST" && MethodName(PUT) == "PUT"
    ensures MethodName(UNKNOWN) == "UNKNOWN"
  {
  }

  lemma EchoParts(r: Message)
    ensures EchoText(r) == MethodName(r.method_) + " " + r.uri + " HTTP/" + r.httpVersion + "\r\n"
                           + FieldsText(FromMap(r.headers)) + "\r\n" + r.body
  {
    hide MethodName, FieldsText, FromMap;
  }

  lemma {:induction false} LinesAgree(ks: seq<string>, m: map<string, string>, h: map<string, string>)
    requires forall i :: 0 <= i < |ks| ==> ks[i] in m
    requires forall k :: k in m ==> k in h && h[k] == m[k]
    ensures Lines(ks, m) == Lines(ks, h)
  {
    if ks == [] {
    } else {
      LinesAgree(ks[1..], m, h);
    }
  }

  /** The echo, byte for byte: the headers that are not empty, in order of their names. */
  lemma EchoBytes(r: Message) returns (ks: seq<string>)
    ensures Lists(ks, set k | k in r.headers && r.headers[k] != "")
    ensures forall i :: 0 <= i < |ks| ==> ks[i] in r.headers
    ensures EchoText(r) == MethodName(r.method_) + " " + r.uri + " HTTP/" + r.httpVersion + "\r\n"
                           + Lines(ks, r.headers) + "\r\n" + r.body
  {
    var es := FromMap(r.headers);
    EchoParts(r);
    FilledText(es);
    FilledKept(es);
    FilledMap(es);
    ks := FieldsListed(Filled(es));
    var m := NonEmpty(r.headers);
    assert m.Keys == set k | k in r.headers && r.headers[k] != "";
    LinesAgree(ks, m, r.headers);
  }

  /** What the proxy writes for a header. */
  function Rewritten(h: map<string, string>): map<string, string> {
    map k | k in h :: if k == "Connection" then "close" else h[k]
  }

  lemma {:induction false} RewrittenNotEmpty(es: seq<Entry<string>>)
    ensures forall i :: 0 <= i < |RewriteAll(es)| ==> RewriteAll(es)[i].value != ""
  {
    if es == [] {
    } else {
      RewrittenNotEmpty(es[1..]);
    }
  }

  lemma ProxyParts(path: string, r: Message, isRedirect: bool)
    requires ProxyText(path, r, isRedirect).Success?
    ensures isRedirect || (path != "" && |path| - 1 <= |r.uri|)
    ensures var stripped := if isRedirect then r.uri else r.uri[|path| - 1..];
            var target := if isRedirect || (stripped != "" && stripped[0] == '/') then stripped else "/" + stripped;
            ProxyText(path, r, isRedirect).value
            == MethodName(r.method_) + " " + target + " HTTP/1.0\r\n" + FieldsText(RewriteAll(FromMap(r.headers)))
               + ClosingText(r.headers) + "\r\n" + r.body
  {
    hide MethodName, FieldsText, FromMap, RewriteAll, ClosingText;
  }

  /**
    * The proxy's text, byte for byte: the URI without the location's path and with a slash
    * before it, the headers that are not empty in order of their names, none of them
    * Accept-Encoding, and one Connection header that says to close.
    */
  lemma ProxyBytes(path: string, r: Message, isRedirect: bool) returns (ks: seq<string>)
    requires ProxyText(path, r, isRedirect).Success?
    ensures Lists(ks, set k | k in r.headers && r.headers[k] != "" && k != "Accept-Encoding")
    ensures forall i :: 0 <= i < |ks| ==> ks[i] in r.headers
    ensures isRedirect || (path != "" && |path| - 1 <= |r.uri|)
    ensures var stripped := if isRedirect then r.uri else r.uri[|path| - 1..];
            var target := if isRedirect || (stripped != "" && stripped[0] == '/') then stripped else "/" + stripped;
            var closing := if "Connection" in ks then "" else "Connection: close\r\n";
            ProxyText(path, r, isRedirect).value
            == MethodName(r.method_) + " " + target + " HTTP/1.0\r\n" + Lines(ks, Rewritten(r.headers))
               + closing + "\r\n" + r.body
  {
    var es := RewriteAll(FromMap(r.headers));
    RewriteMap(FromMap(r.headers));
    RewrittenNotEmpty(FromMap(r.headers));
    ProxyParts(path, r, isRedirect);
    var m := Kept(r.headers);
    assert m.Keys == set k | k in r.headers && r.headers[k] != "" && k != "Accept-Encoding";
    assert "Connection" in m <==> Connected(r.headers);
    hide ProxyText, RewriteAll, FromMap, FieldsText, MethodName, Connected;
    ks := FieldsListed(es);
    LinesAgree(ks, m, Rewritten(r.headers));
  }

  // ----- What is sent as a response -----

  predicate SendsAs(code: nat, version: string, digits: string, reason: string) {
    HttpResponse.StatusString(code) == "HTTP/" + version + " " + digits + " " + reason + "\r\n"
  }

  /** The status line of every code; a code without one of its own is sent as 500. */
  lemma StatusLines(code: nat)
    ensures SendsAs(200, "1.1", "200", "OK")
    ensures SendsAs(201, "1.0", "201", "Created")
    ensures SendsAs(202, "1.0", "202", "Accepted")
    ensures SendsAs(204, "1.0", "204", "No Content")
    ensures SendsAs(300, "1.0", "300", "Multiple Choices")
    ensures SendsAs(301, "1.0", "301", "Moved Permanently")
    ensures SendsAs(302, "1.0", "302", "Moved Temporarily")
    ensures SendsAs(304, "1.0", "304", "Not Modified")
    ensures SendsAs(400, "1.1", "400", "Bad Request")
    ensures SendsAs(401, "1.0", "401", "Unauthorized")
    ensures SendsAs(403, "1.0", "403", "Forbidden")
    ensures SendsAs(404, "1.0", "404", "Not Found")
    ensures SendsAs(500, "1.0", "500", "Internal Server Error")
    ensures SendsAs(501, "1.0", "501", "Not Implemented")
    ensures SendsAs(502, "1.0", "502", "Bad Gateway")
    ensures SendsAs(503, "1.0", "503", "Service Unavailable")
    ensures code !in {200, 201, 202, 204, 300, 301, 302, 304, 400, 401, 403, 404, 501, 502, 503} ==>
              SendsAs(code, "1.0", "500", "Internal Server Error")
  {
  }

  /** A response, byte for byte: all headers in order of their names. */
  lemma ResponseBytes(r: HttpResponse.Reply) returns (ks: seq<string>)
    ensures Lists(ks, r.headers.Keys) && forall i :: 0 <= i < |ks| ==> ks[i] in r.headers
    ensures HttpResponse.Gather(HttpResponse.Buffers(r))
         == HttpResponse.StatusString(r.code) + (Lines(ks, r.headers) + "\r\n" + r.body)
  {
    var es := FromMap(r.headers);
    ks := KeysOf(es);
    KeysAreListed(es);
    AscendingHolds(es);
    HeaderTextLines(es, r.headers);
    HttpResponse.GatherBuffers(r);
    forall i | 0 <= i < |ks| ensures ks[i] in r.headers {
      assert ks[i] in ks;
    }
  }

  // ----- What is accepted as a request -----

  predicate IsText(s: string) {
    forall i :: 0 <= i < |s| ==> s[i] as int >= 32 && s[i] as int != 127
  }

  predicate IsLine(l: Line) {
    match l
    case Field(name, value) => name != "" && (forall i :: 0 <= i < |name| ==> IsTchar(name[i])) && IsText(value)
    case Fold(blank, text) =>
      && blank != "" && (forall i :: 0 <= i < |blank| ==> blank[i] in " \t")
      && IsText(text) && (text != "" ==> text[0] != ' ')
  }

  /** A request of the language, over the characters of RFC 7230. */
  predicate IsRequest(m: Syntax) {
    && m.method_ != "" && (forall i :: 0 <= i < |m.method_| ==> IsTchar(m.method_[i]))
    && (forall i :: 0 <= i < |m.uri| ==> m.uri[i] as int > 32 && m.uri[i] as int != 127)
    && m.major != "" && (forall i :: 0 <= i < |m.major| ==> m.major[i] in DIGITS)
    && m.minor != "" && (forall i :: 0 <= i < |m.minor| ==> m.minor[i] in DIGITS)
    && (m.lines != [] ==> m.lines[0].Field?)
    && forall i :: 0 <= i < |m.lines| ==> IsLine(m.lines[i])
  }

  lemma TokensAreTchars()
    ensures forall c :: IsTokenChar(c) <==> IsTchar(c)
    ensures forall c :: !IsCtl(c) <==> c as int >= 32 && c as int != 127
    ensures forall c :: IsBlankChar(c) <==> c in " \t"
    ensures forall c :: IsDigit(c) <==> c in DIGITS
  {
    forall c ensures IsTokenChar(c) <==> IsTchar(c) {
      TokenChars(c);
    }
    forall c ensures !IsCtl(c) <==> c as int >= 32 && c as int != 127 {
      ControlChars(c);
    }
    forall c ensures IsBlankChar(c) <==> c in " \t" {
      ControlChars(c);
    }
    forall c ensures IsDigit(c) <==> c in DIGITS {
      Digits(c);
    }
  }

  lemma LineIsValid(l: Line)
    ensures IsLine(l) <==> ValidLine(l)
  {
    TokensAreTchars();
    hide IsTokenChar, IsCtl, IsTchar, IsBlankChar;
  }

  lemma RequestIsValid(m: Syntax)
    ensures IsRequest(m) <==> Valid(m)
  {
    TokensAreTchars();
    forall i | 0 <= i < |m.lines| ensures IsLine(m.lines[i]) <==> ValidLine(m.lines[i]) {
      LineIsValid(m.lines[i]);
    }
    hide IsTokenChar, IsCtl, IsTchar, IsBlankChar, IsLine, ValidLine, IsDigit;
  }

  /** Parsing is good if and only if the input begins with a request over those characters. */
  lemma GoodRequests(r: Message, data: string)
    requires Blank(r)
    ensures Run(FRESH, r, data).result == Good <==> exists m :: IsRequest(m) && Render(m) <= data
  {
    hide *;
    AutomatonIsGrammar(r, data);
    forall m ensures IsRequest(m) <==> Valid(m) {
      RequestIsValid(m);
    }
  }

  lemma OneHeaderText(m: string, uri: string, name: string, value: string)
    ensures m + " " + uri + " HTTP/1.1\r\n" + name + ": " + value + "\r\n\r\n"
         == Render(Syntax(m, uri, "1", "1", [Field(name, value)]))
  {
    var l := Field(name, value);
    assert [l][1..] == [] && RenderLines([l]) == RenderLine(l) + "";
    assert " HTTP/" + "1" + "." + "1" + "\r\n" == " HTTP/1.1\r\n";
  }

  lemma OneHeaderMeans(m: Syntax, r: Message, name: string, value: string)
    requires m.lines == [Field(name, value)]
    ensures Meaning(m, r).headers == map[name := value] && Meaning(m, r).uri == m.uri
    ensures Meaning(m, r).httpVersion == m.major + "." + m.minor && Meaning(m, r).method_ == MethodOf(m.method_)
  {
    assert m.lines[1..] == [];
    assert MeaningOfLines(map[], m.lines) == MeaningOfLine(map[], m.lines[0]);
    assert "" + value == value;
  }

  /** A request line and one header, as literal text. */
  lemma OneHeaderRead(r: Message, m: string, uri: string, name: string, value: string)
    requires Blank(r) && IsRequest(Syntax(m, uri, "1", "1", [Field(name, value)]))
    ensures var o := Run(FRESH, r, m + " " + uri + " HTTP/1.1\r\n" + name + ": " + value + "\r\n\r\n");
            && o.result == Good && o.request.uri == uri && o.request.httpVersion == "1.1"
            && o.request.headers == map[name := value]
            && o.request.method_ == if m == "GET" then GET else if m == "POST" then POST
                                    else if m == "PUT" then PUT else UNKNOWN
  {
    var syntax := Syntax(m, uri, "1", "1", [Field(name, value)]);
    var text := m + " " + uri + " HTTP/1.1\r\n" + name + ": " + value + "\r\n\r\n";
    RequestIsValid(syntax);
    OneHeaderText(m, uri, name, value);
    OneHeaderMeans(syntax, r, name, value);
    hide Run, Render, Valid, Meaning, IsRequest;
    GrammarAccepted(r, text, syntax);
  }

  lemma ContentLengthIsName()
    ensures forall i :: 0 <= i < |"Content-Length"| ==> IsTchar("Content-Length"[i])
    ensures forall i :: 0 <= i < |"POST"| ==> IsTchar("POST"[i])
    ensures "1" != "" && forall i :: 0 <= i < |"1"| ==> "1"[i] in DIGITS
  {
    assert LOWER[0] == 'a';
    var s := "Content-Length";
    forall i | 0 <= i < |s| ensures IsTchar(s[i]) {
      LowerLetters(s[i]);
      UpperLetters(s[i]);
    }
    forall i | 0 <= i < |"POST"| ensures IsTchar("POST"[i]) {
      UpperLetters("POST"[i]);
    }
  }

  lemma DigitsAreText(n: nat)
    ensures IsText(Decimal(n))
  {
    var s := Decimal(n);
    assert forall i :: 0 <= i < |s| ==> IsDigit(s[i]);
    hide Decimal;
  }

  /** A body that is as long as the header of that name says, in decimal, is read. */
  lemma DeclaredBodyRead(r: Message, uri: string, body: string, junk: string)
    requires Blank(r) && NulFree(body) && |body| <= 2147483647
    requires forall i :: 0 <= i < |uri| ==> uri[i] as int > 32 && uri[i] as int != 127
    ensures var head := "POST" + " " + uri + " HTTP/1.1\r\n" + "Content-Length" + ": " + Decimal(|body|) + "\r\n\r\n";
            var text := head + body;
            var d := ParseData(FRESH, 0, r, Buffer(text, junk), |text|);
            d.result == Success(Good) && d.request.method_ == POST && d.request.uri == uri && d.request.body == body
  {
    var length := Decimal(|body|);
    var m := Syntax("POST", uri, "1", "1", [Field("Content-Length", length)]);
    ContentLengthIsName();
    DigitsAreText(|body|);
    assert IsRequest(m) by {
      hide IsTchar, Decimal, DIGITS;
    }
    OneHeaderText("POST", uri, "Content-Length", length);
    OneHeaderMeans(m, r, "Content-Length", length);
    Methods("POST");
    StoiOfDecimal(|body|);
    LengthDeclared(map["Content-Length" := length]);
    RequestIsValid(m);
    hide Decimal, Render, Valid, Meaning, ParseData, Buffer, IsRequest, Stoi, ContentLength, WithLength, MethodOf;
    BodyRecovered(r, m, body, junk);
  }
}
