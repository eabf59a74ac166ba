/** The two printers that turn a request back into bytes: the echo handler's and the proxy's. */
module HttpPrinters {
  import opened Basics
  import opened OrderedMap
  import opened HttpParser
  import opened HttpData

  // ----- What the printers write -----

  function MethodName(m: MethodEnum): string {
    match m
    case GET => "GET"
    case POST => "POST"
    case PUT => "PUT"
    case UNKNOWN => "UNKNOWN"
  }

  /** A header with an empty value is left out. */
  function FieldLine(e: Entry<string>): string {
    if e.value == "" then "" else e.key + ": " + e.value + "\r\n"
  }

  function FieldsText(es: seq<Entry<string>>): string {
    if es == [] then "" else FieldLine(es[0]) + FieldsText(es[1..])
  }

  function EchoHead(r: Message): string {
    MethodName(r.method_) + " " + r.uri + " HTTP/" + r.httpVersion + "\r\n"
  }

  ghost function EchoText(r: Message): string {
    EchoHead(r) + FieldsText(FromMap(r.headers)) + "\r\n" + r.body
  }

  const ACCEPT_ENCODING := "Accept-Encoding"
  const CONNECTION := "Connection"

  function Rewrite(e: Entry<string>): seq<Entry<string>> {
    if e.key == ACCEPT_ENCODING || e.value == "" then []
    else if e.key == CONNECTION then [Entry(CONNECTION, "close")]
    else [e]
  }

  function RewriteAll(es: seq<Entry<string>>): seq<Entry<string>> {
    if es == [] then [] else Rewrite(es[0]) + RewriteAll(es[1..])
  }

  function Absolute(uri: string): string {
    if uri == "" || uri[0] != '/' then "/" + uri else uri
  }

  /** `substr(path_.length() - 1)` throws beyond the end of the URI, and always for an empty path. */
  function Target(path: string, uri: string, isRedirect: bool): Result<string, Error> {
    if isRedirect then Success(uri)
    else if path == "" || |path| - 1 > |uri| then Failure(OutOfRange)
    else Success(Absolute(uri[|path| - 1..]))
  }

  function ProxyHead(method_: MethodEnum, target: string): string {
    MethodName(method_) + " " + target + " HTTP/1.0\r\n"
  }

  predicate Connected(h: map<string, string>) {
    Get(h, CONNECTION) != ""
  }

  function ClosingText(h: map<string, string>): string {
    if Connected(h) then "" else "Connection: close\r\n"
  }

  ghost function ProxyText(path: string, r: Message, isRedirect: bool): Result<string, Error> {
    var target := Target(path, r.uri, isRedirect);
    if target.Failure? then Failure(target.error)
    else
      Success(ProxyHead(r.method_, target.value) + FieldsText(RewriteAll(FromMap(r.headers)))
              + ClosingText(r.headers) + "\r\n" + r.body)
  }

  // ----- The printers -----

  lemma FirstFieldsText(h: map<string, string>, k: string)
    requires IsFirst(h, k)
    ensures FieldsText(FromMap(h)) == FieldLine(Entry(k, h[k])) + FieldsText(FromMap(h - {k}))
  {
    FirstEntry(h, k);
  }

  /** The request line up to the URI. */
  method MethodText(method_: MethodEnum) returns (req: string)
    ensures req == MethodName(method_) + " "
  {
    req := "";
    if method_ == GET {
      req := req + "GET";
    } else if method_ == POST {
      req := req + "POST";
    } else if method_ == PUT {
      req := req + "PUT";
    } else {
      req := req + "UNKNOWN";
    }
    req := req + " ";
  }

  lemma EchoHeadText(r: Message)
    ensures MethodName(r.method_) + " " + r.uri + " HTTP" + "/" + r.httpVersion + "\r\n" == EchoHead(r)
  {
    var start := MethodName(r.method_) + " " + r.uri;
    assert start + " HTTP" + "/" == start + (" HTTP" + "/");
  }

  lemma IsIn(h: map<string, string>, k: string)
    requires IsFirst(h, k)
    ensures k in h
  {
  }

  lemma NoFields()
    ensures FieldsText(FromMap(map[])) == "" && FieldsText(RewriteAll(FromMap(map[]))) == ""
  {
  }

  lemma ShorterMap(h: map<string, string>, k: string)
    requires k in h
    ensures |h - {k}| < |h|
  {
    assert (h - {k}).Keys == h.Keys - {k};
    assert |(h - {k}).Keys| < |h.Keys|;
  }

  lemma Appended(before: string, after: string, k: string, v: string, rest: string)
    requires after == if v == "" then before else before + k + ": " + v + "\r\n"
    ensures after + rest == before + (FieldLine(Entry(k, v)) + rest)
  {
  }

  /** The loop over the headers. */
  method EchoFields(headers: map<string, string>, start: string) returns (req: string)
    ensures req == start + FieldsText(FromMap(headers))
  {
    hide FieldsText, FromMap, IsFirst, FieldLine;
    req := start;
    var rest := headers;
    while rest != map[]
      invariant req + FieldsText(FromMap(rest)) == start + FieldsText(FromMap(headers))
      decreases |rest|
    {
      var k := FirstKey(rest);
      IsIn(rest, k);
      FirstFieldsText(rest, k);
      ghost var before := req;
      if rest[k] != "" {
        req := req + k;
        req := req + ": ";
        req := req + rest[k];
        req := req + "\r\n";
      }
      Appended(before, req, k, rest[k], FieldsText(FromMap(rest - {k})));
      ShorterMap(rest, k);
      rest := rest - {k};
    }
    NoFields();
  }

  method EchoRawbody(request: Message) returns (req: string)
    ensures req == EchoText(request)
  {
    hide MethodName, EchoHead, FieldsText, FromMap;
    req := MethodText(request.method_);
    req := req + request.uri;
    req := req + " HTTP";
    req := req + "/";
    req := req + request.httpVersion;
    req := req + "\r\n";
    EchoHeadText(request);
    req := EchoFields(request.headers, req);
    req := req + "\r\n";
    req := req + request.body;
  }

  lemma RewriteText(e: Entry<string>, es: seq<Entry<string>>)
    ensures FieldsText(Rewrite(e) + es) == FieldsText(Rewrite(e)) + FieldsText(es)
  {
    var es0 := Rewrite(e);
    if es0 == [] {
      assert es0 + es == es;
    } else {
      assert es0[1..] == [] && (es0 + es)[1..] == es;
    }
  }

  lemma FirstRewritten(h: map<string, string>, k: string)
    requires IsFirst(h, k)
    ensures FieldsText(RewriteAll(FromMap(h)))
         == FieldsText(Rewrite(Entry(k, h[k]))) + FieldsText(RewriteAll(FromMap(h - {k})))
  {
    FirstEntry(h, k);
    var es := FromMap(h);
    assert es[0] == Entry(k, h[k]) && es[1..] == FromMap(h - {k});
    hide FieldsText, FromMap, Rewrite;
    assert RewriteAll(es) == Rewrite(es[0]) + RewriteAll(es[1..]);
    RewriteText(es[0], RewriteAll(es[1..]));
  }

  lemma FirstConnected(h: map<string, string>, k: string)
    requires k in h
    ensures Connected(h) <==> (k == CONNECTION && h[k] != "") || Connected(h - {k})
  {
  }

  lemma ProxyHeadText(method_: MethodEnum, target: string)
    ensures MethodName(method_) + " " + target + " HTTP" + "/" + "1.0" + "\r\n" == ProxyHead(method_, target)
  {
    var start := MethodName(method_) + " " + target;
    assert " HTTP" + "/" + "1.0" + "\r\n" == " HTTP/1.0\r\n";
    assert start + " HTTP" + "/" + "1.0" + "\r\n" == start + (" HTTP" + "/" + "1.0" + "\r\n");
  }

  lemma RewrittenText(k: string, v: string)
    ensures FieldsText(Rewrite(Entry(k, v)))
         == if k == ACCEPT_ENCODING || v == "" then ""
            else k + ": " + (if k == CONNECTION then "close" else v) + "\r\n"
  {
    var es := Rewrite(Entry(k, v));
    if es != [] {
      assert es[1..] == [];
      assert FieldsText(es) == FieldLine(es[0]) + "";
    }
  }

  lemma AppendedRewritten(before: string, after: string, k: string, v: string, rest: string)
    requires after == if k == ACCEPT_ENCODING || v == "" then before
                      else before + k + ": " + (if k == CONNECTION then "close" else v) + "\r\n"
    ensures after + rest == before + (FieldsText(Rewrite(Entry(k, v))) + rest)
  {
    RewrittenText(k, v);
    hide *;
  }

  /** The loop over the headers. */
  method ProxyFields(headers: map<string, string>, start: string) returns (text: string, connection: bool)
    ensures text == start + FieldsText(RewriteAll(FromMap(headers)))
    ensures connection <==> Connected(headers)
  {
    hide FieldsText, FromMap, RewriteAll, IsFirst;
    text := start;
    connection := false;
    var rest := headers;
    while rest != map[]
      invariant text + FieldsText(RewriteAll(FromMap(rest))) == start + FieldsText(RewriteAll(FromMap(headers)))
      invariant connection || Connected(rest) <==> Connected(headers)
      decreases |rest|
    {
      var k := FirstKey(rest);
      IsIn(rest, k);
      FirstRewritten(rest, k);
      FirstConnected(rest, k);
      ghost var before := text;
      if k == ACCEPT_ENCODING {
      } else if rest[k] != "" {
        text := text + k;
        text := text + ": ";
        if k == CONNECTION {
          text := text + "close";
          connection := true;
        } else {
          text := text + rest[k];
        }
        text := text + "\r\n";
      }
      AppendedRewritten(before, text, k, rest[k], FieldsText(RewriteAll(FromMap(rest - {k}))));
      ShorterMap(rest, k);
      rest := rest - {k};
    }
    NoFields();
  }

  method ProxyRawbody(path: string, request: Message, isRedirect: bool) returns (req: Result<string, Error>)
    ensures req == ProxyText(path, request, isRedirect)
  {
    hide MethodName, ProxyHead, FieldsText, FromMap, RewriteAll, Connected;
    var text := MethodText(request.method_);
    ghost var target;
    if isRedirect {
      text := text + request.uri;
      target := request.uri;
    } else {
      if path == "" || |path| - 1 > |request.uri| {
        return Failure(OutOfRange);
      }
      var uri := request.uri[|path| - 1..];
      if uri == "" || uri[0] != '/' {
        uri := "/" + uri;
      }
      text := text + uri;
      target := uri;
    }
    text := text + " HTTP";
    text := text + "/";
    text := text + "1.0";
    text := text + "\r\n";
    ProxyHeadText(request.method_, target);
    var fields, connection := ProxyFields(request.headers, text);
    text := fields;
    assert Target(path, request.uri, isRedirect) == Success(target);
    if !connection {
      text := text + "Connection: close\r\n";
    }
    assert text == ProxyHead(request.method_, target) + FieldsText(RewriteAll(FromMap(request.headers)))
                   + ClosingText(request.headers);
    text := text + "\r\n";
    text := text + request.body;
    req := Success(text);
  }
}
