/** The session cookie: a signed token that lives for two hours. */
module Cookie {
  import opened Basics
  import opened OrderedMap
  import opened JsonValue
  import opened JsonLayout
  import opened Jwt
  import opened JwtLaws
  import opened JwtTokens

  const TIME_TO_LIVE: int := 2 * 60 * 60
  const SECRET: ByteString := "1uXX4cW#00&xCZPY" + "@IQ*Lf#cAYj#45q~"
  const ISSUER: ByteString := "foxy-4"
  const USERNAME: ByteString := "username"

  /** HMAC with SHA-256, from a key and a text. */
  type Hmac256 = (ByteString, ByteString) -> ByteString

  /** `hs256{SECRET}`. */
  function Hs256(hmac: Hmac256): (a: Algorithm)
    ensures IsBytes(a.Name())
  {
    Hmac("HS256", (data: ByteString) => hmac(SECRET, data))
  }

  /** Instants are `system_clock` time points: 64-bit counts of nanoseconds. */
  type Instant = int64

  lemma ToTimeTFits(t: Instant)
    ensures INT64_MIN <= ToTimeT(t) <= INT64_MAX
  {}

  /** `claim(date)`. */
  function DateClaim(t: Instant): Value {
    ToTimeTFits(t);
    Int(ToTimeT(t))
  }

  /** The claims of a cookie issued at `iat` that expires at `exp`. */
  function CookieClaims(username: ByteString, iat: Instant, exp: Instant): (c: Claims)
    ensures ByteClaims(c) && PlainClaims(c)
  {
    map["iss" := Str(ISSUER), "iat" := DateClaim(iat), "exp" := DateClaim(exp), USERNAME := Str(username)]
  }

  ghost function CookieText(username: ByteString, iat: Instant, exp: Instant, hmac: Hmac256): ByteString {
    TokenText(map[], CookieClaims(username, iat, exp), Hs256(hmac))
  }

  /** The configured verifier's claims. */
  const VERIFIER_CLAIMS: Claims := map["iss" := Str(ISSUER)]

  /** Whether the cookie passes at an instant. */
  ghost predicate CookieAccepted(cookie: ByteString, now: Instant, hmac: Hmac256) {
    var r := DecodeToken(cookie);
    r.Success? && Accepts(VERIFIER_CLAIMS, 0, map["HS256" := Hs256(hmac)], r.value, now)
  }

  /** Whole seconds, rounded towards zero. */
  predicate IsSeconds(seconds: int, t: Instant) {
    if t >= 0 then seconds * 1_000_000_000 <= t < (seconds + 1) * 1_000_000_000
    else (seconds - 1) * 1_000_000_000 < t <= seconds * 1_000_000_000
  }

  /** The claims of a cookie for a user, issued at one instant, that expires at another. */
  ghost predicate Says(jwt: DecodedJwt, username: string, iat: Instant, exp: Instant) {
    var c := jwt.payloadClaims;
    && c.Keys == {"iss", "username", "iat", "exp"}
    && c["iss"] == Str("foxy-4") && c["username"] == Str(username)
    && c["iat"].Int? && IsSeconds(c["iat"].n, iat) && c["exp"].Int? && IsSeconds(c["exp"].n, exp)
    && jwt.headerClaims == map["alg" := Str("HS256")]
  }

  lemma SecretIs()
    ensures SECRET == "1uXX4cW#00&xCZPY@IQ*Lf#cAYj#45q~"
  {
  }

  lemma SecondsOf(t: Instant)
    ensures DateClaim(t).Int? && IsSeconds(DateClaim(t).n, t)
  {
  }

  lemma ClaimsSay(username: ByteString, iat: Instant, exp: Instant, jwt: DecodedJwt)
    requires jwt.payloadClaims == CookieClaims(username, iat, exp) && jwt.headerClaims == map["alg" := Str("HS256")]
    ensures Says(jwt, username, iat, exp)
  {
    SecondsOf(iat);
    SecondsOf(exp);
    hide IsSeconds, DateClaim;
  }

  lemma NoHeaderClaims()
    ensures ByteClaims(map[]) && PlainClaims(map[])
  {
  }

  /** A cookie is a token that names the user, and is signed with the secret. */
  lemma CookieSays(username: ByteString, iat: Instant, exp: Instant, hmac: Hmac256)
    ensures var r := DecodeToken(CookieText(username, iat, exp, hmac));
            && r.Success? && Says(r.value, username, iat, exp)
            && r.value.signature == hmac(SECRET, JoinDot(r.value.headerBase64, r.value.payloadBase64))
    ensures SECRET == "1uXX4cW#00&xCZPY@IQ*Lf#cAYj#45q~"
  {
    SecretIs();
    var algorithm := Hs256(hmac);
    assert algorithm.Name() == "HS256" && forall data :: algorithm.Sign(data) == hmac(SECRET, data);
    hide TokenText, DecodeToken, SigningInput, CookieClaims, HeaderWithAlgorithm, Hs256, Says, ByteClaims, PlainClaims,
         Algorithm.Name, Algorithm.Sign, SECRET;
    NoHeaderClaims();
    TokenRoundTrip(map[], CookieClaims(username, iat, exp), algorithm);
    DefaultAlgorithm("HS256");
    ClaimsSay(username, iat, exp, DecodeToken(CookieText(username, iat, exp, hmac)).value);
  }

  /** `generate_cookie`, with the two readings of the clock as parameters. */
  method GenerateCookie(username: ByteString, t1: Instant, t2: Instant, hmac: Hmac256) returns (token: ByteString)
    requires t2 + TIME_TO_LIVE * NANOS <= INT64_MAX
    ensures token == CookieText(username, t1, t2 + TIME_TO_LIVE * NANOS, hmac)
    ensures DecodeToken(token).Success? && Says(DecodeToken(token).value, username, t1, t2 + 7200 * 1_000_000_000)
  {
    var builder := new Builder();
    builder.SetPayloadClaim("iss", Str(ISSUER));
    builder.SetPayloadClaim("iat", DateClaim(t1));
    builder.SetPayloadClaim("exp", DateClaim(t2 + TIME_TO_LIVE * NANOS));
    builder.SetPayloadClaim(USERNAME, Str(username));
    assert builder.payloadClaims == CookieClaims(username, t1, t2 + TIME_TO_LIVE * NANOS);
    token := builder.Sign(Hs256(hmac));
    CookieSays(username, t1, t2 + TIME_TO_LIVE * NANOS, hmac);
  }

  /** `verify_cookie`, with the reading of the clock as a parameter. */
  method VerifyCookie(cookie: ByteString, now: Instant, hmac: Hmac256) returns (ok: bool)
    ensures ok <==> CookieAccepted(cookie, now, hmac)
  {
    hide Accepts;
    var verifier := new Verifier();
    verifier.AllowAlgorithm(Hs256(hmac));
    verifier.WithClaim("iss", Str(ISSUER));
    assert verifier.claims == VERIFIER_CLAIMS;
    var decoded := DecodeTokenText(cookie);
    if decoded.Failure? {
      return false;
    }
    ok := verifier.Verify(decoded.value, now);
  }

  // ----- The text that is signed -----

  lemma KeyOrder()
    ensures Less("exp", "iat") && Less("iat", "iss") && Less("iss", "username")
    ensures Less("exp", "iss") && Less("exp", "username") && Less("iat", "username")
  {
    assert "iat"[1..] == "at" && "iss"[1..] == "ss";
  }

  function CookieFields(username: ByteString, iat: Instant, exp: Instant): seq<Entry<Value>> {
    [Entry("exp", DateClaim(exp)), Entry("iat", DateClaim(iat)), Entry("iss", Str("foxy-4")),
     Entry("username", Str(username))]
  }

  lemma FourFields<V>(a: Entry<V>, b: Entry<V>, c: Entry<V>, d: Entry<V>)
    requires Less(a.key, b.key) && Less(b.key, c.key) && Less(c.key, d.key)
    requires Less(a.key, c.key) && Less(a.key, d.key) && Less(b.key, d.key)
    ensures Ascending([a, b, c, d])
    ensures ToMap([a, b, c, d]) == map[][d.key := d.value][c.key := c.value][b.key := b.value][a.key := a.value]
  {
    hide Less;
    assert [a, b, c, d][1..] == [b, c, d] && [b, c, d][1..] == [c, d] && [c, d][1..] == [d] && [d][1..] == [];
    assert Ascending([d]) && Ascending([c, d]) && Ascending([b, c, d]);
    assert ToMap([d]) == map[][d.key := d.value] && ToMap([c, d]) == ToMap([d])[c.key := c.value];
    assert ToMap([b, c, d]) == ToMap([c, d])[b.key := b.value];
  }

  lemma FieldsAreClaims(username: ByteString, iat: Instant, exp: Instant)
    ensures CookieFields(username, iat, exp) == FromMap(CookieClaims(username, iat, exp))
  {
    var es := CookieFields(username, iat, exp);
    KeyOrder();
    hide Less, FromMap, DateClaim, ToMap, Ascending;
    FourFields(es[0], es[1], es[2], es[3]);
    assert ToMap(es) == CookieClaims(username, iat, exp);
    AscendingUnique(es, FromMap(CookieClaims(username, iat, exp)));
  }

  function Member(e: Entry<Value>): string {
    "\"" + EscapeChars(e.key) + "\":" + Compact(e.value)
  }

  lemma FourMembers(a: Entry<Value>, b: Entry<Value>, c: Entry<Value>, d: Entry<Value>)
    ensures CompactFields([a, b, c, d]) == [Member(a), Member(b), Member(c), Member(d)]
  {
    assert [a, b, c, d][1..] == [b, c, d] && [b, c, d][1..] == [c, d] && [c, d][1..] == [d] && [d][1..] == [];
    hide EscapeChars;
    assert CompactFields([]) == [];
    assert CompactFields([d]) == [Member(d)] + CompactFields([]);
    assert CompactFields([c, d]) == [Member(c)] + CompactFields([d]);
    assert CompactFields([b, c, d]) == [Member(b)] + CompactFields([c, d]);
    assert CompactFields([a, b, c, d]) == [Member(a)] + CompactFields([b, c, d]);
  }

  lemma FourJoined(a: string, b: string, c: string, d: string)
    ensures Join([a, b, c, d], ",") == a + "," + b + "," + c + "," + d
  {
    assert [a, b, c, d][1..] == [b, c, d] && [b, c, d][1..] == [c, d] && [c, d][1..] == [d] && [d][1..] == [];
    assert Join([d], ",") == d;
    assert Join([c, d], ",") == c + "," + d;
    assert Join([b, c, d], ",") == b + "," + c + "," + d;
  }

  predicate IsPlain(c: char) {
    'a' <= c <= 'z' || c == '-' || c == '4'
  }

  lemma PlainChar(c: char)
    requires IsPlain(c)
    ensures EscapeChar(c) == [c]
  {
  }

  lemma {:induction false} PlainText(s: string)
    requires forall i :: 0 <= i < |s| ==> IsPlain(s[i])
    ensures EscapeChars(s) == s
  {
    hide EscapeChar, IsPlain;
    if s == "" {
    } else {
      PlainChar(s[0]);
      PlainText(s[1..]);
      assert s == [s[0]] + s[1..];
    }
  }

  lemma EscapedNames()
    ensures EscapeChars("exp") == "exp" && EscapeChars("iat") == "iat" && EscapeChars("iss") == "iss"
  {
    PlainText("exp");
    PlainText("iat");
    PlainText("iss");
  }

  lemma LongerNames()
    ensures EscapeChars("username") == "username" && EscapeChars("foxy-4") == "foxy-4"
  {
    PlainText("username");
    PlainText("foxy-4");
  }

  lemma MemberTexts(exp: Value, iat: Value, username: string)
    requires exp.Int? && iat.Int?
    requires EscapeChars("exp") == "exp" && EscapeChars("iat") == "iat" && EscapeChars("iss") == "iss"
    requires EscapeChars("username") == "username" && EscapeChars("foxy-4") == "foxy-4"
    ensures Member(Entry("exp", exp)) == "\"exp\":" + IntText(exp.n)
    ensures Member(Entry("iat", iat)) == "\"iat\":" + IntText(iat.n)
    ensures Member(Entry("iss", Str("foxy-4"))) == "\"iss\":" + "\"foxy-4\""
    ensures Member(Entry("username", Str(username))) == "\"username\":" + ("\"" + EscapeChars(username) + "\"")
  {
    hide EscapeChars, IntText;
    assert "\"" + "exp" + "\":" == "\"exp\":" && "\"" + "iat" + "\":" == "\"iat\":";
    assert "\"" + "iss" + "\":" == "\"iss\":" && "\"" + "username" + "\":" == "\"username\":";
    assert "\"" + "foxy-4" + "\"" == "\"foxy-4\"";
  }

  /** The payload of a cookie is this text. */
  lemma CookiePayload(username: ByteString, iat: Instant, exp: Instant)
    ensures ClaimsText(CookieClaims(username, iat, exp))
         == "{" + ("\"exp\":" + IntText(DateClaim(exp).n) + "," + ("\"iat\":" + IntText(DateClaim(iat).n)) + ","
                   + ("\"iss\":" + "\"foxy-4\"") + ","
                   + ("\"username\":" + ("\"" + EscapeChars(username) + "\""))) + "}"
  {
    var es := CookieFields(username, iat, exp);
    FieldsAreClaims(username, iat, exp);
    DocumentLayout(Obj(es));
    FourMembers(es[0], es[1], es[2], es[3]);
    FourJoined(Member(es[0]), Member(es[1]), Member(es[2]), Member(es[3]));
    EscapedNames();
    LongerNames();
    hide EscapeChars, CookieClaims, FromMap, DateClaim, IntText, CompactFields, Join, Serialize;
    assert ClaimsText(CookieClaims(username, iat, exp)) == Compact(Obj(es));
    MemberTexts(es[0].value, es[1].value, username);
  }

  // ----- What a cookie says -----

  lemma SecondsUnique(a: int, b: int, t: Instant)
    requires IsSeconds(a, t) && IsSeconds(b, t)
    ensures a == b
  {
  }

  lemma SecondsDecide(s: int, n: int, t: Instant)
    requires IsSeconds(n, t)
    ensures IsSeconds(s, t) <==> s == n
  {
    if IsSeconds(s, t) {
      SecondsUnique(s, n, t);
    }
  }

  /** Cookies of different users differ, and so do cookies of different seconds. */
  lemma CookiesDiffer(
    username: ByteString, iat: Instant, exp: Instant,
    username': ByteString, iat': Instant, exp': Instant, hmac: Hmac256)
    requires CookieText(username, iat, exp, hmac) == CookieText(username', iat', exp', hmac)
    ensures username == username'
    ensures forall s :: (IsSeconds(s, iat) <==> IsSeconds(s, iat')) && (IsSeconds(s, exp) <==> IsSeconds(s, exp'))
  {
    hide CookieText, DecodeToken, IsSeconds;
    CookieSays(username, iat, exp, hmac);
    CookieSays(username', iat', exp', hmac);
    var c := DecodeToken(CookieText(username, iat, exp, hmac)).value.payloadClaims;
    forall s ensures (IsSeconds(s, iat) <==> IsSeconds(s, iat')) && (IsSeconds(s, exp) <==> IsSeconds(s, exp')) {
      SecondsDecide(s, c["iat"].n, iat);
      SecondsDecide(s, c["iat"].n, iat');
      SecondsDecide(s, c["exp"].n, exp);
      SecondsDecide(s, c["exp"].n, exp');
    }
  }

  /** Every claim of a cookie but its dates is as required. */
  lemma DatesDecide(username: ByteString, iat: Instant, exp: Instant, jwt: DecodedJwt, now: Instant,
                    algs: map<string, Algorithm>)
    requires jwt.payloadClaims == CookieClaims(username, iat, exp) && SignatureMatches(algs, jwt)
    ensures Accepts(VERIFIER_CLAIMS, 0, algs, jwt, now)
       <==> ToTimeT(iat) * NANOS <= now <= ToTimeT(exp) * NANOS
  {
    hide SignatureMatches;
    assert RequiredClaim(jwt.payloadClaims, "iss", Str(ISSUER));
  }

  lemma CookieSigned(jwt: DecodedJwt, hmac: Hmac256)
    requires jwt.headerClaims == HeaderWithAlgorithm(map[], Hs256(hmac).Name())
    requires jwt.signature == Hs256(hmac).Sign(JoinDot(jwt.headerBase64, jwt.payloadBase64))
    ensures SignatureMatches(map["HS256" := Hs256(hmac)], jwt)
  {
    assert jwt.headerClaims == map["alg" := Str("HS256")];
  }

  /**
   A cookie is accepted exactly from the second it was issued in to the second it
   expires in, whatever the user name, the hash and the instants.
   */
  lemma CookieLifetime(username: ByteString, iat: Instant, exp: Instant, now: Instant, hmac: Hmac256)
    ensures CookieAccepted(CookieText(username, iat, exp, hmac), now, hmac)
       <==> ToTimeT(iat) * NANOS <= now <= ToTimeT(exp) * NANOS
  {
    hide TokenText, DecodeToken, SigningInput, Accepts, SignatureMatches, CookieClaims, ToTimeT,
         HeaderWithAlgorithm, Hs256;
    NoHeaderClaims();
    TokenRoundTrip(map[], CookieClaims(username, iat, exp), Hs256(hmac));
    var jwt := DecodeToken(CookieText(username, iat, exp, hmac)).value;
    CookieSigned(jwt, hmac);
    DatesDecide(username, iat, exp, jwt, now, map["HS256" := Hs256(hmac)]);
  }

  /** Generated after the epoch, a cookie lives until 7200 seconds after its issue's second. */
  lemma CookieEndToEnd(username: ByteString, t1: Instant, t2: Instant, now: Instant, hmac: Hmac256)
    requires 0 <= t1 && 0 <= t2 && t2 + TIME_TO_LIVE * NANOS <= INT64_MAX
    ensures CookieAccepted(CookieText(username, t1, t2 + TIME_TO_LIVE * NANOS, hmac), now, hmac)
       <==> t1 / NANOS * NANOS <= now <= (t2 / NANOS + 7200) * NANOS
  {
    CookieLifetime(username, t1, t2 + TIME_TO_LIVE * NANOS, now, hmac);
    assert (t2 + 7200 * NANOS) / NANOS == t2 / NANOS + 7200;
    hide CookieAccepted, CookieText;
  }

  // ----- Which texts are accepted -----

  /** What the claims of any accepted cookie say. */
  predicate ClaimsHold(c: Claims, now: Instant) {
    && "iss" in c && c["iss"] == Str("foxy-4")
    && ("exp" in c ==> c["exp"].Int? && now <= c["exp"].n * NANOS)
    && ("iat" in c ==> c["iat"].Int? && now >= c["iat"].n * NANOS)
    && ("nbf" in c ==> c["nbf"].Int? && now >= c["nbf"].n * NANOS)
  }

  /** The claims a part of a token carries. */
  function PartClaims(part: ByteString): Option<Claims> {
    var text := DecodePart(part);
    if text.None? then None
    else
      match ParseClaims(text.value)
      case Success(c) => Some(c)
      case Failure(_) => None
  }

  ghost predicate GoodParts(h: ByteString, p: ByteString, s: ByteString, now: Instant, hmac: Hmac256) {
    && PartClaims(h).Some? && PartClaims(p).Some?
    && "alg" in PartClaims(h).value && PartClaims(h).value["alg"] == Str("HS256")
    && DecodePart(s) == Some(hmac(SECRET, JoinDot(h, p)))
    && ClaimsHold(PartClaims(p).value, now)
  }

  lemma DecodedParts(h: ByteString, p: ByteString, s: ByteString)
    ensures var r := DecodeParts(h, p, s);
            && (r.Success? <==> PartClaims(h).Some? && PartClaims(p).Some? && DecodePart(s).Some?)
            && (r.Success? ==> && r.value.headerBase64 == h && r.value.payloadBase64 == p
                               && r.value.signature == DecodePart(s).value
                               && r.value.headerClaims == PartClaims(h).value
                               && r.value.payloadClaims == PartClaims(p).value)
  {
    hide DecodePart, ParseClaims;
  }

  lemma CookieTimeMatches(c: Claims, key: string, now: Instant)
    requires key != "iss"
    ensures TimeMatches(VERIFIER_CLAIMS, 0, c, key, now)
       <==> (key in c ==> c[key].Int? && if key == "exp" then now <= c[key].n * NANOS else now >= c[key].n * NANOS)
  {
  }

  lemma VerifierClaimsHold(algs: map<string, Algorithm>, jwt: DecodedJwt, now: Instant)
    requires SignatureMatches(algs, jwt)
    ensures Accepts(VERIFIER_CLAIMS, 0, algs, jwt, now) <==> ClaimsHold(jwt.payloadClaims, now)
  {
    var c := jwt.payloadClaims;
    assert RequiredClaim(c, "iss", Str(ISSUER)) <==> "iss" in c && c["iss"] == Str(ISSUER);
    CookieTimeMatches(c, "exp", now);
    CookieTimeMatches(c, "iat", now);
    CookieTimeMatches(c, "nbf", now);
    hide TimeMatches, SignatureMatches, RequiredClaim;
    assert forall key :: key in VERIFIER_CLAIMS <==> key == "iss";
    assert VERIFIER_CLAIMS["iss"] == Str(ISSUER);
  }

  lemma CookieSignature(jwt: DecodedJwt, hmac: Hmac256)
    ensures SignatureMatches(map["HS256" := Hs256(hmac)], jwt)
       <==> && "alg" in jwt.headerClaims && jwt.headerClaims["alg"] == Str("HS256")
            && jwt.signature == hmac(SECRET, JoinDot(jwt.headerBase64, jwt.payloadBase64))
  {
  }

  lemma PartsAccepted(h: ByteString, p: ByteString, s: ByteString, now: Instant, hmac: Hmac256)
    requires NoDot(h) && NoDot(p)
    ensures CookieAccepted(JoinDot(JoinDot(h, p), s), now, hmac) <==> GoodParts(h, p, s, now, hmac)
  {
    var algs := map["HS256" := Hs256(hmac)];
    var r := DecodeToken(JoinDot(JoinDot(h, p), s));
    assert CookieAccepted(JoinDot(JoinDot(h, p), s), now, hmac)
      <==> r.Success? && Accepts(VERIFIER_CLAIMS, 0, algs, r.value, now);
    assert r.Success? && Accepts(VERIFIER_CLAIMS, 0, algs, r.value, now) ==> SignatureMatches(algs, r.value);
    hide DecodeToken, DecodeParts, PartClaims, DecodePart, Accepts, SignatureMatches, ClaimsHold, Hs256,
         CookieAccepted, NoDot;
    SplitsAtDots(h, p, s, JoinDot(JoinDot(h, p), s));
    DecodedParts(h, p, s);
    if r.Success? {
      CookieSignature(r.value, hmac);
      if SignatureMatches(algs, r.value) {
        VerifierClaimsHold(algs, r.value, now);
      }
    }
  }

  /**
   The accepted cookies, on the texts themselves: three parts between two dots, the first
   naming the algorithm, the last the hash of the other two under the secret, and the
   second with the issuer and no time claim that the time violates.
   */
  lemma AcceptedCookies(cookie: ByteString, now: Instant, hmac: Hmac256)
    ensures CookieAccepted(cookie, now, hmac)
       <==> exists h: ByteString, p: ByteString, s: ByteString ::
              && NoDot(h) && NoDot(p) && NoDot(s) && cookie == JoinDot(JoinDot(h, p), s)
              && GoodParts(h, p, s, now, hmac)
  {
    assert CookieAccepted(cookie, now, hmac) ==> DecodeToken(cookie).Success?;
    hide *;
    if CookieAccepted(cookie, now, hmac) {
      var h, p, s := AcceptedTokenSplits(cookie);
      PartsAccepted(h, p, s, now, hmac);
    }
    forall h: ByteString, p: ByteString, s: ByteString
      | NoDot(h) && NoDot(p) && cookie == JoinDot(JoinDot(h, p), s) && GoodParts(h, p, s, now, hmac)
      ensures CookieAccepted(cookie, now, hmac)
    {
      PartsAccepted(h, p, s, now, hmac);
    }
  }

  lemma JoinDotInjective(h: ByteString, p: ByteString, h': ByteString, p': ByteString)
    requires NoDot(h) && NoDot(h')
    ensures JoinDot(h, p) == JoinDot(h', p') ==> h == h' && p == p'
  {
    var a, b := JoinDot(h, p), JoinDot(h', p');
    if a == b {
      assert a[|h|] == '.' && b[|h'|] == '.';
      assert forall i :: 0 <= i < |h| ==> a[i] == h[i];
      assert forall i :: 0 <= i < |h'| ==> b[i] == h'[i];
      assert |h| == |h'|;
      assert a[..|h|] == h && b[..|h'|] == h' && a[|h| + 1..] == p && b[|h'| + 1..] == p';
    }
  }

  /** A cookie whose signature is not the hash of its first two parts is refused. */
  lemma ForgedCookieRefused(cookie: ByteString, jwt: DecodedJwt, now: Instant, hmac: Hmac256)
    requires DecodeToken(cookie) == Success(jwt)
    requires jwt.signature != Hs256(hmac).Sign(JoinDot(jwt.headerBase64, jwt.payloadBase64))
    ensures !CookieAccepted(cookie, now, hmac)
  {
    assert forall data :: Hs256(hmac).Sign(data) == hmac(SECRET, data);
    hide DecodeToken, DecodeParts, DecodePart, PartClaims, ClaimsHold, CookieAccepted, NoDot, Hs256, Algorithm.Sign;
    var h, p, s := AcceptedTokenSplits(cookie);
    SplitsAtDots(h, p, s, cookie);
    DecodedParts(h, p, s);
    PartsAccepted(h, p, s, now, hmac);
  }

  /** A signature moved to another header or payload passes only if the hash collides. */
  lemma MovedSignatureCollides(
    h: ByteString, p: ByteString, h': ByteString, p': ByteString, s: ByteString,
    now: Instant, now': Instant, hmac: Hmac256)
    requires NoDot(h) && NoDot(p) && NoDot(h') && NoDot(p')
    requires CookieAccepted(JoinDot(JoinDot(h, p), s), now, hmac)
    requires CookieAccepted(JoinDot(JoinDot(h', p'), s), now', hmac)
    ensures hmac(SECRET, JoinDot(h, p)) == hmac(SECRET, JoinDot(h', p'))
    ensures JoinDot(h, p) == JoinDot(h', p') ==> h == h' && p == p'
  {
    hide CookieAccepted, DecodePart, PartClaims, ClaimsHold, JoinDot;
    PartsAccepted(h, p, s, now, hmac);
    PartsAccepted(h', p', s, now', hmac);
    JoinDotInjective(h, p, h', p');
  }
}
