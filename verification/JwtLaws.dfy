/** Decoding a signed token gives back what was signed. */
module JwtLaws {
  import opened Basics
  import opened OrderedMap
  import opened JsonValue
  import JsonParse
  import JsonLaws
  import opened Base64
  import opened Base64Laws
  import opened Jwt

  predicate PlainClaims(claims: Claims) {
    forall k :: k in claims ==> Plain(claims[k])
  }

  lemma FieldsArePlain(claims: Claims)
    requires PlainClaims(claims)
    ensures Plain(Obj(FromMap(claims)))
  {
    var fields := FromMap(claims);
    forall i | 0 <= i < |fields| ensures Plain(fields[i].value) {
      EntryInMap(fields, i);
    }
  }

  lemma ClaimsRoundTrip(claims: Claims)
    requires PlainClaims(claims)
    ensures ParseClaims(ClaimsText(claims)) == Success(claims)
  {
    hide JsonParse.ParseValue, Serialize;
    FieldsArePlain(claims);
    var v := Obj(FromMap(claims));
    JsonLaws.DocumentRoundTrip(v, false, "");
    assert Serialize(v, false) + "" == Serialize(v, false);
  }

  predicate NoDot(s: string) {
    forall i :: 0 <= i < |s| ==> s[i] != '.'
  }

  lemma SpellsNoDot(t: string)
    requires Url.Spells(t)
    ensures NoDot(t)
  {
    forall i | 0 <= i < |t| ensures t[i] != '.' {
      assert Url.Sextet(t[i]).Some?;
    }
  }

  lemma NoDotJoined(a: string, b: string)
    ensures NoDot(a + b) <==> NoDot(a) && NoDot(b)
  {
    assert forall i :: 0 <= i < |a| ==> (a + b)[i] == a[i];
    assert forall i :: 0 <= i < |b| ==> (a + b)[|a| + i] == b[i];
  }

  lemma FillsNoDot(k: nat)
    requires k <= 2
    ensures NoDot(Repeat(Url.Fill(), k))
  {
    RepeatFew(Url.Fill());
    NoDotJoined(Url.Fill(), Url.Fill());
  }

  /** A part that decodes holds no dot: neither the alphabet nor the fill has one. */
  lemma DecodedPartNoDot(part: ByteString)
    requires DecodePart(part).Some?
    ensures NoDot(part)
  {
    hide Decode, Repeat, NoDot, Alphabet.Spells;
    DecodeDomain(Url, Pad(Url, part));
    var t, k :| Padded(Url, Pad(Url, part), t, k);
    SpellsNoDot(t);
    FillsNoDot(k);
    NoDotJoined(t, Repeat(Url.Fill(), k));
    NoDotJoined(part, Repeat(Url.Fill(), (4 - |part| % 4) % 4));
  }

  lemma SplitsAtDots(
    headerBase64: ByteString, payloadBase64: ByteString, signatureBase64: ByteString, token: ByteString)
    requires NoDot(headerBase64) && NoDot(payloadBase64)
    requires token == JoinDot(JoinDot(headerBase64, payloadBase64), signatureBase64)
    ensures DecodeToken(token) == DecodeParts(headerBase64, payloadBase64, signatureBase64)
  {
    hide DecodeParts;
    var h := |headerBase64|;
    var p := h + 1 + |payloadBase64|;
    assert forall i :: 0 <= i < h ==> token[i] == headerBase64[i];
    assert forall i :: h < i < p ==> token[i] == payloadBase64[i - h - 1];
    assert token[h] == '.' && token[p] == '.';
    assert Find(token, '.', 0) == h;
    assert Find(token, '.', h + 1) == p;
    assert token[..h] == headerBase64 && token[h + 1..p] == payloadBase64 && token[p + 1..] == signatureBase64;
  }

  /**
   The token law: for double-free claims, decoding the signed token gives exactly those
   payload claims, the header claims over a default `alg`, the signature's bytes, and the
   two encoded parts that were signed.
   */
  lemma TokenRoundTrip(headerClaims: Claims, payloadClaims: Claims, algorithm: Algorithm)
    requires ByteClaims(headerClaims) && ByteClaims(payloadClaims) && IsBytes(algorithm.Name())
    requires PlainClaims(headerClaims) && PlainClaims(payloadClaims)
    ensures var r := DecodeToken(TokenText(headerClaims, payloadClaims, algorithm));
            var input := SigningInput(headerClaims, payloadClaims, algorithm.Name());
            && r.Success?
            && r.value.payloadClaims == payloadClaims
            && r.value.headerClaims == HeaderWithAlgorithm(headerClaims, algorithm.Name())
            && JoinDot(r.value.headerBase64, r.value.payloadBase64) == input
            && r.value.signature == algorithm.Sign(input)
  {
    hide ClaimsText, EncodePart, DecodePart, ParseClaims, Alphabet.Spells;
    var fullHeader := HeaderWithAlgorithm(headerClaims, algorithm.Name());
    HeaderIsBytes(headerClaims, algorithm.Name());
    var h, p := EncodedClaims(fullHeader), EncodedClaims(payloadClaims);
    var signed := algorithm.Sign(JoinDot(h, p));
    ClaimsTextIsBytes(fullHeader);
    ClaimsTextIsBytes(payloadClaims);
    EncodePartSpells(ClaimsText(fullHeader));
    EncodePartSpells(ClaimsText(payloadClaims));
    EncodePartSpells(signed);
    SpellsNoDot(h);
    SpellsNoDot(p);
    SplitsAtDots(h, p, EncodePart(signed), TokenText(headerClaims, payloadClaims, algorithm));
    ClaimsRoundTrip(fullHeader);
    ClaimsRoundTrip(payloadClaims);
  }

  function Dots(s: string): nat {
    if s == "" then 0 else (if s[0] == '.' then 1 else 0) + Dots(s[1..])
  }

  lemma {:induction false} DotsOfParts(a: string, b: string)
    requires NoDot(a)
    ensures Dots(a) == 0 && Dots(a + "." + b) == 1 + Dots(b)
  {
    if a == "" {
      assert (a + "." + b)[1..] == b;
    } else {
      assert (a + "." + b)[1..] == a[1..] + "." + b;
      DotsOfParts(a[1..], b);
    }
  }

  lemma DecodedAtDots(token: ByteString) returns (h: nat, p: nat)
    requires DecodeToken(token).Success?
    ensures h < p < |token| && token[h] == '.' && token[p] == '.'
    ensures NoDot(token[..h]) && NoDot(token[h + 1..p]) && NoDot(token[p + 1..])
  {
    hide ParseClaims, DecodePart;
    h := Find(token, '.', 0);
    p := Find(token, '.', h + 1);
    DecodedPartNoDot(token[p + 1..]);
  }

  lemma CutAt(t: string, i: nat, j: nat)
    requires i < j < |t| && t[i] == '.' && t[j] == '.'
    ensures t == t[..i] + "." + t[i + 1..j] + "." + t[j + 1..]
  {
    assert t[..j] == t[..i] + "." + t[i + 1..j];
    assert t == t[..j] + "." + t[j + 1..];
  }

  lemma PartsAreBytes(t: ByteString, i: nat, j: nat)
    requires i < j < |t|
    ensures IsBytes(t[..i]) && IsBytes(t[i + 1..j]) && IsBytes(t[j + 1..])
  {
  }

  /** Every token the constructor accepts is three parts without dots, joined by dots. */
  lemma AcceptedTokenSplits(token: ByteString) returns (h: ByteString, p: ByteString, s: ByteString)
    requires DecodeToken(token).Success?
    ensures NoDot(h) && NoDot(p) && NoDot(s) && token == JoinDot(JoinDot(h, p), s)
  {
    var i, j := DecodedAtDots(token);
    PartsAreBytes(token, i, j);
    hide DecodeToken, NoDot, IsBytes;
    CutAt(token, i, j);
    h, p, s := token[..i], token[i + 1..j], token[j + 1..];
  }

  lemma NoDotsInNothing()
    ensures Dots("") == 0
  {
  }

  /** So it has exactly two dots. */
  lemma AcceptedTokenHasTwoDots(token: ByteString)
    requires DecodeToken(token).Success?
    ensures Dots(token) == 2
  {
    hide DecodeToken, Dots, NoDot;
    var h, p, s := AcceptedTokenSplits(token);
    assert token == h + "." + (p + "." + s);
    DotsOfParts(h, p + "." + s);
    DotsOfParts(p, s);
    DotsOfParts(s, "");
    NoDotsInNothing();
  }

  // ----- What decoding refuses -----

  lemma {:induction false} DotsFound(s: string, from: nat)
    requires from <= |s|
    ensures Dots(s[from..]) == if Find(s, '.', from) == |s| then 0 else 1 + Dots(s[Find(s, '.', from) + 1..])
    decreases |s| - from
  {
    if from == |s| {
    } else {
      assert s[from..][0] == s[from] && s[from..][1..] == s[from + 1..];
      if s[from] != '.' {
        DotsFound(s, from + 1);
      }
    }
  }

  predicate IsObjectText(text: string) {
    var r := JsonParse.ParseValue(text);
    r.Ok? && r.value.Obj?
  }

  /** Which parts are refused, and how: base64 first, then the header, then the payload. */
  lemma PartsDecide(h: ByteString, p: ByteString, s: ByteString)
    ensures var r := DecodeParts(h, p, s);
            var header, payload := DecodePart(h), DecodePart(p);
            if header.None? || payload.None? || DecodePart(s).None? then r == Failure(BadBase64)
            else if IsObjectText(header.value) && IsObjectText(payload.value) then r.Success?
            else
              var text := if IsObjectText(header.value) then payload.value else header.value;
              r == Failure(if JsonParse.ParseValue(text).Ok? then NotAnObject else BadJson)
  {
    hide DecodePart, JsonParse.ParseValue;
  }

  predicate LacksDot(token: string) {
    Find(token, '.', 0) == |token| || Find(token, '.', Find(token, '.', 0) + 1) == |token|
  }

  lemma FewDots(token: ByteString)
    ensures Dots(token) < 2 <==> LacksDot(token)
  {
    var i := Find(token, '.', 0);
    DotsFound(token, 0);
    assert token[0..] == token;
    hide Find, Dots;
    if i < |token| {
      DotsFound(token, i + 1);
    }
  }

  lemma NotMissing(h: ByteString, p: ByteString, s: ByteString)
    ensures DecodeParts(h, p, s) != Failure(MissingDot)
  {
    hide *;
    PartsDecide(h, p, s);
  }

  lemma DotLacking(token: ByteString)
    requires LacksDot(token)
    ensures DecodeToken(token) == Failure(MissingDot)
  {
    hide DecodeParts;
  }

  lemma DotsThere(token: ByteString) returns (h: ByteString, p: ByteString, s: ByteString)
    requires !LacksDot(token)
    ensures DecodeToken(token) == DecodeParts(h, p, s)
  {
    hide DecodeParts;
    var i := Find(token, '.', 0);
    var j := Find(token, '.', i + 1);
    PartsAreBytes(token, i, j);
    h, p, s := token[..i], token[i + 1..j], token[j + 1..];
  }

  lemma MissingDots(token: ByteString)
    ensures DecodeToken(token) == Failure(MissingDot) <==> LacksDot(token)
  {
    hide *;
    if LacksDot(token) {
      DotLacking(token);
    } else {
      var h, p, s := DotsThere(token);
      NotMissing(h, p, s);
    }
  }

  /** A text has parts if and only if it has two dots, and then only its parts matter. */
  lemma DotsDecide(token: ByteString)
    ensures DecodeToken(token) == Failure(MissingDot) <==> Dots(token) < 2
    ensures forall h: ByteString, p: ByteString, s: ByteString ::
              NoDot(h) && NoDot(p) && token == JoinDot(JoinDot(h, p), s) ==> DecodeToken(token) == DecodeParts(h, p, s)
  {
    hide *;
    FewDots(token);
    MissingDots(token);
    forall h: ByteString, p: ByteString, s: ByteString
      | NoDot(h) && NoDot(p) && token == JoinDot(JoinDot(h, p), s)
      ensures DecodeToken(token) == DecodeParts(h, p, s)
    {
      SplitsAtDots(h, p, s, token);
    }
  }

  // ----- What acceptance means -----

  /** For double-free objects, comparing texts is comparing values. */
  lemma ObjectClaimsCompare(payloadClaims: Claims, key: string, expected: Value)
    requires expected.Obj? && Plain(expected)
    requires key in payloadClaims ==> Plain(payloadClaims[key])
    ensures ClaimMatches(payloadClaims, key, expected)
       <==> key in payloadClaims && payloadClaims[key] == expected
  {
    if key in payloadClaims && Serialize(payloadClaims[key], false) == Serialize(expected, false) {
      JsonLaws.SerializeInjective(payloadClaims[key], expected, false);
    }
    hide Serialize;
  }

  /** All elements are strings. */
  predicate IsStringArray(v: Value) {
    v.Arr? && forall i :: 0 <= i < |v.items| ==> v.items[i].Str?
  }

  lemma StringsListed(v: Value)
    ensures StringSet(v).Some? <==> IsStringArray(v)
    ensures IsStringArray(v) ==> forall s :: s in StringSet(v).value <==> Str(s) in v.items
  {
    if IsStringArray(v) {
      forall s ensures s in StringSet(v).value <==> Str(s) in v.items {
        if Str(s) in v.items {
          var i :| 0 <= i < |v.items| && v.items[i] == Str(s);
          assert v.items[i].s in StringSet(v).value;
        }
      }
    }
  }

  /**
   When a claim is what is required: integers and strings when they are equal, arrays when
   they are of strings and list the same ones, objects when their texts are equal; nothing
   else ever.
   */
  lemma ClaimMatchesMeans(c: Claims, key: string, expected: Value)
    ensures expected.Int? || expected.Str? ==>
              (ClaimMatches(c, key, expected) <==> key in c && c[key] == expected)
    ensures expected.Arr? ==>
              (ClaimMatches(c, key, expected)
               <==> key in c && IsStringArray(c[key]) && IsStringArray(expected)
                    && forall s :: Str(s) in c[key].items <==> Str(s) in expected.items)
    ensures expected.Obj? ==>
              (ClaimMatches(c, key, expected)
               <==> key in c && c[key].Obj? && Serialize(c[key], false) == Serialize(expected, false))
    ensures expected.Null? || expected.Bool? || expected.Double? ==> !ClaimMatches(c, key, expected)
  {
    StringsListed(expected);
    if key in c {
      StringsListed(c[key]);
    }
    hide Serialize, StringSet;
    if key in c && IsStringArray(c[key]) && IsStringArray(expected) {
      var a, b := StringSet(c[key]).value, StringSet(expected).value;
      assert a == b <==> forall s :: s in a <==> s in b;
    }
  }

  /** Every required audience is the token's, or among the token's. */
  lemma AudienceMatchesMeans(c: Claims, expected: Value)
    ensures AudienceMatches(c, expected)
       <==> && IsStringArray(expected) && "aud" in c && (c["aud"].Str? || IsStringArray(c["aud"]))
            && forall v :: v in expected.items ==> if c["aud"].Str? then v == c["aud"] else v in c["aud"].items
  {
    StringsListed(expected);
    if "aud" in c {
      StringsListed(c["aud"]);
    }
    hide StringSet;
    if IsStringArray(expected) && "aud" in c && Audience(c["aud"]).Some? {
      var all := Audience(c["aud"]).value;
      assert forall s :: s in all <==> if c["aud"].Str? then Str(s) == c["aud"] else Str(s) in c["aud"].items;
      assert forall v :: v in expected.items ==> v.Str?;
      assert forall v :: v in expected.items ==> v == Str(v.s);
      assert forall v :: v in expected.items <==> v.Str? && v.s in StringSet(expected).value;
    }
  }

  lemma SecondsAgain(claims: Claims, key: string)
    ensures key in claims && claims[key].Int? ==> ToTimeT(FromTimeT(claims[key].n)) == claims[key].n
  {
  }

  /** The leeway of a time claim, in seconds, is its own or the default one; another type is refused. */
  lemma TimeMatchesMeans(claims: Claims, leeway: int, c: Claims, now: int)
    ensures var l := (key: string) => if key in claims && claims[key].Int? then claims[key].n as int else leeway;
            && (TimeMatches(claims, leeway, c, "exp", now)
                <==> "exp" in c ==> ("exp" in claims ==> claims["exp"].Int?) && c["exp"].Int?
                                    && now <= (c["exp"].n + l("exp")) * 1_000_000_000)
            && (TimeMatches(claims, leeway, c, "iat", now)
                <==> "iat" in c ==> ("iat" in claims ==> claims["iat"].Int?) && c["iat"].Int?
                                    && now >= (c["iat"].n - l("iat")) * 1_000_000_000)
            && (TimeMatches(claims, leeway, c, "nbf", now)
                <==> "nbf" in c ==> ("nbf" in claims ==> claims["nbf"].Int?) && c["nbf"].Int?
                                    && now >= (c["nbf"].n - l("nbf")) * 1_000_000_000)
  {
    SecondsAgain(claims, "exp");
    SecondsAgain(claims, "iat");
    SecondsAgain(claims, "nbf");
    hide ToTimeT;
  }

  /**
   What acceptance is: an allowed algorithm's signature of the two encoded parts, times
   within bounds, and every required claim met; required times are leeways and never refused.
   */
  lemma AcceptsMeans(claims: Claims, leeway: int, algs: map<string, Algorithm>, jwt: DecodedJwt, now: int)
    ensures Accepts(claims, leeway, algs, jwt, now)
       <==> && "alg" in jwt.headerClaims && jwt.headerClaims["alg"].Str? && jwt.headerClaims["alg"].s in algs
            && jwt.signature == algs[jwt.headerClaims["alg"].s].Sign(jwt.headerBase64 + "." + jwt.payloadBase64)
            && TimeMatches(claims, leeway, jwt.payloadClaims, "exp", now)
            && TimeMatches(claims, leeway, jwt.payloadClaims, "iat", now)
            && TimeMatches(claims, leeway, jwt.payloadClaims, "nbf", now)
            && ("aud" in claims ==> AudienceMatches(jwt.payloadClaims, claims["aud"]))
            && forall key :: key in claims && key !in {"exp", "iat", "nbf", "aud"} ==>
                 ClaimMatches(jwt.payloadClaims, key, claims[key])
  {
    hide TimeMatches, AudienceMatches, ClaimMatches, Algorithm.Sign;
    var c := jwt.payloadClaims;
    assert "aud" in claims ==> (RequiredClaim(c, "aud", claims["aud"]) <==> AudienceMatches(c, claims["aud"]));
    forall key | key in claims && key !in {"exp", "iat", "nbf", "aud"}
      ensures RequiredClaim(c, key, claims[key]) <==> ClaimMatches(c, key, claims[key])
    {
    }
  }

  /** A token's header: the claims that were set, and the algorithm's name if they do not set it. */
  lemma HeaderClaimsWin(headerClaims: Claims, name: string)
    ensures var h := HeaderWithAlgorithm(headerClaims, name);
            && h.Keys == headerClaims.Keys + {"alg"}
            && (forall key :: key in headerClaims ==> h[key] == headerClaims[key])
            && ("alg" !in headerClaims ==> h["alg"] == Str(name))
  {
  }

  const TIME_CLAIMS: set<string> := {"exp", "iat", "nbf"}

  /** The values of required claims that some token can meet. */
  predicate Meetable(key: string, expected: Value) {
    if key in TIME_CLAIMS then true
    else if key == "aud" then StringSet(expected).Some?
    else expected.Int? || expected.Str? || expected.Obj? || StringSet(expected).Some?
  }

  /** An audience can be required if and only if it is given as an array of strings. */
  lemma AudienceMeetable(expected: Value)
    ensures (exists p: Claims :: AudienceMatches(p, expected)) <==> StringSet(expected).Some?
  {
    if StringSet(expected).Some? {
      var p: Claims := map["aud" := expected];
      assert Audience(expected) == StringSet(expected);
      assert AudienceMatches(p, expected);
    }
  }

  /** The claims that are required meet themselves, each if and only if anything can meet it. */
  lemma MeetsItself(payloadClaims: Claims, key: string, expected: Value)
    requires key !in TIME_CLAIMS
    ensures RequiredClaim(payloadClaims, key, expected) ==> Meetable(key, expected)
    ensures Meetable(key, expected) && key in payloadClaims && payloadClaims[key] == expected
            ==> RequiredClaim(payloadClaims, key, expected)
  {
    if StringSet(expected).Some? {
      assert Audience(expected) == StringSet(expected);
    }
    hide Serialize;
  }

  /** A token that meets every requirement: it claims just what is required, and no times. */
  ghost function Witness(claims: Claims, algorithm: Algorithm): (token: ByteString)
    requires ByteClaims(claims) && IsBytes(algorithm.Name())
  {
    TokenText(map[], claims - TIME_CLAIMS, algorithm)
  }

  lemma WithoutTimes(claims: Claims)
    requires ByteClaims(claims) && PlainClaims(claims)
    ensures ByteClaims(claims - TIME_CLAIMS) && PlainClaims(claims - TIME_CLAIMS)
    ensures ByteClaims(map[]) && PlainClaims(map[])
  {
  }

  lemma NoTimesMatch(claims: Claims, leeway: int, required: Claims, now: int)
    ensures TimeMatches(required, leeway, claims - TIME_CLAIMS, "exp", now)
    ensures TimeMatches(required, leeway, claims - TIME_CLAIMS, "iat", now)
    ensures TimeMatches(required, leeway, claims - TIME_CLAIMS, "nbf", now)
  {
  }

  lemma RequirementsMet(claims: Claims)
    requires forall key :: key in claims ==> Meetable(key, claims[key])
    ensures forall key :: key in claims ==> RequiredClaim(claims - TIME_CLAIMS, key, claims[key])
  {
    forall key | key in claims ensures RequiredClaim(claims - TIME_CLAIMS, key, claims[key]) {
      if key !in TIME_CLAIMS {
        MeetsItself(claims - TIME_CLAIMS, key, claims[key]);
      }
    }
  }

  lemma DefaultAlgorithm(name: string)
    ensures HeaderWithAlgorithm(map[], name) == map["alg" := Str(name)]
  {
  }

  /** The witness is a text that the constructor decodes and the verifier accepts, at any time. */
  lemma WitnessAccepted(claims: Claims, leeway: int, algs: map<string, Algorithm>, name: string, now: int)
    requires ByteClaims(claims) && PlainClaims(claims)
    requires name in algs && algs[name].Name() == name && IsBytes(name)
    requires forall key :: key in claims ==> Meetable(key, claims[key])
    ensures var r := DecodeToken(Witness(claims, algs[name]));
            r.Success? && Accepts(claims, leeway, algs, r.value, now)
  {
    hide DecodeToken, TokenText, SigningInput, HeaderWithAlgorithm, TimeMatches, RequiredClaim, Meetable, ByteClaims,
         PlainClaims, IsBytes, Algorithm.Name, Algorithm.Sign;
    WithoutTimes(claims);
    TokenRoundTrip(map[], claims - TIME_CLAIMS, algs[name]);
    DefaultAlgorithm(name);
    NoTimesMatch(claims, leeway, claims, now);
    RequirementsMet(claims);
  }

  lemma AcceptedIsMeetable(claims: Claims, leeway: int, algs: map<string, Algorithm>, jwt: DecodedJwt, now: int)
    requires Accepts(claims, leeway, algs, jwt, now)
    ensures algs != map[] && forall key :: key in claims ==> Meetable(key, claims[key])
  {
    forall key | key in claims ensures Meetable(key, claims[key]) {
      if key !in TIME_CLAIMS {
        MeetsItself(jwt.payloadClaims, key, claims[key]);
      }
    }
    hide RequiredClaim, Meetable;
  }

  /** A token is accepted, as a text. */
  ghost predicate TokenAccepted(
    claims: Claims, leeway: int, algs: map<string, Algorithm>, token: ByteString, now: int)
  {
    DecodeToken(token).Success? && Accepts(claims, leeway, algs, DecodeToken(token).value, now)
  }

  /**
   A verifier whose algorithms have their own names, as `allow_algorithm` registers them,
   accepts some token text at some time if and only if it has an algorithm and each claim
   it requires has a value that some token can meet.
   */
  lemma VerifierSatisfiable(claims: Claims, leeway: int, algs: map<string, Algorithm>)
    requires ByteClaims(claims) && PlainClaims(claims)
    requires forall name :: name in algs ==> algs[name].Name() == name && IsBytes(name)
    ensures (exists token: ByteString, now :: TokenAccepted(claims, leeway, algs, token, now))
       <==> algs != map[] && forall key :: key in claims ==> Meetable(key, claims[key])
  {
    hide Accepts, DecodeToken, Meetable, Witness, ByteClaims, PlainClaims, IsBytes, Algorithm.Name;
    forall token: ByteString, now | TokenAccepted(claims, leeway, algs, token, now)
      ensures algs != map[] && forall key :: key in claims ==> Meetable(key, claims[key])
    {
      AcceptedIsMeetable(claims, leeway, algs, DecodeToken(token).value, now);
    }
    if algs != map[] && forall key :: key in claims ==> Meetable(key, claims[key]) {
      var name :| name in algs;
      WitnessAccepted(claims, leeway, algs, name, 0);
      assert TokenAccepted(claims, leeway, algs, Witness(claims, algs[name]), 0);
    }
  }

  /** In particular, an audience given as a single string makes every token fail. */
  lemma StringAudienceNeverMatches(
    claims: Claims, leeway: int, algs: map<string, Algorithm>, jwt: DecodedJwt, now: int)
    requires "aud" in claims && claims["aud"].Str?
    ensures !Accepts(claims, leeway, algs, jwt, now)
  {
    assert !Meetable("aud", claims["aud"]);
    hide Accepts;
    if Accepts(claims, leeway, algs, jwt, now) {
      AcceptedIsMeetable(claims, leeway, algs, jwt, now);
    }
  }
}
