/** The token builder, the decoder and the verifier as the library runs them. */
module JwtTokens {
  import opened Basics
  import opened OrderedMap
  import opened JsonValue
  import JsonParse
  import JsonParser
  import JsonSerializer
  import opened Base64
  import opened Jwt

  // ----- Decoding -----

  /** `pad` and `decode` of one part. */
  method DecodePartText(part: ByteString) returns (r: Option<ByteString>)
    ensures r == DecodePart(part)
  {
    var padded := PadText(part, Url);
    r := DecodeBytes(padded, Url);
  }

  lemma {:induction false} ToMapGrows(fields: seq<Entry<Value>>, i: nat)
    requires i < |fields|
    ensures ToMap(fields[..i + 1])
         == if fields[i].key in ToMap(fields[..i]) then ToMap(fields[..i])
            else ToMap(fields[..i])[fields[i].key := fields[i].value]
  {
    if i == 0 {
      assert fields[..1][1..] == [];
    } else {
      ToMapGrows(fields[1..], i - 1);
      assert fields[..i + 1][1..] == fields[1..][..i] && fields[..i][1..] == fields[1..][..i - 1];
    }
  }

  /** `parse_claims`: `insert` keeps the first of two members with one name. */
  method ParseClaimsText(text: string) returns (r: Result<Claims, Error>)
    ensures r == ParseClaims(text)
  {
    hide JsonParse.ParseValue;
    var status, value, err := JsonParser.ParseDocument(text);
    if status == JsonParser.Threw || err != "" {
      return Failure(BadJson);
    }
    if !value.Obj? {
      return Failure(NotAnObject);
    }
    var res: Claims := map[];
    for i := 0 to |value.fields|
      invariant res == ToMap(value.fields[..i])
    {
      ToMapGrows(value.fields, i);
      var e := value.fields[i];
      if e.key !in res {
        res := res[e.key := e.value];
      }
    }
    assert value.fields[..|value.fields|] == value.fields;
    return Success(res);
  }

  /** `decoded_jwt(const std::string& token)`. */
  method DecodeTokenText(token: ByteString) returns (r: Result<DecodedJwt, Error>)
    ensures r == DecodeToken(token)
  {
    hide DecodePart, ParseClaims;
    var headerEnd := Find(token, '.', 0);
    if headerEnd == |token| {
      return Failure(MissingDot);
    }
    var payloadEnd := Find(token, '.', headerEnd + 1);
    if payloadEnd == |token| {
      return Failure(MissingDot);
    }
    var headerBase64: ByteString := token[..headerEnd];
    var payloadBase64: ByteString := token[headerEnd + 1..payloadEnd];
    var signatureBase64: ByteString := token[payloadEnd + 1..];
    var header := DecodePartText(headerBase64);
    if header.None? {
      return Failure(BadBase64);
    }
    var payload := DecodePartText(payloadBase64);
    if payload.None? {
      return Failure(BadBase64);
    }
    var signature := DecodePartText(signatureBase64);
    if signature.None? {
      return Failure(BadBase64);
    }
    var headerClaims := ParseClaimsText(header.value);
    if headerClaims.Failure? {
      return Failure(headerClaims.error);
    }
    var payloadClaims := ParseClaimsText(payload.value);
    if payloadClaims.Failure? {
      return Failure(payloadClaims.error);
    }
    return Success(DecodedJwt(header.value, headerBase64, payload.value, payloadBase64,
                              signature.value, signatureBase64, headerClaims.value, payloadClaims.value));
  }

  // ----- Building -----

  function RemoveKey(m: Claims, k: string): (r: Claims)
    requires k in m
    ensures |r| < |m| && forall a: Claims :: a[k := m[k]] + r == a + m
  {
    var r := m - {k};
    assert r.Keys == m.Keys - {k};
    assert |r.Keys| < |m.Keys|;
    r
  }

  class Builder {
    var headerClaims: Claims
    var payloadClaims: Claims

    ghost predicate Valid()
      reads this
    {
      ByteClaims(headerClaims) && ByteClaims(payloadClaims)
    }

    constructor ()
      ensures Valid() && headerClaims == map[] && payloadClaims == map[]
    {
      headerClaims, payloadClaims := map[], map[];
    }

    method SetHeaderClaim(id: ByteString, c: Value)
      requires Valid() && ByteValue(c)
      modifies this
      ensures Valid()
      ensures headerClaims == old(headerClaims)[id := c] && payloadClaims == old(payloadClaims)
    {
      headerClaims := headerClaims[id := c];
    }

    method SetPayloadClaim(id: ByteString, c: Value)
      requires Valid() && ByteValue(c)
      modifies this
      ensures Valid()
      ensures payloadClaims == old(payloadClaims)[id := c] && headerClaims == old(headerClaims)
    {
      payloadClaims := payloadClaims[id := c];
    }

    /** The member order does not depend on the order the claims are visited in. */
    method ToObject(claims: Claims, start: seq<Entry<Value>>) returns (fields: seq<Entry<Value>>)
      requires Ascending(start)
      ensures fields == FromMap(ToMap(start) + claims)
    {
      hide Ascending, FromMap, ToMap, Put;
      ghost var all := ToMap(start) + claims;
      fields := start;
      var todo := claims;
      while todo != map[]
        invariant Ascending(fields) && ToMap(fields) + todo == all
        decreases |todo|
      {
        var k :| k in todo;
        PutAscending(fields, k, todo[k]);
        PutIsUpdate(fields, k, todo[k]);
        fields := Put(fields, k, todo[k]);
        todo := RemoveKey(todo, k);
      }
      assert ToMap(fields) + map[] == ToMap(fields);
      AscendingUnique(fields, FromMap(all));
    }

    method EncodeObject(fields: seq<Entry<Value>>, ghost claims: Claims) returns (part: ByteString)
      requires fields == FromMap(claims) && ByteClaims(claims)
      ensures part == EncodedClaims(claims)
    {
      hide Serialize, Encode, Trim, Alphabet.Spells;
      var text := JsonSerializer.SerializeToString(Obj(fields), false);
      ClaimsTextIsBytes(claims);
      part := EncodePartText(text);
    }

    method EncodePartText(data: ByteString) returns (part: ByteString)
      ensures part == EncodePart(data)
    {
      hide Trim, Encode, Alphabet.Spells;
      var encoded := EncodeBytes(data, Url);
      EncodePartSpells(data);
      part := Trim(Url, encoded);
    }

    /** `sign`. */
    method Sign(algorithm: Algorithm) returns (token: ByteString)
      requires Valid() && IsBytes(algorithm.Name())
      ensures token == TokenText(headerClaims, payloadClaims, algorithm)
    {
      hide EncodedClaims, EncodePart, FromMap;
      var objHeader := Put([], "alg", Str(algorithm.Name()));
      PutAscending<Value>([], "alg", Str(algorithm.Name()));
      PutIsUpdate<Value>([], "alg", Str(algorithm.Name()));
      objHeader := ToObject(headerClaims, objHeader);
      var objPayload := ToObject(payloadClaims, []);
      assert map[] + payloadClaims == payloadClaims;
      assert map["alg" := Str(algorithm.Name())] == map[]["alg" := Str(algorithm.Name())];
      HeaderIsBytes(headerClaims, algorithm.Name());
      var header := EncodeObject(objHeader, HeaderWithAlgorithm(headerClaims, algorithm.Name()));
      var payload := EncodeObject(objPayload, payloadClaims);
      var data := JoinDot(header, payload);
      var signature := EncodePartText(algorithm.Sign(data));
      token := JoinDot(data, signature);
    }
  }

  // ----- Verifying -----

  /** `hmacsha::verify`: compares every byte both signatures have, then the lengths. */
  method SignatureEquals(res: string, signature: string) returns (matched: bool)
    ensures matched <==> res == signature
  {
    matched := true;
    var n := if |res| < |signature| then |res| else |signature|;
    for i := 0 to n
      invariant matched <==> res[..i] == signature[..i]
    {
      assert res[..i + 1] == res[..i] + [res[i]] && signature[..i + 1] == signature[..i] + [signature[i]];
      if res[i] != signature[i] {
        matched := false;
      }
    }
    if |res| != |signature| {
      matched := false;
    }
    assert |res| == |signature| ==> res[..n] == res && signature[..n] == signature;
  }

  /** The strings of a `std::set<std::string>` in order. */
  type StringOrder = seq<Entry<()>>

  ghost function Members(s: StringOrder): set<string> {
    ToMap(s).Keys
  }

  lemma OneUnit(u: (), v: ())
    ensures u == v
  {
    match u { case () => }
    match v { case () => }
  }

  lemma SameMembers(a: StringOrder, b: StringOrder)
    requires Ascending(a) && Ascending(b)
    ensures a == b <==> Members(a) == Members(b)
  {
    if Members(a) == Members(b) {
      forall k | k in ToMap(a) ensures ToMap(a)[k] == ToMap(b)[k] {
        OneUnit(ToMap(a)[k], ToMap(b)[k]);
      }
      assert ToMap(a) == ToMap(b);
      AscendingUnique(a, b);
    }
  }

  lemma Empty()
    ensures Ascending<()>([]) && Members([]) == {}
  {}

  /** `as_set`. */
  method AsSet(v: Value) returns (r: Option<StringOrder>)
    ensures r.Some? <==> StringSet(v).Some?
    ensures r.Some? ==> Ascending(r.value) && Members(r.value) == StringSet(v).value
  {
    hide Put, Ascending, ToMap;
    if !v.Arr? {
      return None;
    }
    var res: StringOrder := [];
    Empty();
    for i := 0 to |v.items|
      invariant forall j :: 0 <= j < i ==> v.items[j].Str?
      invariant Ascending(res)
      invariant Members(res) == set j | 0 <= j < i :: v.items[j].s
    {
      if !v.items[i].Str? {
        return None;
      }
      PutAscending(res, v.items[i].s, ());
      PutIsUpdate(res, v.items[i].s, ());
      res := Put(res, v.items[i].s, ());
    }
    return Some(res);
  }

  /** The comparison of two sets by a pair of iterators, after that of their sizes. */
  method SetsEqual(s1: StringOrder, s2: StringOrder) returns (equal: bool)
    requires Ascending(s1) && Ascending(s2)
    ensures equal <==> Members(s1) == Members(s2)
  {
    SameMembers(s1, s2);
    if |s1| != |s2| {
      return false;
    }
    for i := 0 to |s1|
      invariant forall j :: 0 <= j < i ==> s1[j] == s2[j]
    {
      OneUnit(s1[i].value, s2[i].value);
      if s1[i].key != s2[i].key {
        return false;
      }
    }
    assert s1 == s2;
    return true;
  }

  /** `assert_claim_eq`; false when it throws. */
  method ClaimEquals(payloadClaims: Claims, key: string, c: Value) returns (ok: bool)
    ensures ok <==> ClaimMatches(payloadClaims, key, c)
  {
    hide StringSet, Serialize;
    if key !in payloadClaims {
      return false;
    }
    var jc := payloadClaims[key];
    if !SameType(jc, c) {
      return false;
    }
    match c {
      case Int(n) =>
        assert FromTimeT(n) == FromTimeT(jc.n) <==> n == jc.n;
        return FromTimeT(n) == FromTimeT(jc.n);
      case Arr(_) =>
        var s1 := AsSet(c);
        if s1.None? {
          return false;
        }
        var s2 := AsSet(jc);
        if s2.None? {
          return false;
        }
        ok := SetsEqual(s1.value, s2.value);
      case Obj(_) =>
        var expected := JsonSerializer.SerializeToString(c, false);
        var actual := JsonSerializer.SerializeToString(jc, false);
        return expected == actual;
      case Str(s) =>
        return s == jc.s;
      case _ =>
        return false;
    }
  }

  lemma Single(s: string)
    ensures Members([Entry(s, ())]) == {s} && Ascending([Entry(s, ())])
  {
    assert [Entry(s, ())][1..] == [];
  }

  /** The part of `verify` for a required audience; false when it throws. */
  method AudienceIncludes(payloadClaims: Claims, c: Value) returns (ok: bool)
    ensures ok <==> AudienceMatches(payloadClaims, c)
  {
    hide StringSet;
    if "aud" !in payloadClaims {
      return false;
    }
    var aud := payloadClaims["aud"];
    var present: Option<StringOrder>;
    if aud.Str? {
      Single(aud.s);
      present := Some([Entry(aud.s, ())]);
    } else {
      present := AsSet(aud);
    }
    if present.None? {
      return false;
    }
    var expected := AsSet(c);
    if expected.None? {
      return false;
    }
    for i := 0 to |expected.value|
      invariant forall j :: 0 <= j < i ==> expected.value[j].key in Members(present.value)
    {
      ToMapHas(present.value, expected.value[i].key);
      if !Has(present.value, expected.value[i].key) {
        EntryInMap(expected.value, i);
        return false;
      }
    }
    forall k | k in Members(expected.value) ensures k in Members(present.value) {
      ToMapHas(expected.value, k);
    }
    return true;
  }

  class Verifier {
    var claims: Claims
    var defaultLeeway: int
    var algs: map<string, Algorithm>

    constructor ()
      ensures claims == map[] && defaultLeeway == 0 && algs == map[]
    {
      claims, defaultLeeway, algs := map[], 0, map[];
    }

    method WithLeeway(seconds: nat)
      modifies this
      ensures defaultLeeway == seconds && claims == old(claims) && algs == old(algs)
    {
      defaultLeeway := seconds;
    }

    method WithClaim(name: string, c: Value)
      modifies this
      ensures claims == old(claims)[name := c]
      ensures defaultLeeway == old(defaultLeeway) && algs == old(algs)
    {
      claims := claims[name := c];
    }

    method AllowAlgorithm(algorithm: Algorithm)
      modifies this
      ensures algs == old(algs)[algorithm.Name() := algorithm]
      ensures claims == old(claims) && defaultLeeway == old(defaultLeeway)
    {
      algs := algs[algorithm.Name() := algorithm];
    }

    /** The check of one time claim; false when it throws. */
    method TimeInBounds(payloadClaims: Claims, key: string, now: int) returns (ok: bool)
      ensures ok <==> TimeMatches(claims, defaultLeeway, payloadClaims, key, now)
    {
      if key !in payloadClaims {
        return true;
      }
      var leeway := defaultLeeway;
      if key in claims {
        if !claims[key].Int? {
          return false;
        }
        leeway := ToTimeT(FromTimeT(claims[key].n));
      }
      if !payloadClaims[key].Int? {
        return false;
      }
      var instant := FromTimeT(payloadClaims[key].n);
      if key == "exp" {
        return !(now > instant + leeway * NANOS);
      } else {
        return !(now < instant - leeway * NANOS);
      }
    }

    /** `verify`: false stands for any of the exceptions. */
    method Verify(jwt: DecodedJwt, now: int) returns (ok: bool)
      ensures ok <==> Accepts(claims, defaultLeeway, algs, jwt, now)
    {
      hide TimeMatches, RequiredClaim;
      if "alg" !in jwt.headerClaims || !jwt.headerClaims["alg"].Str? {
        return false;
      }
      var algo := jwt.headerClaims["alg"].s;
      if algo !in algs {
        return false;
      }
      var signature := algs[algo].Sign(JoinDot(jwt.headerBase64, jwt.payloadBase64));
      ok := SignatureEquals(signature, jwt.signature);
      if !ok {
        return;
      }
      ok := TimeInBounds(jwt.payloadClaims, "exp", now);
      if !ok {
        return;
      }
      ok := TimeInBounds(jwt.payloadClaims, "iat", now);
      if !ok {
        return;
      }
      ok := TimeInBounds(jwt.payloadClaims, "nbf", now);
      if !ok {
        return;
      }
      var todo := claims.Keys;
      while todo != {}
        invariant todo <= claims.Keys
        invariant forall k :: k in claims && k !in todo ==> RequiredClaim(jwt.payloadClaims, k, claims[k])
        decreases |todo|
      {
        var k :| k in todo;
        ok := CheckClaim(jwt.payloadClaims, k, claims[k]);
        if !ok {
          return;
        }
        todo := todo - {k};
      }
      return true;
    }

    method CheckClaim(payloadClaims: Claims, key: string, c: Value) returns (ok: bool)
      ensures ok <==> RequiredClaim(payloadClaims, key, c)
    {
      hide ClaimMatches, AudienceMatches;
      if key == "exp" || key == "iat" || key == "nbf" {
        return true;
      } else if key == "aud" {
        ok := AudienceIncludes(payloadClaims, c);
      } else {
        ok := ClaimEquals(payloadClaims, key, c);
      }
    }
  }
}
