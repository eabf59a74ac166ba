/** Compact tokens (section 7.1 of RFC 7515, section 7 of RFC 7519) and their verification. */
module Jwt {
  import opened Basics
  import opened OrderedMap
  import opened JsonValue
  import JsonParse
  import opened Base64
  import Base64Laws
  import JsonBytes

  /** `unordered_map<string, claim>`: iterated in no particular order. */
  type Claims = map<string, Value>

  predicate ByteClaims(claims: Claims) {
    forall k :: k in claims ==> IsBytes(k) && ByteValue(claims[k])
  }

  /** Why decoding a token throws. */
  datatype Error = MissingDot | BadBase64 | BadJson | NotAnObject

  /** A keyed hash; the library's HMAC is a parameter of the model. */
  type Mac = ByteString -> ByteString

  datatype Algorithm = Unsigned | Hmac(hmacName: string, mac: Mac) {
    function Name(): string {
      if Unsigned? then "none" else hmacName
    }

    function Sign(data: ByteString): ByteString {
      if Unsigned? then "" else mac(data)
    }
  }

  // ----- Decoding -----

  datatype DecodedJwt = DecodedJwt(
    header: ByteString, headerBase64: ByteString,
    payload: ByteString, payloadBase64: ByteString,
    signature: ByteString, signatureBase64: ByteString,
    headerClaims: Claims, payloadClaims: Claims)

  /** `find(c, from)`; the length of `s` when there is none. */
  function Find(s: string, c: char, from: nat): (r: nat)
    requires from <= |s|
    ensures from <= r <= |s|
    ensures r < |s| ==> s[r] == c
    ensures forall i :: from <= i < r ==> s[i] != c
    decreases |s| - from
  {
    if from == |s| || s[from] == c then from else Find(s, c, from + 1)
  }

  /** A part of a token: base64url with its padding restored. */
  function DecodePart(part: ByteString): Option<ByteString> {
    Decode(Url, Pad(Url, part))
  }

  /** `parse_claims`: the members of the object the text starts with. */
  function ParseClaims(text: string): Result<Claims, Error> {
    match JsonParse.ParseValue(text)
    case Ok(Obj(fields), _) => Success(ToMap(fields))
    case Ok(_, _) => Failure(NotAnObject)
    case _ => Failure(BadJson)
  }

  function DecodeParts(headerBase64: ByteString, payloadBase64: ByteString, signatureBase64: ByteString)
    : Result<DecodedJwt, Error>
  {
    var header := DecodePart(headerBase64);
    var payload := DecodePart(payloadBase64);
    var signature := DecodePart(signatureBase64);
    if header.None? || payload.None? || signature.None? then Failure(BadBase64)
    else
      match ParseClaims(header.value)
      case Failure(e) => Failure(e)
      case Success(headerClaims) =>
        match ParseClaims(payload.value)
        case Failure(e) => Failure(e)
        case Success(payloadClaims) =>
          Success(DecodedJwt(header.value, headerBase64, payload.value, payloadBase64,
                             signature.value, signatureBase64, headerClaims, payloadClaims))
  }

  /** `decoded_jwt`. */
  function DecodeToken(token: ByteString): Result<DecodedJwt, Error> {
    var headerEnd := Find(token, '.', 0);
    if headerEnd == |token| then Failure(MissingDot)
    else
      var payloadEnd := Find(token, '.', headerEnd + 1);
      if payloadEnd == |token| then Failure(MissingDot)
      else DecodeParts(token[..headerEnd], token[headerEnd + 1..payloadEnd], token[payloadEnd + 1..])
  }

  function JoinDot(a: ByteString, b: ByteString): ByteString {
    a + "." + b
  }

  // ----- Building -----

  /** `trim(encode(data))`. */
  function EncodePart(data: ByteString): string {
    Trim(Url, Encode(Url, data))
  }

  /** The header claims over a default `alg`. */
  function HeaderWithAlgorithm(headerClaims: Claims, name: string): Claims {
    map["alg" := Str(name)] + headerClaims
  }

  /** The compact text of an object with these members. */
  ghost function ClaimsText(claims: Claims): string {
    Serialize(Obj(FromMap(claims)), false)
  }

  lemma ClaimsTextIsBytes(claims: Claims)
    requires ByteClaims(claims)
    ensures IsBytes(ClaimsText(claims))
  {
    var fields := FromMap(claims);
    forall i | 0 <= i < |fields| ensures IsBytes(fields[i].key) && ByteValue(fields[i].value) {
      EntryInMap(fields, i);
    }
    JsonBytes.SerializedIsBytes(Obj(fields), -1);
    hide Serialized;
  }

  lemma SpellsIsBytes(t: string)
    requires Url.Spells(t)
    ensures IsBytes(t)
  {}

  lemma EncodePartSpells(data: ByteString)
    ensures Url.Spells(EncodePart(data)) && IsBytes(EncodePart(data))
    ensures DecodePart(EncodePart(data)) == Some(data)
  {
    hide Trim, Encode, Decode, Pad, EncodeText, Alphabet.Spells;
    Base64Laws.TrimEncode(Url, data);
    Base64Laws.EncodeTextSpells(Url, data);
    Base64Laws.TrimmedRoundTrip(Url, data);
    SpellsIsBytes(EncodePart(data));
  }

  ghost function EncodedClaims(claims: Claims): (r: ByteString)
    requires ByteClaims(claims)
    ensures Url.Spells(r)
  {
    ClaimsTextIsBytes(claims);
    EncodePartSpells(ClaimsText(claims));
    EncodePart(ClaimsText(claims))
  }

  lemma HeaderIsBytes(headerClaims: Claims, name: string)
    requires ByteClaims(headerClaims) && IsBytes(name)
    ensures ByteClaims(HeaderWithAlgorithm(headerClaims, name))
  {}

  /** The bytes that are signed. */
  ghost function SigningInput(headerClaims: Claims, payloadClaims: Claims, name: string): (r: ByteString)
    requires ByteClaims(headerClaims) && ByteClaims(payloadClaims) && IsBytes(name)
  {
    HeaderIsBytes(headerClaims, name);
    JoinDot(EncodedClaims(HeaderWithAlgorithm(headerClaims, name)), EncodedClaims(payloadClaims))
  }

  /** The whole token. */
  ghost function TokenText(headerClaims: Claims, payloadClaims: Claims, algorithm: Algorithm): (r: ByteString)
    requires ByteClaims(headerClaims) && ByteClaims(payloadClaims) && IsBytes(algorithm.Name())
  {
    var input := SigningInput(headerClaims, payloadClaims, algorithm.Name());
    EncodePartSpells(algorithm.Sign(input));
    JoinDot(input, EncodePart(algorithm.Sign(input)))
  }

  // ----- Verifying -----

  /** Nanoseconds in a second: instants are counts of nanoseconds, like `system_clock`'s. */
  const NANOS: int := 1_000_000_000

  /** `to_time_t`: whole seconds, rounded towards zero. */
  function ToTimeT(instant: int): int {
    if instant >= 0 then instant / NANOS else -(-instant / NANOS)
  }

  /** `from_time_t`. */
  function FromTimeT(seconds: int): int {
    seconds * NANOS
  }

  /** `as_set`; `None` when it throws. */
  function StringSet(v: Value): Option<set<string>> {
    if !v.Arr? || exists i :: 0 <= i < |v.items| && !v.items[i].Str? then None
    else Some(set i | 0 <= i < |v.items| :: v.items[i].s)
  }

  /** The types of claims that `assert_claim_eq` tells apart. */
  predicate SameType(a: Value, b: Value) {
    || (a.Null? && b.Null?) || (a.Bool? && b.Bool?) || (a.Int? && b.Int?)
    || (a.Double? && b.Double?) || (a.Str? && b.Str?) || (a.Arr? && b.Arr?) || (a.Obj? && b.Obj?)
  }

  /** `assert_claim_eq` does not throw. */
  predicate ClaimMatches(payloadClaims: Claims, key: string, expected: Value) {
    && key in payloadClaims
    && var actual := payloadClaims[key];
       && SameType(actual, expected)
       && match expected
          case Int(n) => actual.n == n
          case Arr(_) => StringSet(expected).Some? && StringSet(actual) == StringSet(expected)
          case Obj(_) => Serialize(actual, false) == Serialize(expected, false)
          case Str(s) => actual.s == s
          case _ => false
  }

  /** `get_audience`; `None` when it throws. */
  function Audience(v: Value): Option<set<string>> {
    if v.Str? then Some({v.s}) else StringSet(v)
  }

  predicate AudienceMatches(payloadClaims: Claims, expected: Value) {
    && "aud" in payloadClaims && Audience(payloadClaims["aud"]).Some?
    && StringSet(expected).Some? && StringSet(expected).value <= Audience(payloadClaims["aud"]).value
  }

  /** The configured leeway for a time claim, in seconds; `None` when reading it throws. */
  function Leeway(claims: Claims, defaultLeeway: int, key: string): Option<int> {
    if key !in claims then Some(defaultLeeway)
    else if claims[key].Int? then Some(ToTimeT(FromTimeT(claims[key].n)))
    else None
  }

  /** A time claim that is absent, or an integer `t` with `lower` or `upper` bound met by `now`. */
  predicate TimeMatches(claims: Claims, defaultLeeway: int, payloadClaims: Claims, key: string, now: int) {
    key in payloadClaims ==>
      && Leeway(claims, defaultLeeway, key).Some?
      && payloadClaims[key].Int?
      && var leeway := Leeway(claims, defaultLeeway, key).value * NANOS;
         if key == "exp" then now <= FromTimeT(payloadClaims[key].n) + leeway
         else now >= FromTimeT(payloadClaims[key].n) - leeway
  }

  predicate RequiredClaim(payloadClaims: Claims, key: string, expected: Value) {
    if key == "exp" || key == "iat" || key == "nbf" then true
    else if key == "aud" then AudienceMatches(payloadClaims, expected)
    else ClaimMatches(payloadClaims, key, expected)
  }

  predicate SignatureMatches(algs: map<string, Algorithm>, jwt: DecodedJwt) {
    && "alg" in jwt.headerClaims && jwt.headerClaims["alg"].Str?
    && jwt.headerClaims["alg"].s in algs
    && jwt.signature
       == algs[jwt.headerClaims["alg"].s].Sign(JoinDot(jwt.headerBase64, jwt.payloadBase64))
  }

  /** `verify` returns normally. */
  predicate Accepts(claims: Claims, defaultLeeway: int, algs: map<string, Algorithm>, jwt: DecodedJwt, now: int) {
    && SignatureMatches(algs, jwt)
    && TimeMatches(claims, defaultLeeway, jwt.payloadClaims, "exp", now)
    && TimeMatches(claims, defaultLeeway, jwt.payloadClaims, "iat", now)
    && TimeMatches(claims, defaultLeeway, jwt.payloadClaims, "nbf", now)
    && forall key :: key in claims ==> RequiredClaim(jwt.payloadClaims, key, claims[key])
  }
}
