/**
 * The compact token codec of src/utils/jwt.ts: JWS Compact Serialization
 * (section 7.1 of RFC 7515) of a JWT (RFC 7519) signed with HS256
 * (section 3.2 of RFC 7518), each segment in unpadded base64url
 * (section 5 of RFC 4648). HMAC-SHA256 and JSON are parameters; the clock
 * is the `nowMs` argument (milliseconds, as `Date.now()`).
 */
module Jwt {
  import opened Wrappers
  import opened Text
  import opened Codecs
  import opened JsonValues

  /** `createHmac('sha256', key).update(message).digest()`, keys and messages as text. */
  type Hmac = (string, string) -> seq<Byte>

  /** Default lifetime of a token: seven days in seconds. */
  const DefaultExpiresInSeconds: int := 7 * 24 * 3600

  /** The fixed header `{ alg: 'HS256', typ: 'JWT' }`. */
  const HeaderJson: Json := JObj(map["alg" := JStr("HS256"), "typ" := JStr("JWT")])

  const ErrFormat := "Invalid token format"
  const ErrSignature := "Invalid signature"
  const ErrExpired := "Token expired"
  const ErrFailed := "Verification failed"

  /** `base64url`: standard base64, then '=' removed, '+' to '-' and '/' to '_'. */
  function Base64Url(input: seq<Byte>): (s: string)
    ensures '=' !in s && '+' !in s && '/' !in s
  {
    ReplaceAll(ReplaceAll(RemoveAll(Base64Encode(input), '='), '+', '-'), '/', '_')
  }

  /** How verification reads a segment back: '-' to '+', '_' to '/', then base64. */
  function FromBase64Url(s: string): Option<seq<Byte>>
  {
    Base64Decode(ReplaceAll(ReplaceAll(s, '-', '+'), '_', '/'))
  }

  /** A base64url segment never contains the '.' that separates segments. */
  lemma Base64UrlHasNoDot(input: seq<Byte>)
    ensures '.' !in Base64Url(input)
  {
    var x := RemoveAll(Base64Encode(input), '=');
    Base64EncodeAlphabet(input);
    assert forall c :: c in x ==> Base64Value(c).Some?;
    var s := Base64Url(input);
    forall i | 0 <= i < |s| ensures s[i] != '.' {
      assert x[i] in x;
    }
  }

  /** Undoing the character substitution and decoding gives back the bytes. */
  lemma Base64UrlRoundTrip(input: seq<Byte>)
    ensures FromBase64Url(Base64Url(input)) == Some(input)
  {
    var x := RemoveAll(Base64Encode(input), '=');
    Base64EncodeAlphabet(input);
    assert forall c :: c in x ==> Base64Value(c).Some?;
    var back := ReplaceAll(ReplaceAll(Base64Url(input), '-', '+'), '_', '/');
    forall i | 0 <= i < |x| ensures back[i] == x[i] {
      assert x[i] in x;
    }
    assert back == x;
    Base64RoundTrip(input);
  }

  /**
   * The signed claims `{ iat: now, exp: now + expiresInSeconds, ...payload }`:
   * the caller's claims come last, so they win over `iat` and `exp`.
   */
  function FullPayload(payload: map<string, Json>, now: int, expiresInSeconds: int): (full: map<string, Json>)
    ensures full.Keys == payload.Keys + {"iat", "exp"}
    ensures forall k :: k in payload ==> full[k] == payload[k]
    ensures "iat" !in payload ==> full["iat"] == JNum(now)
    ensures "exp" !in payload ==> full["exp"] == JNum(now + expiresInSeconds)
  {
    map["iat" := JNum(now), "exp" := JNum(now + expiresInSeconds)] + payload
  }

  /**
   * `signJwt`: three '.'-separated segments, the header, the claims with
   * `iat`/`exp` in seconds, and the MAC of the first two segments joined by '.'.
   */
  function SignJwt(payload: map<string, Json>, secret: string, expiresInSeconds: int, nowMs: int,
                   hmac: Hmac, json: JsonCodec): (token: string)
    ensures var parts := Split(token, '.');
      && |parts| == 3
      && FromBase64Url(parts[0]) == Some(json.stringify(HeaderJson))
      && FromBase64Url(parts[1]) == Some(json.stringify(JObj(FullPayload(payload, nowMs / 1000, expiresInSeconds))))
      && FromBase64Url(parts[2]) == Some(hmac(secret, parts[0] + "." + parts[1]))
    ensures var parts := Split(token, '.');
      && |parts| == 3
      && parts[0] == Base64Url(json.stringify(HeaderJson))
      && parts[1] == Base64Url(json.stringify(JObj(FullPayload(payload, nowMs / 1000, expiresInSeconds))))
      && parts[2] == Base64Url(hmac(secret, parts[0] + "." + parts[1]))
  {
    var now := nowMs / 1000;
    var headerBytes := json.stringify(HeaderJson);
    var payloadBytes := json.stringify(JObj(FullPayload(payload, now, expiresInSeconds)));
    var headerB64 := Base64Url(headerBytes);
    var payloadB64 := Base64Url(payloadBytes);
    var toSign := headerB64 + "." + payloadB64;
    var mac := hmac(secret, toSign);
    var sigB64 := Base64Url(mac);
    Base64UrlHasNoDot(headerBytes);
    Base64UrlHasNoDot(payloadBytes);
    Base64UrlHasNoDot(mac);
    SplitThree(headerB64, payloadB64, sigB64, '.');
    Base64UrlRoundTrip(headerBytes);
    Base64UrlRoundTrip(payloadBytes);
    Base64UrlRoundTrip(mac);
    toSign + "." + sigB64
  }

  /** The result of `verifyJwt`: `{ valid: true, payload }` or `{ valid: false, error }`. */
  datatype Verdict = Valid(payload: Json) | Invalid(error: string)

  /**
   * The signature check: the third segment decodes to bytes of the same
   * length as, and equal to, the MAC recomputed over the first two.
   */
  predicate SignatureMatches(parts: seq<string>, secret: string, hmac: Hmac)
    requires |parts| == 3
  {
    var expected := hmac(secret, parts[0] + "." + parts[1]);
    match FromBase64Url(parts[2])
    case None => false
    case Some(actual) => |expected| == |actual| && expected == actual
  }

  /** `payload.exp && now > payload.exp` holds: a truthy `exp` that converts to a number below `now`. */
  predicate Expired(payload: Json, now: int)
  {
    match Property(payload, "exp")
    case None => false
    case Some(exp) => Truthy(exp) && ToNumber(exp).Num? && now > ToNumber(exp).n
  }

  /** `payload.exp && now > payload.exp` throws: a truthy `exp` whose conversion to a number throws. */
  predicate ExpiryThrows(payload: Json)
  {
    match Property(payload, "exp")
    case None => false
    case Some(exp) => Truthy(exp) && ToNumber(exp).Throws?
  }

  /**
   * The expiry rule on claims objects: no `exp`, or a falsy one (0, null,
   * false, ""), never expires; a numeric `exp` expires exactly when the
   * current second is past it; an empty array is truthy and compares as 0.
   */
  lemma ExpiryRule(claims: map<string, Json>, now: int)
    ensures "exp" !in claims ==> !Expired(JObj(claims), now)
    ensures "exp" in claims && !Truthy(claims["exp"]) ==> !Expired(JObj(claims), now)
    ensures "exp" in claims && claims["exp"].JNum? ==>
      (Expired(JObj(claims), now) <==> claims["exp"].n != 0 && now > claims["exp"].n)
    ensures "exp" in claims && claims["exp"] == JArr([]) ==> (Expired(JObj(claims), now) <==> now > 0)
    ensures "exp" in claims ==> !(Expired(JObj(claims), now) && ExpiryThrows(JObj(claims)))
    ensures "exp" in claims && claims["exp"].JObj? ==>
      (ExpiryThrows(JObj(claims)) <==> "toString" in claims["exp"].members)
    ensures "exp" in claims && claims["exp"].JArr? ==>
      (ExpiryThrows(JObj(claims)) <==>
         exists i | 0 <= i < |claims["exp"].items| :: CoercionThrows(claims["exp"].items[i]))
  {
  }

  /** The two ways a parsed `exp` makes the comparison throw: its own `toString` member, or an element's. */
  lemma ThrowingExpiry()
    ensures ExpiryThrows(JObj(map["exp" := JObj(map["toString" := JNum(0)])]))
    ensures ExpiryThrows(JObj(map["exp" := JArr([JNum(1), JObj(map["toString" := JNull])])]))
    ensures !ExpiryThrows(JObj(map["exp" := JObj(map["valueOf" := JNum(0)])]))
  {
    var inner := JObj(map["toString" := JNull]);
    assert JArr([JNum(1), inner]).items[1] == inner;
  }

  /**
   * `verifyJwt`: the segment count, then the signature, and only then the
   * claims are decoded, parsed and checked for expiry. A payload that does
   * not parse, parses to null (reading `exp` of null throws), or has an
   * `exp` whose comparison with the clock throws, ends in the catch-all
   * error.
   */
  function VerifyJwt(token: string, secret: string, nowMs: int, hmac: Hmac, json: JsonCodec): (r: Verdict)
    ensures r == Invalid(ErrFormat) <==> |Split(token, '.')| != 3
    ensures var parts := Split(token, '.');
      |parts| == 3 && FromBase64Url(parts[2]) != Some(hmac(secret, parts[0] + "." + parts[1]))
      ==> r == Invalid(ErrSignature)
    ensures r.Valid? ==> var parts := Split(token, '.');
      && FromBase64Url(parts[2]) == Some(hmac(secret, parts[0] + "." + parts[1]))
      && FromBase64Url(parts[1]).Some?
      && json.parse(FromBase64Url(parts[1]).value) == Some(r.payload)
      && !ExpiryThrows(r.payload)
      && !Expired(r.payload, nowMs / 1000)
    ensures r.Invalid? ==> r.error in {ErrFormat, ErrSignature, ErrExpired, ErrFailed}
    ensures r == Invalid(ErrSignature) <==> var parts := Split(token, '.');
      |parts| == 3 && !SignatureMatches(parts, secret, hmac)
    ensures var parts := Split(token, '.');
      |parts| == 3 && SignatureMatches(parts, secret, hmac) ==>
        match FromBase64Url(parts[1])
        case None => r == Invalid(ErrFailed)
        case Some(payloadBytes) =>
          match json.parse(payloadBytes)
          case None => r == Invalid(ErrFailed)
          case Some(payload) =>
            && (payload == JNull || ExpiryThrows(payload) ==> r == Invalid(ErrFailed))
            && (payload != JNull && !ExpiryThrows(payload) && Expired(payload, nowMs / 1000) ==>
                  r == Invalid(ErrExpired))
            && (payload != JNull && !ExpiryThrows(payload) && !Expired(payload, nowMs / 1000) ==>
                  r == Valid(payload))
  {
    var parts := Split(token, '.');
    if |parts| != 3 then Invalid(ErrFormat)
    else if !SignatureMatches(parts, secret, hmac) then Invalid(ErrSignature)
    else match FromBase64Url(parts[1])
      case None => Invalid(ErrFailed)
      case Some(payloadBytes) =>
        match json.parse(payloadBytes)
        case None => Invalid(ErrFailed)
        case Some(payload) =>
          if payload == JNull || ExpiryThrows(payload) then Invalid(ErrFailed)
          else if Expired(payload, nowMs / 1000) then Invalid(ErrExpired)
          else Valid(payload)
  }

  /**
   * Round trip: verifying a freshly signed token with the same secret
   * returns the merged claims, unless those claims are already expired at
   * the verification time, or carry an `exp` whose comparison throws.
   */
  lemma SignThenVerify(payload: map<string, Json>, secret: string, expiresInSeconds: int,
                       signedAtMs: int, verifiedAtMs: int, hmac: Hmac, json: JsonCodec)
    requires RoundTrips(json)
    ensures var full := JObj(FullPayload(payload, signedAtMs / 1000, expiresInSeconds));
      VerifyJwt(SignJwt(payload, secret, expiresInSeconds, signedAtMs, hmac, json), secret, verifiedAtMs, hmac, json)
      == if ExpiryThrows(full) then Invalid(ErrFailed)
         else if Expired(full, verifiedAtMs / 1000) then Invalid(ErrExpired)
         else Valid(full)
  {
    var full := JObj(FullPayload(payload, signedAtMs / 1000, expiresInSeconds));
    var token := SignJwt(payload, secret, expiresInSeconds, signedAtMs, hmac, json);
    var parts := Split(token, '.');
    assert SignatureMatches(parts, secret, hmac);
    assert json.parse(json.stringify(full)) == Some(full);
  }

  /**
   * Lifetime of a token whose claims do not override `exp`: it verifies
   * up to and including second `iat + expiresInSeconds` and is expired
   * after it; an `exp` of 0 is falsy and is never checked.
   */
  lemma TokenLifetime(payload: map<string, Json>, secret: string, expiresInSeconds: int,
                      signedAtMs: int, verifiedAtMs: int, hmac: Hmac, json: JsonCodec)
    requires RoundTrips(json)
    requires "exp" !in payload
    ensures var exp := signedAtMs / 1000 + expiresInSeconds;
      var r := VerifyJwt(SignJwt(payload, secret, expiresInSeconds, signedAtMs, hmac, json), secret, verifiedAtMs, hmac, json);
      && (r.Valid? <==> (exp == 0 || verifiedAtMs / 1000 <= exp))
      && (r.Valid? ==> r.payload == JObj(FullPayload(payload, signedAtMs / 1000, expiresInSeconds)))
      && (r.Invalid? ==> r.error == ErrExpired)
  {
    SignThenVerify(payload, secret, expiresInSeconds, signedAtMs, verifiedAtMs, hmac, json);
  }

  /** With a non-negative lifetime and no `exp` of the caller's, a token verifies at the moment it is signed. */
  lemma FreshTokenIsValid(payload: map<string, Json>, secret: string, expiresInSeconds: int,
                          nowMs: int, hmac: Hmac, json: JsonCodec)
    requires RoundTrips(json)
    requires "exp" !in payload && expiresInSeconds >= 0
    ensures VerifyJwt(SignJwt(payload, secret, expiresInSeconds, nowMs, hmac, json), secret, nowMs, hmac, json)
         == Valid(JObj(FullPayload(payload, nowMs / 1000, expiresInSeconds)))
  {
    TokenLifetime(payload, secret, expiresInSeconds, nowMs, nowMs, hmac, json);
  }
}
