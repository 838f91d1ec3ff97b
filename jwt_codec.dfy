/**
 * The JSON Web Token library as the services call it: `sign`, `verify` and `decode` of
 * tokens with the registered claims of section 4.1 of RFC 7519, signed with HS256 or
 * RS256 (sections 3.2 and 3.3 of RFC 7518).
 *
 * The codec is concrete but not cryptographic. A token is `header.payload.signature`;
 * the header names the algorithm; the payload lists the claims as hexadecimal character
 * codes and decimal numbers separated by `-`; the signature is a hexadecimal rendering
 * of the verifying key, the header and the payload. An RS256 token is verified with the
 * public key that belongs to its private signing key, modelled by `PublicKeyOf`.
 */
module JwtCodec {
  import opened Wrappers
  import opened Text
  import opened Numerals

  datatype Algorithm = HS256 | RS256

  function AlgName(alg: Algorithm): string {
    match alg
    case HS256 => "HS256"
    case RS256 => "RS256"
  }

  function ParseAlg(header: string): (r: Option<Algorithm>)
    ensures r.Some? ==> AlgName(r.value) == header
  {
    if header == "HS256" then Some(HS256)
    else if header == "RS256" then Some(RS256)
    else None
  }

  /** The private claims of the three payload shapes the services sign. */
  datatype Payload =
    | AccessPayload(id: string)
    | RefreshPayload(id: string, version: nat, tokenId: string)
    | EmailPayload(id: string, version: nat)

  /** A payload with the registered claims `sign` adds: issuer, subject, audience, issued-at and expiry in unix seconds. */
  datatype Claims = Claims(payload: Payload, iss: string, sub: string, aud: string, iat: nat, exp: nat)

  /** The rejections of `verify`; `TokenExpiredError` is the library's subclass for an exceeded expiry or maximum age. */
  datatype VerifyError =
    | TokenExpiredError(message: string)
    | JsonWebTokenError(message: string)
    | OtherError(message: string)

  /** The options of `sign`: the registered claims and the lifetime in seconds. */
  datatype SignOptions = SignOptions(issuer: string, subject: string, audience: string, algorithm: Algorithm, expiresIn: nat)

  /**
   * The options of `verify`: the expected issuer, the audience pattern, the maximum age
   * in seconds and the accepted algorithms.
   */
  datatype VerifyOptions = VerifyOptions(issuer: string, audience: string, maxAge: nat, algorithms: seq<Algorithm>)

  // ---------------------------------------------------------------------------
  // The payload segment
  // ---------------------------------------------------------------------------

  /** Six hexadecimal digits hold any Unicode scalar value. */
  const CharWidth: nat := 6

  function EncChar(c: char): (h: string)
    ensures |h| == CharWidth && AllDigitsOf(h, 16)
  {
    FixedHex(c as int, CharWidth)
  }

  function EncStr(s: string): (h: string)
    ensures |h| == CharWidth * |s| && AllDigitsOf(h, 16)
    decreases |s|
  {
    if |s| == 0 then []
    else
      var head := EncChar(s[0]);
      var rest := EncStr(s[1..]);
      assert forall i :: 0 <= i < |head + rest| ==>
        (head + rest)[i] == if i < |head| then head[i] else rest[i - |head|];
      head + rest
  }

  function DecChar(h: string): Option<char> {
    if !AllDigitsOf(h, 16) then None
    else
      var n := FromDigits(h, 16);
      if n < 0xD800 || 0xE000 <= n < 0x11_0000 then Some(n as char) else None
  }

  function DecStr(h: string): Option<string>
    decreases |h|
  {
    if |h| == 0 then Some([])
    else if |h| < CharWidth then None
    else
      var c :- DecChar(h[..CharWidth]);
      var rest :- DecStr(h[CharWidth..]);
      Some([c] + rest)
  }

  lemma DecEncChar(c: char)
    ensures DecChar(EncChar(c)) == Some(c)
  {
    assert Pow16(CharWidth) == 0x100_0000;
    FromFixedHex(c as int, CharWidth);
  }

  /** Reading back the hexadecimal rendering of a string gives the string. */
  lemma {:induction false} DecEncStr(s: string)
    ensures DecStr(EncStr(s)) == Some(s)
    decreases |s|
  {
    if |s| > 0 {
      var head, rest := EncChar(s[0]), EncStr(s[1..]);
      assert EncStr(s) == head + rest;
      DecEncChar(s[0]);
      DecEncStr(s[1..]);
      DecHead(head, rest, s[0], s[1..]);
      assert [s[0]] + s[1..] == s;
    }
  }

  /** Decoding a six-digit head followed by a decodable rest. */
  lemma DecHead(head: string, rest: string, c: char, t: string)
    requires |head| == CharWidth && DecChar(head) == Some(c) && DecStr(rest) == Some(t)
    ensures DecStr(head + rest) == Some([c] + t)
  {
    var h := head + rest;
    assert h[..CharWidth] == head && h[CharWidth..] == rest;
  }

  function DecNat(s: string): Option<nat> {
    if 0 < |s| && AllDigitsOf(s, 10) then Some(FromDigits(s, 10)) else None
  }

  /** The first field names the payload shape. */
  const AccessTag: string := "0"
  const RefreshTag: string := "1"
  const EmailTag: string := "2"

  function PayloadFields(p: Payload): (f: seq<string>)
    ensures 2 <= |f|
  {
    match p
    case AccessPayload(id) => [AccessTag, EncStr(id)]
    case RefreshPayload(id, version, tokenId) => [RefreshTag, EncStr(id), ToDigits(version), EncStr(tokenId)]
    case EmailPayload(id, version) => [EmailTag, EncStr(id), ToDigits(version)]
  }

  function ClaimFields(c: Claims): (f: seq<string>)
    ensures 7 <= |f|
  {
    PayloadFields(c.payload) + [EncStr(c.iss), EncStr(c.sub), EncStr(c.aud), ToDigits(c.iat), ToDigits(c.exp)]
  }

  function EncodeClaims(c: Claims): string {
    Join(ClaimFields(c), "-")
  }

  function DecodePayload(f: seq<string>): Option<Payload> {
    if |f| == 2 && f[0] == AccessTag then
      var id :- DecStr(f[1]);
      Some(AccessPayload(id))
    else if |f| == 4 && f[0] == RefreshTag then
      var id :- DecStr(f[1]);
      var version :- DecNat(f[2]);
      var tokenId :- DecStr(f[3]);
      Some(RefreshPayload(id, version, tokenId))
    else if |f| == 3 && f[0] == EmailTag then
      var id :- DecStr(f[1]);
      var version :- DecNat(f[2]);
      Some(EmailPayload(id, version))
    else None
  }

  /** Reads the fields of a payload segment: the payload's own fields, then the five registered claims. */
  function DecodeClaimFields(f: seq<string>): Option<Claims> {
    if |f| < 7 then None
    else
      var n := |f| - 5;
      var payload :- DecodePayload(f[..n]);
      var iss :- DecStr(f[n]);
      var sub :- DecStr(f[n + 1]);
      var aud :- DecStr(f[n + 2]);
      var iat :- DecNat(f[n + 3]);
      var exp :- DecNat(f[n + 4]);
      Some(Claims(payload, iss, sub, aud, iat, exp))
  }

  function DecodeClaims(s: string): Option<Claims> {
    DecodeClaimFields(Split(s, "-"))
  }

  /** Digit strings hold neither separator of the token format. */
  lemma DigitsFree(s: string, base: nat)
    requires AllDigitsOf(s, base) && base <= 16
    ensures '-' !in s && '.' !in s
  {
    forall i | 0 <= i < |s| ensures s[i] != '-' && s[i] != '.' {
      assert IsDigitOf(s[i], base);
    }
  }

  lemma DecNatDigits(n: nat)
    ensures DecNat(ToDigits(n)) == Some(n)
  {
    FromToDigits(n);
  }

  lemma DecodePayloadFields(p: Payload)
    ensures DecodePayload(PayloadFields(p)) == Some(p)
  {
    match p
    case AccessPayload(id) =>
      DecEncStr(id);
    case RefreshPayload(id, version, tokenId) =>
      DecEncStr(id);
      DecNatDigits(version);
      DecEncStr(tokenId);
    case EmailPayload(id, version) =>
      DecEncStr(id);
      DecNatDigits(version);
  }

  lemma DecimalIsHex(s: string)
    requires AllDigitsOf(s, 10)
    ensures AllDigitsOf(s, 16)
  {
  }

  lemma PayloadFieldsHex(p: Payload)
    ensures forall k :: 0 <= k < |PayloadFields(p)| ==> AllDigitsOf(PayloadFields(p)[k], 16)
  {
    match p
    case AccessPayload(id) =>
    case RefreshPayload(id, version, tokenId) =>
      DecimalIsHex(ToDigits(version));
    case EmailPayload(id, version) =>
      DecimalIsHex(ToDigits(version));
  }

  /** Every field is a string of hexadecimal digits. */
  lemma ClaimFieldsHex(c: Claims)
    ensures forall k :: 0 <= k < |ClaimFields(c)| ==> AllDigitsOf(ClaimFields(c)[k], 16)
  {
    var p := PayloadFields(c.payload);
    var t := [EncStr(c.iss), EncStr(c.sub), EncStr(c.aud), ToDigits(c.iat), ToDigits(c.exp)];
    PayloadFieldsHex(c.payload);
    DecimalIsHex(ToDigits(c.iat));
    DecimalIsHex(ToDigits(c.exp));
    assert forall k :: 0 <= k < |t| ==> AllDigitsOf(t[k], 16);
    AllHex(p, t);
  }

  lemma AllHex(p: seq<string>, t: seq<string>)
    requires forall k :: 0 <= k < |p| ==> AllDigitsOf(p[k], 16)
    requires forall k :: 0 <= k < |t| ==> AllDigitsOf(t[k], 16)
    ensures forall k :: 0 <= k < |p + t| ==> AllDigitsOf((p + t)[k], 16)
  {
    forall k | 0 <= k < |p + t| ensures AllDigitsOf((p + t)[k], 16) {
      if k < |p| {
        assert (p + t)[k] == p[k];
      } else {
        assert (p + t)[k] == t[k - |p|];
      }
    }
  }

  /** Every field is free of both separators. */
  lemma ClaimFieldsFree(c: Claims)
    ensures forall k :: 0 <= k < |ClaimFields(c)| ==> '-' !in ClaimFields(c)[k] && '.' !in ClaimFields(c)[k]
  {
    var f := ClaimFields(c);
    ClaimFieldsHex(c);
    forall k | 0 <= k < |f| ensures '-' !in f[k] && '.' !in f[k] {
      DigitsFree(f[k], 16);
    }
  }

  /** A character of the payload segment: a hexadecimal digit or the field separator. */
  predicate PayloadChar(ch: char) {
    IsDigitOf(ch, 16) || ch == '-'
  }

  lemma EncodeClaimsChars(c: Claims)
    ensures forall i :: 0 <= i < |EncodeClaims(c)| ==> PayloadChar(EncodeClaims(c)[i])
  {
    ClaimFieldsHex(c);
    JoinChars(ClaimFields(c), "-", PayloadChar);
  }

  lemma DecodeClaimFieldsOf(c: Claims)
    ensures DecodeClaimFields(ClaimFields(c)) == Some(c)
  {
    var p := PayloadFields(c.payload);
    var t := [EncStr(c.iss), EncStr(c.sub), EncStr(c.aud), ToDigits(c.iat), ToDigits(c.exp)];
    var f := p + t;
    assert f[..|p|] == p;
    assert f[|p|..] == t;
    DecodePayloadFields(c.payload);
    DecEncStr(c.iss);
    DecEncStr(c.sub);
    DecEncStr(c.aud);
    DecNatDigits(c.iat);
    DecNatDigits(c.exp);
  }

  /** Decoding an encoded claim set gives it back. */
  lemma DecodeEncodeClaims(c: Claims)
    ensures DecodeClaims(EncodeClaims(c)) == Some(c)
  {
    ClaimFieldsFree(c);
    SplitJoin(ClaimFields(c), '-');
    DecodeClaimFieldsOf(c);
  }

  /** The payload segment holds no `.`, so it stays one segment of the token. */
  lemma EncodeClaimsNoDot(c: Claims)
    ensures '.' !in EncodeClaims(c)
  {
    EncodeClaimsChars(c);
  }

  // ---------------------------------------------------------------------------
  // Tokens
  // ---------------------------------------------------------------------------

  /** The public key that belongs to an RSA private key. */
  function PublicKeyOf(privateKey: string): (k: string)
    ensures 0 < |k|
  {
    "public:" + privateKey
  }

  /** The key that verifies what `key` signs: the key itself for HMAC, its public key for RSA. */
  function VerifierKey(alg: Algorithm, key: string): string {
    match alg
    case HS256 => key
    case RS256 => PublicKeyOf(key)
  }

  /** The signature segment over the header and payload segments, for the given verifying key. */
  function Signature(verifierKey: string, header: string, payload: string): (s: string)
    ensures AllDigitsOf(s, 16)
  {
    EncStr(verifierKey + "." + header + "." + payload)
  }

  /** The token `sign` produces for a claim set. */
  function Compose(alg: Algorithm, c: Claims, key: string): string {
    var header := AlgName(alg);
    var payload := EncodeClaims(c);
    Join([header, payload, Signature(VerifierKey(alg, key), header, payload)], ".")
  }

  /** `jwt.decode(token, { complete: true })`: the algorithm and the claims, without checking the signature. */
  function Decode(token: string): Option<(Algorithm, Claims)> {
    var parts := Split(token, ".");
    if |parts| != 3 then None
    else
      var alg :- ParseAlg(parts[0]);
      var claims :- DecodeClaims(parts[1]);
      Some((alg, claims))
  }

  /** The token's signature segment is the one `verifierKey` accepts. */
  predicate SignedBy(token: string, verifierKey: string) {
    var parts := Split(token, ".");
    |parts| == 3 && parts[2] == Signature(verifierKey, parts[0], parts[1])
  }

  /** `token` is a well-formed token of algorithm `alg` with claims `c`, signed for `verifierKey`. */
  predicate Carries(token: string, alg: Algorithm, c: Claims, verifierKey: string) {
    Decode(token) == Some((alg, c)) && SignedBy(token, verifierKey) && IsJwt(token)
  }

  /** `isBase64(s, { urlSafe: true })`: letters, digits, `_` and `-` only. */
  predicate IsUrlSafe(s: string) {
    forall i :: 0 <= i < |s| ==> IsWordChar(s[i]) || s[i] == '-'
  }

  /** `s` is the URL-safe segments `a`, `b` and `c` joined by dots. */
  predicate DottedSegments(s: string, a: string, b: string, c: string) {
    s == a + "." + b + "." + c && IsUrlSafe(a) && IsUrlSafe(b) && IsUrlSafe(c)
  }

  /** `isJWT(s)`: exactly three `.`-separated segments, each URL-safe. */
  predicate IsJwt(s: string): (b: bool)
    ensures b <==> exists x, y, z :: DottedSegments(s, x, y, z)
  {
    ThreeSegments(s);
    var parts := Split(s, ".");
    |parts| == 3 && IsUrlSafe(parts[0]) && IsUrlSafe(parts[1]) && IsUrlSafe(parts[2])
  }

  /** Splitting at dots gives three URL-safe pieces exactly when the text is three URL-safe segments joined by dots. */
  lemma ThreeSegments(s: string)
    ensures (var parts := Split(s, ".");
             |parts| == 3 && IsUrlSafe(parts[0]) && IsUrlSafe(parts[1]) && IsUrlSafe(parts[2]))
        <==> exists x, y, z :: DottedSegments(s, x, y, z)
  {
    var parts := Split(s, ".");
    if |parts| == 3 && IsUrlSafe(parts[0]) && IsUrlSafe(parts[1]) && IsUrlSafe(parts[2]) {
      JoinThree(parts);
      assert DottedSegments(s, parts[0], parts[1], parts[2]);
    }
    if exists x, y, z :: DottedSegments(s, x, y, z) {
      var x, y, z :| DottedSegments(s, x, y, z);
      SplitSegments(x, y, z);
    }
  }

  lemma JoinThree(parts: seq<string>)
    requires |parts| == 3
    ensures Join(parts, ".") == parts[0] + "." + parts[1] + "." + parts[2]
  {
    assert Join(parts[2..], ".") == parts[2];
    assert parts[1..][1..] == parts[2..];
    assert Join(parts[1..], ".") == parts[1] + "." + parts[2];
  }

  /** Three URL-safe segments joined by dots split back into themselves. */
  lemma SplitSegments(x: string, y: string, z: string)
    requires IsUrlSafe(x) && IsUrlSafe(y) && IsUrlSafe(z)
    ensures Split(x + "." + y + "." + z, ".") == [x, y, z]
  {
    UrlSafeNoDot(x);
    UrlSafeNoDot(y);
    UrlSafeNoDot(z);
    SplitJoin([x, y, z], '.');
    JoinThree([x, y, z]);
  }

  lemma UrlSafeNoDot(s: string)
    requires IsUrlSafe(s)
    ensures '.' !in s
  {
  }

  lemma HexUrlSafe(s: string)
    requires AllDigitsOf(s, 16)
    ensures IsUrlSafe(s)
  {
    forall i | 0 <= i < |s| ensures IsWordChar(s[i]) {
      assert IsDigitOf(s[i], 16);
    }
  }

  /** A composed token reads back as its algorithm and claims, carries the signature for the matching key, and has the JWT shape. */
  lemma ComposeSegments(alg: Algorithm, c: Claims, key: string)
    ensures Carries(Compose(alg, c, key), alg, c, VerifierKey(alg, key))
  {
    ComposeDecode(alg, c, key);
    ComposeSigned(alg, c, key);
    ComposeIsJwt(alg, c, key);
  }

  lemma ComposeDecode(alg: Algorithm, c: Claims, key: string)
    ensures Decode(Compose(alg, c, key)) == Some((alg, c))
  {
    ComposeSplit(alg, c, key);
    DecodeEncodeClaims(c);
  }

  lemma ComposeSigned(alg: Algorithm, c: Claims, key: string)
    ensures SignedBy(Compose(alg, c, key), VerifierKey(alg, key))
  {
    ComposeSplit(alg, c, key);
  }

  lemma ComposeIsJwt(alg: Algorithm, c: Claims, key: string)
    ensures IsJwt(Compose(alg, c, key))
  {
    ComposeSplit(alg, c, key);
    HeaderUrlSafe(alg);
    HexUrlSafe(Signature(VerifierKey(alg, key), AlgName(alg), EncodeClaims(c)));
    EncodeClaimsUrlSafe(c);
  }

  lemma HeaderUrlSafe(alg: Algorithm)
    ensures IsUrlSafe(AlgName(alg))
  {
    var h := AlgName(alg);
    forall i | 0 <= i < |h| ensures IsWordChar(h[i]) {
    }
  }

  lemma ComposeSplit(alg: Algorithm, c: Claims, key: string)
    ensures var header := AlgName(alg);
      var payload := EncodeClaims(c);
      Split(Compose(alg, c, key), ".") == [header, payload, Signature(VerifierKey(alg, key), header, payload)]
  {
    var header := AlgName(alg);
    var payload := EncodeClaims(c);
    var signature := Signature(VerifierKey(alg, key), header, payload);
    EncodeClaimsNoDot(c);
    DigitsFree(signature, 16);
    assert '.' !in header;
    SplitJoin([header, payload, signature], '.');
  }

  lemma EncodeClaimsUrlSafe(c: Claims)
    ensures IsUrlSafe(EncodeClaims(c))
  {
    EncodeClaimsChars(c);
  }

  /** The claims `sign` writes: `iat` is the current unix second and `exp` is `iat` plus the lifetime. */
  function SignedClaims(payload: Payload, options: SignOptions, nowMs: nat): (c: Claims)
    ensures c.payload == payload && c.exp == c.iat + options.expiresIn
  {
    var iat := nowMs / 1000;
    Claims(payload, options.issuer, options.subject, options.audience, iat, iat + options.expiresIn)
  }

  /** `jwt.sign(payload, key, options)`: adds `iat` and `exp` and signs; an empty key is refused. */
  function Sign(payload: Payload, key: string, options: SignOptions, nowMs: nat): (r: Result<string, string>)
    ensures r.Ok? <==> 0 < |key|
    ensures r.Ok? ==> r.value == Compose(options.algorithm, SignedClaims(payload, options, nowMs), key)
  {
    if |key| == 0 then Err("secretOrPrivateKey must have a value")
    else Ok(Compose(options.algorithm, SignedClaims(payload, options, nowMs), key))
  }

  /** A signed token is a well-formed token carrying the signed claims, signed for the key's verifier. */
  lemma SignCarries(payload: Payload, key: string, options: SignOptions, nowMs: nat)
    ensures Sign(payload, key, options, nowMs).Ok? ==>
      Carries(Sign(payload, key, options, nowMs).value, options.algorithm, SignedClaims(payload, options, nowMs),
              VerifierKey(options.algorithm, key))
  {
    if 0 < |key| {
      ComposeSegments(options.algorithm, SignedClaims(payload, options, nowMs), key);
    }
  }

  // ---------------------------------------------------------------------------
  // Verification
  // ---------------------------------------------------------------------------

  /** One character of a pattern in which `.` stands for any character but a line terminator. */
  predicate CharMatches(p: char, c: char) {
    if p == '.' then !IsLineTerminator(c) else p == c
  }

  predicate MatchesAt(pattern: string, s: string, i: nat) {
    i + |pattern| <= |s| && forall k :: 0 <= k < |pattern| ==> CharMatches(pattern[k], s[i + k])
  }

  /** `new RegExp(pattern).test(s)`: the pattern matches somewhere in `s`. */
  predicate AudienceMatches(pattern: string, s: string) {
    exists i: nat | i <= |s| :: MatchesAt(pattern, s, i)
  }

  /** A domain matches itself as an audience pattern, so a token minted for the configured domain passes the audience check. */
  lemma AudienceMatchesItself(domain: string)
    ensures AudienceMatches(domain, domain)
  {
    assert MatchesAt(domain, domain, 0);
  }

  /**
   * `jwt.verify(token, key, options)`, in the library's order of checks: the token's
   * form, the key, the algorithm, the signature, the expiry, the audience, the issuer,
   * and the maximum age since `iat`.
   */
  function Verify(token: string, key: string, options: VerifyOptions, nowMs: nat): (r: Result<Claims, VerifyError>)
    ensures r.Ok? ==>
      && SignedBy(token, key)
      && (exists alg :: alg in options.algorithms && Decode(token) == Some((alg, r.value)))
      && r.value.iss == options.issuer
      && AudienceMatches(options.audience, r.value.aud)
      && nowMs / 1000 < r.value.exp
      && nowMs / 1000 < r.value.iat + options.maxAge
    ensures r.Err? ==> !r.error.OtherError?
  {
    if |token| == 0 then Err(JsonWebTokenError("jwt must be provided"))
    else
      match Decode(token)
      case None => Err(JsonWebTokenError("jwt malformed"))
      case Some((alg, claims)) =>
        var now := nowMs / 1000;
        if |key| == 0 then Err(JsonWebTokenError("secret or public key must be provided"))
        else if alg !in options.algorithms then Err(JsonWebTokenError("invalid algorithm"))
        else if !SignedBy(token, key) then Err(JsonWebTokenError("invalid signature"))
        else if now >= claims.exp then Err(TokenExpiredError("jwt expired"))
        else if !AudienceMatches(options.audience, claims.aud) then
          Err(JsonWebTokenError("jwt audience invalid. expected: " + options.audience))
        else if claims.iss != options.issuer then
          Err(JsonWebTokenError("jwt issuer invalid. expected: " + options.issuer))
        else if now >= claims.iat + options.maxAge then Err(TokenExpiredError("maxAge exceeded"))
        else Ok(claims)
  }

  /**
   * Verify inverts sign: a token signed with `key` passes verification with the matching
   * verifying key, under options that accept its algorithm, issuer and audience, while it
   * is younger than its expiry and the maximum age.
   */
  lemma VerifySigned(alg: Algorithm, c: Claims, key: string, options: VerifyOptions, nowMs: nat)
    requires 0 < |key|
    requires alg in options.algorithms
    requires c.iss == options.issuer && AudienceMatches(options.audience, c.aud)
    requires nowMs / 1000 < c.exp && nowMs / 1000 < c.iat + options.maxAge
    ensures Verify(Compose(alg, c, key), VerifierKey(alg, key), options, nowMs) == Ok(c)
  {
    ComposeSegments(alg, c, key);
  }

  /** Once its expiry has passed, a token signed with `key` is refused as expired by its own verifying key. */
  lemma VerifyExpired(alg: Algorithm, c: Claims, key: string, options: VerifyOptions, nowMs: nat)
    requires 0 < |key|
    requires alg in options.algorithms
    requires c.exp <= nowMs / 1000
    ensures Verify(Compose(alg, c, key), VerifierKey(alg, key), options, nowMs) == Err(TokenExpiredError("jwt expired"))
  {
    ComposeSegments(alg, c, key);
  }

  /** The signature segment determines the verifying key it was made for. */
  lemma SignatureInjective(k1: string, k2: string, header: string, payload: string)
    requires Signature(k1, header, payload) == Signature(k2, header, payload)
    ensures k1 == k2
  {
    var tail := "." + header + "." + payload;
    SignatureText(k1, header, payload);
    SignatureText(k2, header, payload);
    EncStrInjective(k1 + tail, k2 + tail);
    CancelSuffix(k1, k2, tail);
  }

  lemma SignatureText(k: string, header: string, payload: string)
    ensures Signature(k, header, payload) == EncStr(k + ("." + header + "." + payload))
  {
    DotsAssociate(k, header, payload);
  }

  lemma DotsAssociate(k: string, header: string, payload: string)
    ensures k + "." + header + "." + payload == k + ("." + header + "." + payload)
  {
    ConcatAssociates(k, ".", header);
    ConcatAssociates(k, "." + header, ".");
    ConcatAssociates(k, "." + header + ".", payload);
  }

  lemma ConcatAssociates(a: string, b: string, c: string)
    ensures a + b + c == a + (b + c)
  {
  }

  lemma EncStrInjective(s1: string, s2: string)
    requires EncStr(s1) == EncStr(s2)
    ensures s1 == s2
  {
    DecEncStr(s1);
    DecEncStr(s2);
  }

  lemma CancelSuffix(a: string, b: string, t: string)
    requires a + t == b + t
    ensures a == b
  {
    assert a == (a + t)[..|a|];
    assert b == (b + t)[..|b|];
  }

  /** A token carries the signature of at most one verifying key. */
  lemma SignedByUnique(token: string, k1: string, k2: string)
    requires SignedBy(token, k1) && SignedBy(token, k2)
    ensures k1 == k2
  {
    var parts := Split(token, ".");
    SignatureInjective(k1, k2, parts[0], parts[1]);
  }

  /** A token signed with one key passes verification with no other verifying key. */
  lemma VerifyWrongKey(alg: Algorithm, c: Claims, key: string, other: string, options: VerifyOptions, nowMs: nat)
    requires Verify(Compose(alg, c, key), other, options, nowMs).Ok?
    ensures other == VerifierKey(alg, key)
  {
    ComposeSigned(alg, c, key);
    SignedByUnique(Compose(alg, c, key), other, VerifierKey(alg, key));
  }

  /** A token of one algorithm passes verification only under options that accept that algorithm. */
  lemma VerifyWrongAlgorithm(alg: Algorithm, c: Claims, key: string, other: string, options: VerifyOptions, nowMs: nat)
    requires alg !in options.algorithms
    ensures Verify(Compose(alg, c, key), other, options, nowMs).Err?
  {
    ComposeSegments(alg, c, key);
  }
}
