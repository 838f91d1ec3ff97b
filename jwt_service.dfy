/**
 * `JwtService`: which payload, key, algorithm, lifetime and registered claims each token
 * category gets when it is minted, and which key and options verify it.
 */
module JwtService {
  import opened Wrappers
  import opened Errors
  import opened Users
  import opened JwtCodec
  import opened CommonService
  import ThrowBadRequest

  datatype TokenType = Access | Refresh | Confirmation | ResetPassword

  /** The RSA key pair of access tokens and their lifetime in seconds. */
  datatype KeyPair = KeyPair(privateKey: string, publicKey: string, time: nat)

  /** The HMAC secret of a category and its lifetime in seconds. */
  datatype SecretTime = SecretTime(secret: string, time: nat)

  datatype JwtConfig = JwtConfig(access: KeyPair, confirmation: SecretTime, resetPassword: SecretTime, refresh: SecretTime)

  /** What the service reads from the configuration when it is built: the keys, its own id (the issuer) and the domain. */
  datatype JwtSettings = JwtSettings(jwt: JwtConfig, issuer: string, domain: string)

  /**
   * A working configuration: the public key belongs to the private key, and no key is
   * empty or shared between two categories.
   */
  predicate Valid(s: JwtSettings) {
    var j := s.jwt;
    && j.access.publicKey == PublicKeyOf(j.access.privateKey)
    && 0 < |j.access.privateKey|
    && 0 < |j.refresh.secret| && 0 < |j.confirmation.secret| && 0 < |j.resetPassword.secret|
    && j.refresh.secret != j.confirmation.secret
    && j.refresh.secret != j.resetPassword.secret
    && j.confirmation.secret != j.resetPassword.secret
  }

  /** `this.jwtConfig[tokenType]` for the categories signed with a shared secret. */
  function SecretOf(s: JwtSettings, t: TokenType): SecretTime
    requires t != Access
  {
    match t
    case Refresh => s.jwt.refresh
    case Confirmation => s.jwt.confirmation
    case ResetPassword => s.jwt.resetPassword
  }

  function AlgorithmOf(t: TokenType): Algorithm {
    if t == Access then RS256 else HS256
  }

  /** The lifetime of a category, used both as the expiry and as the maximum age. */
  function TimeOf(s: JwtSettings, t: TokenType): nat {
    if t == Access then s.jwt.access.time else SecretOf(s, t).time
  }

  /** The key `sign` is given. */
  function SigningKey(s: JwtSettings, t: TokenType): string {
    if t == Access then s.jwt.access.privateKey else SecretOf(s, t).secret
  }

  /** The key `verify` is given. */
  function VerifyingKey(s: JwtSettings, t: TokenType): string {
    if t == Access then s.jwt.access.publicKey else SecretOf(s, t).secret
  }

  /** The payload of each category: the id alone; the id, version and token id; or the id and version. */
  function PayloadFor(t: TokenType, user: User, tokenId: string): Payload {
    match t
    case Access => AccessPayload(user.id)
    case Refresh => RefreshPayload(user.id, user.credentials.version, tokenId)
    case _ => EmailPayload(user.id, user.credentials.version)
  }

  /** The payload has the shape of the category. */
  predicate Fits(t: TokenType, p: Payload) {
    match t
    case Access => p.AccessPayload?
    case Refresh => p.RefreshPayload?
    case _ => p.EmailPayload?
  }

  /** The claims a token of category `t` carries when minted for `user` at `nowMs`. */
  function MintedClaims(s: JwtSettings, user: User, t: TokenType, domain: Option<string>, tokenId: Option<string>,
                        freshId: string, nowMs: nat): Claims
  {
    var iat := nowMs / 1000;
    Claims(PayloadFor(t, user, tokenId.GetOr(freshId)), s.issuer, user.email, domain.GetOr(s.domain), iat, iat + TimeOf(s, t))
  }

  /**
   * `generateToken(user, tokenType, domain, tokenId)`: issuer the service id, subject the
   * user's email, audience the given domain or else the configured one; the category's
   * payload, key, algorithm and lifetime, as the switch on the category picks them.
   * `freshId` is the uuid drawn when no token id is given; a signing failure becomes an
   * internal error.
   */
  function GenerateToken(s: JwtSettings, user: User, t: TokenType, domain: Option<string>, tokenId: Option<string>,
                         freshId: string, nowMs: nat): (r: Result<string, Failure>)
    ensures r.Ok? <==> 0 < |SigningKey(s, t)|
    ensures r.Err? ==> r.error == InternalError
    ensures r.Ok? ==> r.value == Compose(AlgorithmOf(t), MintedClaims(s, user, t, domain, tokenId, freshId, nowMs), SigningKey(s, t))
  {
    var options := SignOptions(s.issuer, user.email, domain.GetOr(s.domain), AlgorithmOf(t), TimeOf(s, t));
    var payload := PayloadFor(t, user, tokenId.GetOr(freshId));
    assert SignedClaims(payload, options, nowMs) == MintedClaims(s, user, t, domain, tokenId, freshId, nowMs);
    ThrowInternalError(Sign(payload, SigningKey(s, t), options, nowMs))
  }

  /** A minted token is a well-formed token of the category's algorithm, carrying the minted claims. */
  lemma GeneratedCarries(s: JwtSettings, user: User, t: TokenType, domain: Option<string>, tokenId: Option<string>,
                         freshId: string, nowMs: nat)
    ensures var r := GenerateToken(s, user, t, domain, tokenId, freshId, nowMs);
      r.Ok? ==> Carries(r.value, AlgorithmOf(t), MintedClaims(s, user, t, domain, tokenId, freshId, nowMs),
                        VerifierKey(AlgorithmOf(t), SigningKey(s, t)))
  {
    if 0 < |SigningKey(s, t)| {
      ComposeSegments(AlgorithmOf(t), MintedClaims(s, user, t, domain, tokenId, freshId, nowMs), SigningKey(s, t));
    }
  }

  /**
   * `verifyToken(token, tokenType)`: the configured issuer, the configured domain as the
   * audience pattern, the category's lifetime as the maximum age, and only the category's
   * algorithm and verifying key. A verified payload of another category's shape is taken
   * as an invalid token.
   */
  function VerifyToken(s: JwtSettings, token: string, t: TokenType, nowMs: nat): (r: Result<Claims, Failure>)
    ensures r.Err? ==> r.error in {Http(BadRequest, "Token expired"), Http(BadRequest, "Invalid token")}
    ensures r.Ok? ==>
      && Decode(token) == Some((AlgorithmOf(t), r.value))
      && SignedBy(token, VerifyingKey(s, t))
      && Fits(t, r.value.payload)
      && r.value.iss == s.issuer
      && AudienceMatches(s.domain, r.value.aud)
      && nowMs / 1000 < r.value.exp
      && nowMs / 1000 < r.value.iat + TimeOf(s, t)
  {
    var options := VerifyOptions(s.issuer, s.domain, TimeOf(s, t), [AlgorithmOf(t)]);
    var claims :- ThrowBadRequest.ThrowBadRequest(Verify(token, VerifyingKey(s, t), options, nowMs));
    if Fits(t, claims.payload) then Ok(claims) else Err(Http(BadRequest, "Invalid token"))
  }

  /** Under a valid configuration, each category's verifying key is the one that accepts its signing key's signatures. */
  lemma KeysMatch(s: JwtSettings, t: TokenType)
    requires Valid(s)
    ensures 0 < |SigningKey(s, t)|
    ensures VerifyingKey(s, t) == VerifierKey(AlgorithmOf(t), SigningKey(s, t))
  {
  }

  lemma PayloadFits(t: TokenType, user: User, tokenId: string)
    ensures Fits(t, PayloadFor(t, user, tokenId))
  {
  }

  /**
   * A minted token verifies as its own category, with the claims it was minted with, as
   * long as its audience matches the configured domain (always so when no domain was
   * given) and its lifetime has not run out.
   */
  lemma VerifyGenerated(s: JwtSettings, user: User, t: TokenType, domain: Option<string>, tokenId: Option<string>,
                        freshId: string, nowMs: nat, laterMs: nat)
    requires Valid(s)
    requires domain.None? || AudienceMatches(s.domain, domain.value)
    requires laterMs / 1000 < nowMs / 1000 + TimeOf(s, t)
    ensures GenerateToken(s, user, t, domain, tokenId, freshId, nowMs).Ok?
    ensures VerifyToken(s, GenerateToken(s, user, t, domain, tokenId, freshId, nowMs).value, t, laterMs)
         == Ok(MintedClaims(s, user, t, domain, tokenId, freshId, nowMs))
  {
    var c := MintedClaims(s, user, t, domain, tokenId, freshId, nowMs);
    var options := VerifyOptions(s.issuer, s.domain, TimeOf(s, t), [AlgorithmOf(t)]);
    KeysMatch(s, t);
    AudienceMatchesItself(s.domain);
    VerifySigned(AlgorithmOf(t), c, SigningKey(s, t), options, laterMs);
    PayloadFits(t, user, tokenId.GetOr(freshId));
    KeysMatch(s, t);
  }

  /** Once the lifetime has run out, the minted token is refused as expired. */
  lemma GeneratedExpires(s: JwtSettings, user: User, t: TokenType, domain: Option<string>, tokenId: Option<string>,
                         freshId: string, nowMs: nat, laterMs: nat)
    requires Valid(s)
    requires nowMs / 1000 + TimeOf(s, t) <= laterMs / 1000
    ensures GenerateToken(s, user, t, domain, tokenId, freshId, nowMs).Ok?
    ensures VerifyToken(s, GenerateToken(s, user, t, domain, tokenId, freshId, nowMs).value, t, laterMs)
         == Err(Http(BadRequest, "Token expired"))
  {
    var c := MintedClaims(s, user, t, domain, tokenId, freshId, nowMs);
    var options := VerifyOptions(s.issuer, s.domain, TimeOf(s, t), [AlgorithmOf(t)]);
    KeysMatch(s, t);
    VerifyExpired(AlgorithmOf(t), c, SigningKey(s, t), options, laterMs);
  }

  /** Under a valid configuration a token minted for one category never verifies as another. */
  lemma CategorySeparation(s: JwtSettings, user: User, t: TokenType, other: TokenType, domain: Option<string>,
                           tokenId: Option<string>, freshId: string, nowMs: nat, laterMs: nat)
    requires Valid(s) && t != other
    ensures GenerateToken(s, user, t, domain, tokenId, freshId, nowMs).Ok?
    ensures VerifyToken(s, GenerateToken(s, user, t, domain, tokenId, freshId, nowMs).value, other, laterMs).Err?
  {
    var c := MintedClaims(s, user, t, domain, tokenId, freshId, nowMs);
    var token := Compose(AlgorithmOf(t), c, SigningKey(s, t));
    KeysMatch(s, t);
    var options := VerifyOptions(s.issuer, s.domain, TimeOf(s, other), [AlgorithmOf(other)]);
    if AlgorithmOf(t) != AlgorithmOf(other) {
      VerifyWrongAlgorithm(AlgorithmOf(t), c, SigningKey(s, t), VerifyingKey(s, other), options, laterMs);
    } else if Verify(token, VerifyingKey(s, other), options, laterMs).Ok? {
      VerifyWrongKey(AlgorithmOf(t), c, SigningKey(s, t), VerifyingKey(s, other), options, laterMs);
      assert false;
    }
  }
}
