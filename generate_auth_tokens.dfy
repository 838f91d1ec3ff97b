/** `generateAuthTokens`: the access and refresh tokens of a session, minted together. */
module GenerateAuthTokens {
  import opened Wrappers
  import opened Errors
  import opened Users
  import opened JwtCodec
  import opened JwtService

  /**
   * `generateAuthTokens(user, jwtService, domain, tokenId)` at `nowMs`: the pair
   * [access, refresh], minted for the same user, domain and instant; the call fails when
   * either mint fails. `freshId` is the uuid the refresh mint draws when no token id is given.
   */
  function GenerateAuthTokens(s: JwtSettings, user: User, domain: Option<string>, tokenId: Option<string>,
                              freshId: string, nowMs: nat): (r: Result<(string, string), Failure>)
    ensures r.Ok? <==> 0 < |SigningKey(s, Access)| && 0 < |SigningKey(s, Refresh)|
    ensures r.Err? ==> r.error == InternalError
    ensures r.Ok? ==>
      && r.value.0 == GenerateToken(s, user, Access, domain, None, freshId, nowMs).value
      && r.value.1 == GenerateToken(s, user, Refresh, domain, tokenId, freshId, nowMs).value
  {
    var access :- GenerateToken(s, user, Access, domain, tokenId, freshId, nowMs);
    var refresh :- GenerateToken(s, user, Refresh, domain, tokenId, freshId, nowMs);
    Ok((access, refresh))
  }

  /**
   * Under a valid configuration both tokens are minted; the first verifies as an access
   * token carrying only the user's id, and the second as a refresh token carrying the
   * user's id, the credentials version and the supplied token id (else the fresh one),
   * each while its own lifetime lasts.
   */
  lemma AuthTokensVerify(s: JwtSettings, user: User, domain: Option<string>, tokenId: Option<string>,
                         freshId: string, nowMs: nat, laterMs: nat)
    requires Valid(s)
    requires domain.None? || AudienceMatches(s.domain, domain.value)
    ensures GenerateAuthTokens(s, user, domain, tokenId, freshId, nowMs).Ok?
    ensures var pair := GenerateAuthTokens(s, user, domain, tokenId, freshId, nowMs).value;
      laterMs / 1000 < nowMs / 1000 + TimeOf(s, Access) ==>
        VerifyToken(s, pair.0, Access, laterMs).Ok?
        && VerifyToken(s, pair.0, Access, laterMs).value.payload == AccessPayload(user.id)
    ensures var pair := GenerateAuthTokens(s, user, domain, tokenId, freshId, nowMs).value;
      laterMs / 1000 < nowMs / 1000 + TimeOf(s, Refresh) ==>
        VerifyToken(s, pair.1, Refresh, laterMs).Ok?
        && VerifyToken(s, pair.1, Refresh, laterMs).value.payload
           == RefreshPayload(user.id, user.credentials.version, tokenId.GetOr(freshId))
  {
    KeysMatch(s, Access);
    KeysMatch(s, Refresh);
    if laterMs / 1000 < nowMs / 1000 + TimeOf(s, Access) {
      VerifyGenerated(s, user, Access, domain, None, freshId, nowMs, laterMs);
    }
    if laterMs / 1000 < nowMs / 1000 + TimeOf(s, Refresh) {
      VerifyGenerated(s, user, Refresh, domain, tokenId, freshId, nowMs, laterMs);
    }
  }
}
