/** `checkIfTokenIsBlacklisted`: refusing a refresh token that was revoked. */
module CheckBlacklistedToken {
  import opened Wrappers
  import opened Errors
  import opened Cache
  import opened BlacklistToken

  const InvalidToken: Failure := Http(Unauthorized, "Invalid token")

  /** `checkIfTokenIsBlacklisted(userId, tokenId, cacheManager)` at `nowMs`: refuses exactly a token whose entry is live. */
  function CheckIfTokenIsBlacklisted(userId: string, tokenId: string, cache: Cache, nowMs: int): (r: Result<(), Failure>)
    reads cache
    ensures r.Err? <==> BlacklistKey(userId, tokenId) in cache.entries && nowMs < cache.entries[BlacklistKey(userId, tokenId)].expiresAt
    ensures r.Err? ==> r.error == InvalidToken
  {
    if cache.Get(BlacklistKey(userId, tokenId), nowMs).Some? then Err(InvalidToken) else Ok(())
  }

  /** Once a token is blacklisted, the check refuses it for as long as the token has not expired. */
  lemma BlacklistedIsRefused(cache: Cache, before: map<string, Entry>, userId: string, tokenId: string, exp: int,
                             nowMs: nat, laterMs: nat)
    requires cache.entries == Blacklisted(before, userId, tokenId, exp, nowMs)
    requires nowMs / 1000 < exp && laterMs / 1000 < exp
    ensures CheckIfTokenIsBlacklisted(userId, tokenId, cache, laterMs) == Err(InvalidToken)
  {
    assert laterMs < exp * 1000;
  }

  /** Blacklisting one token leaves the check of every other token (of a user id without `:`) as it was. */
  lemma OtherTokensUnaffected(cache: Cache, before: map<string, Entry>, userId: string, tokenId: string, exp: int,
                              nowMs: nat, otherUser: string, otherToken: string, laterMs: int)
    requires cache.entries == Blacklisted(before, userId, tokenId, exp, nowMs)
    requires ':' !in userId && ':' !in otherUser && (otherUser, otherToken) != (userId, tokenId)
    ensures CheckIfTokenIsBlacklisted(otherUser, otherToken, cache, laterMs).Err?
        <==> Lookup(before, BlacklistKey(otherUser, otherToken), laterMs).Some?
  {
    BlacklistKeyInjective(otherUser, otherToken, userId, tokenId);
  }
}
