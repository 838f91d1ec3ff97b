/**
 * `blacklistToken`: recording a revoked refresh token in the cache for as long as the
 * token itself would stay valid.
 */
module BlacklistToken {
  import opened Wrappers
  import opened Errors
  import opened CommonService
  import opened Cache
  import opened Text

  const BlacklistPrefix: string := "blacklist:"

  /**
   * The cache key of a token: `blacklist:<userId>:<tokenId>`. After the prefix, a user id
   * without `:` is read back as the first `:`-piece, followed by the pieces of the token id.
   */
  function BlacklistKey(userId: string, tokenId: string): (key: string)
    ensures |BlacklistPrefix| <= |key| && key[..|BlacklistPrefix|] == BlacklistPrefix
    ensures ':' !in userId ==> Split(key[|BlacklistPrefix|..], ":") == [userId] + Split(tokenId, ":")
  {
    var key := BlacklistPrefix + userId + ":" + tokenId;
    assert key[|BlacklistPrefix|..] == userId + ":" + tokenId;
    if ':' in userId then key
    else
      SplitAt(userId, ":", tokenId);
      key
  }

  /** For user ids without `:` (uuids), distinct tokens have distinct keys. */
  lemma BlacklistKeyInjective(u1: string, t1: string, u2: string, t2: string)
    requires ':' !in u1 && ':' !in u2
    ensures BlacklistKey(u1, t1) == BlacklistKey(u2, t2) <==> u1 == u2 && t1 == t2
  {
    var k1, k2 := BlacklistKey(u1, t1), BlacklistKey(u2, t2);
    var n := |BlacklistPrefix|;
    if |u1| < |u2| {
      assert k1[n + |u1|] == ':';
      assert k2[n + |u1|] == u2[|u1|];
    } else if |u2| < |u1| {
      assert k2[n + |u2|] == ':';
      assert k1[n + |u2|] == u1[|u2|];
    } else if k1 == k2 {
      assert u1 == k1[n..n + |u1|];
      assert u2 == k2[n..n + |u2|];
      assert t1 == k1[n + |u1| + 1..];
      assert t2 == k2[n + |u2| + 1..];
    }
  }

  /** `(exp - now) * 1000`: the milliseconds the token has left, from the current unix second. */
  function BlacklistTtl(exp: int, nowMs: nat): (ttl: int)
    ensures ttl > 0 <==> nowMs / 1000 < exp
  {
    (exp - nowMs / 1000) * 1000
  }

  /**
   * The cache after a successful `blacklistToken(userId, tokenId, exp)` at `nowMs`: with
   * time left, the key holds the current unix second until the token's own expiry (or a
   * little later) and no other key changes; without, the cache is as it was.
   */
  function Blacklisted(entries: map<string, Entry>, userId: string, tokenId: string, exp: int, nowMs: nat)
    : (r: map<string, Entry>)
    ensures BlacklistTtl(exp, nowMs) <= 0 ==> r == entries
    ensures BlacklistTtl(exp, nowMs) > 0 ==>
      var key := BlacklistKey(userId, tokenId);
      key in r && r[key].value == nowMs / 1000 && exp * 1000 <= r[key].expiresAt
    ensures forall k :: k != BlacklistKey(userId, tokenId) ==> (k in r <==> k in entries)
    ensures forall k :: k != BlacklistKey(userId, tokenId) && k in entries ==> r[k] == entries[k]
  {
    var ttl := BlacklistTtl(exp, nowMs);
    if ttl > 0 then entries[BlacklistKey(userId, tokenId) := Entry(nowMs / 1000, nowMs + ttl)] else entries
  }

  /**
   * `blacklistToken(userId, tokenId, exp, commonService, cacheManager)` at `nowMs`; a
   * store that refuses the write (`writeFails`) is reported as an internal error.
   */
  method BlacklistToken(userId: string, tokenId: string, exp: int, cache: Cache, nowMs: nat, writeFails: bool)
    returns (r: Result<(), Failure>)
    modifies cache
    ensures r.Ok? <==> BlacklistTtl(exp, nowMs) <= 0 || !writeFails
    ensures r.Err? ==> r.error == InternalError && cache.entries == old(cache.entries)
    ensures r.Ok? ==> cache.entries == Blacklisted(old(cache.entries), userId, tokenId, exp, nowMs)
  {
    var now := nowMs / 1000;
    var ttl := (exp - now) * 1000;
    if ttl > 0 {
      var written := cache.Set(BlacklistKey(userId, tokenId), now, ttl, nowMs, writeFails);
      r := ThrowInternalError(written);
    } else {
      r := Ok(());
    }
  }

  /** Blacklisting the same token twice leaves the second entry in place of the first. */
  lemma BlacklistTwice(entries: map<string, Entry>, userId: string, tokenId: string, exp: int, nowMs: nat, laterMs: nat)
    requires laterMs / 1000 < exp
    ensures Blacklisted(Blacklisted(entries, userId, tokenId, exp, nowMs), userId, tokenId, exp, laterMs)
         == Blacklisted(entries, userId, tokenId, exp, laterMs)
  {
  }
}
