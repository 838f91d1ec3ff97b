/**
 * `updateVersion`: bumping the credentials version of a user in place, which makes every
 * token bound to the previous version stale.
 */
module UpdateVersion {
  import opened Users

  /** The credentials after a version bump at unix time `now`. */
  function Bumped(c: Credentials, now: int): (r: Credentials)
    ensures r.version == c.version + 1 && r.updatedAt == now
    ensures r.lastPassword == c.lastPassword && r.passwordUpdatedAt == c.passwordUpdatedAt
  {
    c.(version := c.version + 1, updatedAt := now)
  }

  /**
   * `updateVersion(user)`: increments `version`, stamps `updatedAt`, and hands back the
   * same object it changed.
   */
  method UpdateVersion(json: CredentialsJson, now: int) returns (r: CredentialsJson)
    modifies json
    ensures r == json
    ensures json.version == old(json.version) + 1 && json.updatedAt == now
    ensures json.lastPassword == old(json.lastPassword) && json.passwordUpdatedAt == old(json.passwordUpdatedAt)
    ensures json.Value() == Bumped(old(json.Value()), now)
  {
    json.version := json.version + 1;
    json.updatedAt := now;
    r := json;
  }

  /** `n` bumps raise the version by exactly `n`, so it never returns to a value a token recorded earlier. */
  lemma {:induction false} BumpsMonotone(c: Credentials, times: seq<int>)
    ensures BumpAll(c, times).version == c.version + |times|
    decreases |times|
  {
    if |times| > 0 {
      BumpsMonotone(Bumped(c, times[0]), times[1..]);
    }
  }

  /** The credentials after successive bumps. */
  function BumpAll(c: Credentials, times: seq<int>): Credentials
    decreases |times|
  {
    if |times| == 0 then c else BumpAll(Bumped(c, times[0]), times[1..])
  }
}
