/**
 * `updatePassword` (the credentials helper): recording a password change in the
 * credentials of a user, in place.
 */
module UpdateLastPassword {
  import opened Users

  /** The credentials after a password change to `password` at unix time `now`. */
  function Rotated(c: Credentials, password: string, now: int): (r: Credentials)
    ensures r.version == c.version + 1
    ensures r.lastPassword == password
    ensures r.passwordUpdatedAt == r.updatedAt == now
  {
    Credentials(c.version + 1, password, now, now)
  }

  /**
   * `updatePassword(password, user)`: increments `version`, stores `password` verbatim as
   * `lastPassword` (the caller passes the new password in plain text), stamps both
   * timestamps with the same `now`, and hands back the same object it changed.
   */
  method UpdatePassword(password: string, json: CredentialsJson, now: int) returns (r: CredentialsJson)
    modifies json
    ensures r == json
    ensures json.version == old(json.version) + 1
    ensures json.lastPassword == password
    ensures json.passwordUpdatedAt == now && json.updatedAt == now
    ensures json.Value() == Rotated(old(json.Value()), password, now)
  {
    json.version := json.version + 1;
    json.lastPassword := password;
    json.passwordUpdatedAt := now;
    json.updatedAt := now;
    r := json;
  }
}
