/**
 * The user record of the database and its `credentials` JSON column.
 */
module Users {
  import opened Wrappers

  /**
   * The `credentials` JSON object: the version that binds tokens to the current
   * credentials, the previous password, and two unix timestamps in seconds.
   */
  datatype Credentials = Credentials(version: nat, lastPassword: string, passwordUpdatedAt: int, updatedAt: int)

  /** A row of the user table; `createdAt` and `updatedAt` are dates in milliseconds since the epoch. */
  datatype User = User(
    id: string,
    email: string,
    name: string,
    username: string,
    password: string,
    confirmed: bool,
    credentials: Credentials,
    createdAt: int,
    updatedAt: int)

  /**
   * The `credentials` object of a loaded user record, which the credential helpers
   * update in place.
   */
  class CredentialsJson {
    var version: nat
    var lastPassword: string
    var passwordUpdatedAt: int
    var updatedAt: int

    /** The object as a value. */
    function Value(): Credentials
      reads this
    {
      Credentials(version, lastPassword, passwordUpdatedAt, updatedAt)
    }

    /** The object read from a record's JSON column. */
    constructor (c: Credentials)
      ensures Value() == c
    {
      version := c.version;
      lastPassword := c.lastPassword;
      passwordUpdatedAt := c.passwordUpdatedAt;
      updatedAt := c.updatedAt;
    }
  }
}
