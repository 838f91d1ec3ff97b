/**
 * The response projections: what of a user record and of a sign-in result reaches the
 * client's JSON body.
 */
module Mappers {
  import opened Users
  import opened IsoDate

  /** `AuthResponseUserMapper`: the user as the authentication endpoints show it to its owner. */
  datatype AuthResponseUser = AuthResponseUser(
    id: string, name: string, username: string, email: string, createdAt: string, updatedAt: string)

  /** `IAuthResult`: a user with both of the tokens minted for them. */
  datatype AuthResult = AuthResult(user: User, accessToken: string, refreshToken: string)

  /** `AuthResponseMapper`: the body of a sign-in or refresh response. */
  datatype AuthResponse = AuthResponse(user: AuthResponseUser, accessToken: string)

  /** `ResponseUserMapper`: the user as anyone may see them. */
  datatype ResponseUser = ResponseUser(id: string, name: string, username: string, createdAt: string, updatedAt: string)

  /** A stored date is one a `Date` can hold. */
  predicate DatesInRange(u: User) {
    -MaxTime <= u.createdAt <= MaxTime && -MaxTime <= u.updatedAt <= MaxTime
  }

  /**
   * `AuthResponseUserMapper.map(user)`: the id, name, username and email as stored, and
   * both dates as ISO strings; nothing else of the record.
   */
  function MapAuthResponseUser(u: User): (r: AuthResponseUser)
    requires DatesInRange(u)
    ensures r.id == u.id && r.name == u.name && r.username == u.username && r.email == u.email
    ensures r.createdAt == IsoString(u.createdAt) && r.updatedAt == IsoString(u.updatedAt)
  {
    AuthResponseUser(u.id, u.name, u.username, u.email, IsoString(u.createdAt), IsoString(u.updatedAt))
  }

  /** `AuthResponseMapper.map(result)`: the projected user and the access token, without the refresh token. */
  function MapAuthResponse(result: AuthResult): (r: AuthResponse)
    requires DatesInRange(result.user)
    ensures r.user == MapAuthResponseUser(result.user) && r.accessToken == result.accessToken
  {
    AuthResponse(MapAuthResponseUser(result.user), result.accessToken)
  }

  /** `ResponseUserMapper.map(user)`: the id, name and username as stored and the dates as ISO strings. */
  function MapResponseUser(u: User): (r: ResponseUser)
    requires DatesInRange(u)
    ensures r.id == u.id && r.name == u.name && r.username == u.username
    ensures r.createdAt == IsoString(u.createdAt) && r.updatedAt == IsoString(u.updatedAt)
  {
    ResponseUser(u.id, u.name, u.username, IsoString(u.createdAt), IsoString(u.updatedAt))
  }

  /**
   * The password hash, the confirmed flag and the credentials (with the previous password)
   * never reach the client: two users that differ only there project alike.
   */
  lemma SecretsNeverExposed(u: User, v: User)
    requires DatesInRange(u)
    requires v == u.(password := v.password, confirmed := v.confirmed, credentials := v.credentials)
    ensures MapAuthResponseUser(u) == MapAuthResponseUser(v)
    ensures MapResponseUser(u) == MapResponseUser(v)
  {
  }

  /** The public projection also leaves out the email. */
  lemma EmailNotPublic(u: User, email: string)
    requires DatesInRange(u)
    ensures MapResponseUser(u) == MapResponseUser(u.(email := email))
  {
  }

  /** The refresh token never reaches the body: results that differ only in it map alike. */
  lemma RefreshTokenNeverExposed(result: AuthResult, refreshToken: string)
    requires DatesInRange(result.user)
    ensures MapAuthResponse(result) == MapAuthResponse(result.(refreshToken := refreshToken))
  {
  }

  /** The public projection is the owner's projection without the email. */
  lemma PublicIsOwnerWithoutEmail(u: User)
    requires DatesInRange(u)
    ensures var owner := MapAuthResponseUser(u);
      MapResponseUser(u) == ResponseUser(owner.id, owner.name, owner.username, owner.createdAt, owner.updatedAt)
  {
  }
}
