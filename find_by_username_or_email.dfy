/**
 * `findOneByUsernameorEmail`: the sign-in lookup, which takes its input as an email when
 * it holds an `@` and as a username otherwise. The email and slug syntax checks come from
 * libraries outside this model and are parameters.
 */
module FindByUsernameOrEmail {
  import opened Wrappers
  import opened Errors
  import opened Users
  import opened UserService

  const InvalidEmail: Failure := Http(BadRequest, "Invalid email")
  const InvalidUsername: Failure := Http(BadRequest, "Invalid username")
  const MinUsernameLength: nat := 3
  const MaxUsernameLength: nat := 106

  /**
   * `findOneByUsernameorEmail(emailOrUsername, userService)`. With an `@`, an input that
   * `isEmail` accepts is refused as an invalid email and any other is looked up by email;
   * without one, an input of 3 to 106 characters that `isSlug` accepts is looked up by
   * username and any other is refused as an invalid username. Finding nobody is not an
   * error here.
   */
  function FindOneByUsernameOrEmail(svc: UserService, emailOrUsername: string, isEmail: string -> bool,
                                    isSlug: string -> bool): (r: Result<Option<User>, Failure>)
    reads svc
    requires svc.Valid()
    ensures '@' in emailOrUsername ==>
      (r.Err? <==> isEmail(emailOrUsername)) && (r.Err? ==> r.error == InvalidEmail)
    ensures '@' !in emailOrUsername ==>
      (r.Err? <==> !(MinUsernameLength <= |emailOrUsername| <= MaxUsernameLength && isSlug(emailOrUsername)))
      && (r.Err? ==> r.error == InvalidUsername)
    ensures r.Ok? && r.value.Some? ==> r.value.value in svc.users.Values
    ensures r.Ok? && r.value.Some? && '@' in emailOrUsername ==> r.value.value.email == NormalizeEmail(emailOrUsername)
    ensures r.Ok? && r.value.Some? && '@' !in emailOrUsername ==> r.value.value.username == Text.LowerCase(emailOrUsername)
  {
    if '@' in emailOrUsername then
      if isEmail(emailOrUsername) then Err(InvalidEmail)
      else Ok(svc.FindOneByEmail(emailOrUsername))
    else if |emailOrUsername| < MinUsernameLength || |emailOrUsername| > MaxUsernameLength
         || !isSlug(emailOrUsername) then
      Err(InvalidUsername)
    else
      Ok(svc.FindOneByUsername(emailOrUsername))
  }

  /**
   * A well-formed username always reaches the table, and finds a user exactly when some row
   * has that username once lower-cased.
   */
  lemma UsernameLookup(svc: UserService, username: string, isEmail: string -> bool, isSlug: string -> bool)
    requires svc.Valid()
    requires '@' !in username && MinUsernameLength <= |username| <= MaxUsernameLength && isSlug(username)
    ensures FindOneByUsernameOrEmail(svc, username, isEmail, isSlug).Ok?
    ensures FindOneByUsernameOrEmail(svc, username, isEmail, isSlug).value.Some?
        <==> exists id :: id in svc.users && svc.users[id].username == Text.LowerCase(username)
  {
  }

  /**
   * An input with an `@` reaches the table only when the email check rejects it, and then
   * finds exactly the user whose normalised email it is.
   */
  lemma EmailLookup(svc: UserService, email: string, isEmail: string -> bool, isSlug: string -> bool)
    requires svc.Valid()
    requires '@' in email && !isEmail(email)
    ensures FindOneByUsernameOrEmail(svc, email, isEmail, isSlug).Ok?
    ensures FindOneByUsernameOrEmail(svc, email, isEmail, isSlug).value.Some?
        <==> exists id :: id in svc.users && svc.users[id].email == NormalizeEmail(email)
  {
  }
}
