/**
 * `UserService`: the user table and the operations that create, find and change its
 * records. Each changing operation loads a record, assigns the fields it changes, and
 * writes the record back.
 */
module UserService {
  import opened Wrappers
  import opened Errors
  import opened Text
  import opened Numerals
  import opened Users
  import opened UserTable
  import opened CommonService
  import opened EmailUniqueness
  import opened UsernameUniqueness
  import Argon
  import UpdateVersion
  import UpdateLastPassword

  function EmailOf(u: User): string { u.email }
  function UsernameOf(u: User): string { u.username }

  /** The table's constraints: each row is keyed by its id, and emails and usernames are unique. */
  predicate TableValid(users: Table) {
    && (forall id :: id in users ==> users[id].id == id)
    && UniqueColumn(users, EmailOf)
    && UniqueColumn(users, UsernameOf)
  }

  /** `email.toLocaleLowerCase().trim()`. */
  function NormalizeEmail(email: string): (r: string)
    ensures NoUpper(r)
    ensures |r| > 0 ==> !IsSpace(r[0]) && !IsSpace(r[|r| - 1])
  {
    TrimKeepsNoUpper(LowerCase(email));
    Trim(LowerCase(email))
  }

  /** A normalised email normalises to itself, so a stored email is found again by its own lookup. */
  lemma NormalizeEmailIdempotent(email: string)
    ensures NormalizeEmail(NormalizeEmail(email)) == NormalizeEmail(email)
  {
    var n := NormalizeEmail(email);
    assert LowerCase(n) == n;
    TrimFixed(n);
  }

  /** The database's `contains` filter, which every string satisfies for the empty pattern. */
  predicate Includes(s: string, t: string): (b: bool)
    ensures b <==> exists j: nat :: OccursAt(s, t, j)
  {
    if |t| == 0 then
      assert OccursAt(s, t, 0);
      true
    else
      ContainsOccurs(s, t);
      Contains(s, t)
  }

  /**
   * `generateUsername(name)`, given `pointSlug`, the slug the slugify library makes of the
   * name: the slug, followed by the number of usernames containing it when there are any.
   */
  function GenerateUsername(users: Table, pointSlug: string): (username: string)
    ensures (forall id :: id in users ==> !Includes(users[id].username, pointSlug)) ==> username == pointSlug
  {
    var count := Count(users, (u: User) => Includes(u.username, pointSlug));
    if count > 0 then pointSlug + ToDigits(count) else pointSlug
  }

  const ErrorCreatingUser: Failure := Http(BadRequest, "Error creating user")
  const NameMustBeDifferent: Failure := Http(BadRequest, "Name must be different")
  const UsernameShouldBeDifferent: Failure := Http(BadRequest, "Username should be different")
  const ErrorUpdatingUser: Failure := Http(BadRequest, "Error updating user")
  const InvalidPassword: Failure := Http(BadRequest, "Invalid password")
  const NewPasswordMustBeDifferent: Failure := Http(BadRequest, "New password must be different")

  /** Adding a row under a fresh id with an unused email and username keeps the constraints. */
  lemma InsertKeepsValid(users: Table, u: User)
    requires TableValid(users) && u.id !in users
    requires forall id :: id in users ==> users[id].email != u.email && users[id].username != u.username
    ensures TableValid(users[u.id := u])
  {
  }

  /** Replacing a row by one with the same id, and an email and username that are its own or unused, keeps the constraints. */
  lemma ReplaceKeepsValid(users: Table, u: User)
    requires TableValid(users) && u.id in users
    requires u.email == users[u.id].email || forall id :: id in users ==> users[id].email != u.email
    requires u.username == users[u.id].username || forall id :: id in users ==> users[id].username != u.username
    ensures TableValid(users[u.id := u])
  {
  }

  /**
   * As written, a password change succeeds only when the new password verifies against the
   * current hash, so the only change it ever makes is to the password the user already has.
   */
  lemma OnlySamePasswordAccepted(current: string, password: string, newPassword: string)
    requires Argon.Verify(Argon.Hash(current), password) == Ok(true)
    requires Argon.Verify(Argon.Hash(current), newPassword) == Ok(true)
    ensures password == newPassword == current
    ensures Argon.Hash(newPassword) == Argon.Hash(current)
  {
    Argon.VerifyHash(current, password);
    Argon.VerifyHash(current, newPassword);
  }

  /** Some row of `users` holds `email`. */
  predicate EmailTaken(users: Table, email: string) {
    exists id :: id in users && users[id].email == email
  }

  /**
   * `create` can insert its row: the normalised email is unused, the id is fresh, and the
   * username generated from `pointSlug` is unused.
   */
  predicate CanInsert(users: Table, email: string, pointSlug: string, newId: string) {
    && !EmailTaken(users, NormalizeEmail(email))
    && newId !in users
    && (forall id :: id in users ==> users[id].username != GenerateUsername(users, pointSlug))
  }

  class UserService {
    var users: Table

    predicate Valid()
      reads this
    {
      TableValid(users)
    }

    constructor (users: Table)
      requires TableValid(users)
      ensures this.users == users && Valid()
    {
      this.users := users;
    }

    /** `findOneById(id)`: the record, or `null`. */
    function FindOneById(id: string): (r: Option<User>)
      reads this
      ensures r.Some? <==> id in users
      ensures r.Some? ==> r.value == users[id] && r.value in users.Values
    {
      if id in users then Some(users[id]) else None
    }

    /** `findOneByEmail(email)`: the record with the normalised email, or `null`. */
    function FindOneByEmail(email: string): (r: Option<User>)
      reads this
      requires Valid()
      ensures r.Some? <==> exists id :: id in users && users[id].email == NormalizeEmail(email)
      ensures r.Some? ==> r.value in users.Values && r.value.email == NormalizeEmail(email)
    {
      FindBy(users, EmailOf, NormalizeEmail(email))
    }

    /** `findOnebyCredentials(id, version)`: the record when both its id and its credentials version match, else `null`. */
    function FindOnebyCredentials(id: string, version: nat): (r: Option<User>)
      reads this
      ensures r.Some? <==> id in users && users[id].credentials.version == version
      ensures r.Some? ==> r.value == users[id]
    {
      if id in users && users[id].credentials.version == version then Some(users[id]) else None
    }

    /** `findOneByUsername(username)`: the record with the lower-cased username, or `null`. */
    function FindOneByUsername(username: string): (r: Option<User>)
      reads this
      requires Valid()
      ensures r.Some? <==> exists id :: id in users && users[id].username == LowerCase(username)
      ensures r.Some? ==> r.value in users.Values && r.value.username == LowerCase(username)
    {
      FindBy(users, UsernameOf, LowerCase(username))
    }

    /** `uncheckedUserByEmail(email)`: the same lookup as `findOneByEmail`. */
    function UncheckedUserByEmail(email: string): (r: Option<User>)
      reads this
      requires Valid()
      ensures r == FindOneByEmail(email)
    {
      FindBy(users, EmailOf, NormalizeEmail(email))
    }

    /**
     * `create(email, name, password)` with the id `newId` the database draws and the clock
     * at `nowMs`. The email is normalised and must be unused (checked before anything is
     * written); the name is formatted; the username is generated from `pointSlug`, the slug
     * of the formatted name; the credentials start at version 0 with no previous password.
     * An insert the table's constraints refuse is "Error creating user".
     */
    method Create(email: string, name: string, password: string, pointSlug: string, newId: string, nowMs: nat)
      returns (r: Result<User, Failure>)
      requires Valid()
      modifies this
      ensures Valid()
      ensures r.Err? ==> users == old(users)
      ensures r.Err? ==> r.error == EmailInUse || r.error == ErrorCreatingUser
      ensures r == Err(EmailInUse) <==> EmailTaken(old(users), NormalizeEmail(email))
      ensures r.Ok? <==> CanInsert(old(users), email, pointSlug, newId)
      ensures r.Ok? ==>
        && newId !in old(users)
        && users == old(users)[newId := r.value]
        && r.value.id == newId
        && r.value.email == NormalizeEmail(email)
        && r.value.name == FormatName(name)
        && r.value.password == Argon.Hash(password)
        && !r.value.confirmed
        && r.value.username == GenerateUsername(old(users), pointSlug)
        && r.value.credentials == Credentials(0, "", nowMs / 1000, nowMs / 1000)
        && r.value.createdAt == nowMs && r.value.updatedAt == nowMs
    {
      var formattedEmail := NormalizeEmail(email);
      var unique := CheckEmailUniqueness(users, formattedEmail);
      if unique.Err? {
        return Err(unique.error);
      }
      var formattedName := FormatName(name);
      var username := GenerateUsername(users, pointSlug);
      var now := nowMs / 1000;
      var user := User(newId, formattedEmail, formattedName, username, Argon.Hash(password), false,
                       Credentials(0, "", now, now), nowMs, nowMs);
      if newId in users || exists id :: id in users && users[id].username == username {
        return Err(ErrorCreatingUser);
      }
      InsertKeepsValid(users, user);
      users := users[newId := user];
      return Ok(user);
    }

    /**
     * `update(userId, { name, username })`. A given name must differ from the stored one
     * and is then formatted; a given username is lower-cased, must differ from the stored
     * one and be unused. Only the name and the username are written. A missing record
     * throws when a field is read from it, and fails the write when none is.
     */
    method Update(userId: string, name: Option<string>, username: Option<string>) returns (r: Result<User, Failure>)
      requires Valid()
      modifies this
      ensures Valid()
      ensures r.Err? ==> users == old(users)
      ensures userId !in old(users) ==> r.Err?
      ensures userId !in old(users) ==> r == Err(if name.Some? || username.Some? then NullUser else ErrorUpdatingUser)
      ensures userId in old(users) && name.Some? && name.value == old(users)[userId].name ==> r == Err(NameMustBeDifferent)
      ensures (&& userId in old(users)
               && (name.Some? ==> name.value != old(users)[userId].name)
               && username.Some? && LowerCase(username.value) == old(users)[userId].username)
        ==> r == Err(UsernameShouldBeDifferent)
      ensures (&& userId in old(users)
               && (name.Some? ==> name.value != old(users)[userId].name)
               && username.Some? && LowerCase(username.value) != old(users)[userId].username
               && exists id :: id in old(users) && old(users)[id].username == LowerCase(username.value))
        ==> r == Err(UsernameInUse)
      ensures (&& userId in old(users)
               && (name.Some? ==> name.value != old(users)[userId].name)
               && (username.Some? ==> forall id :: id in old(users) ==> old(users)[id].username != LowerCase(username.value)))
        ==> r.Ok?
      ensures r.Ok? ==>
        var before := old(users)[userId];
        && userId in old(users)
        && users == old(users)[userId := r.value]
        && r.value == before.(name := r.value.name, username := r.value.username)
        && r.value.name == (if name.Some? then FormatName(name.value) else before.name)
        && r.value.username == (if username.Some? then LowerCase(username.value) else before.username)
        && (name.Some? ==> name.value != before.name)
        && (username.Some? ==> LowerCase(username.value) != before.username
                               && forall id :: id in old(users) ==> old(users)[id].username != LowerCase(username.value))
    {
      var found := FindOneById(userId);
      var user := found.GetOr(User("", "", "", "", "", false, Credentials(0, "", 0, 0), 0, 0));
      if name.Some? {
        if found.None? {
          return Err(NullUser);
        }
        if name.value == user.name {
          return Err(NameMustBeDifferent);
        }
        user := user.(name := FormatName(name.value));
      }
      if username.Some? {
        if found.None? {
          return Err(NullUser);
        }
        var formattedUsername := LowerCase(username.value);
        if user.username == formattedUsername {
          return Err(UsernameShouldBeDifferent);
        }
        var unique := CheckUsernameUniqueness(users, formattedUsername);
        if unique.Err? {
          return Err(unique.error);
        }
        user := user.(username := formattedUsername);
      }
      if found.None? {
        return Err(ErrorUpdatingUser);
      }
      ReplaceKeepsValid(users, user);
      users := users[userId := user];
      return Ok(user);
    }

    /**
     * `updateEmail({ email, password }, userId)` at `nowMs`: the password must verify; the
     * normalised email must be unused; the credentials version is bumped, which stales
     * every token bound to the old version.
     */
    method UpdateEmail(userId: string, email: string, password: string, nowMs: nat) returns (r: Result<User, Failure>)
      requires Valid()
      modifies this
      ensures Valid()
      ensures r.Err? ==> users == old(users)
      ensures userId !in old(users) ==> r == Err(NullUser)
      ensures userId in old(users) && Argon.Verify(old(users)[userId].password, password).Err? ==>
        r == Err(Argon.Verify(old(users)[userId].password, password).error)
      ensures userId in old(users) && Argon.Verify(old(users)[userId].password, password) == Ok(false) ==> r == Err(InvalidPassword)
      ensures (&& userId in old(users)
               && Argon.Verify(old(users)[userId].password, password) == Ok(true)
               && exists id :: id in old(users) && old(users)[id].email == NormalizeEmail(email))
        ==> r == Err(EmailInUse)
      ensures (&& userId in old(users)
               && Argon.Verify(old(users)[userId].password, password) == Ok(true)
               && (forall id :: id in old(users) ==> old(users)[id].email != NormalizeEmail(email)))
        ==> r.Ok?
      ensures r.Ok? ==>
        var before := old(users)[userId];
        && userId in old(users)
        && Argon.Verify(before.password, password) == Ok(true)
        && (forall id :: id in old(users) ==> old(users)[id].email != NormalizeEmail(email))
        && users == old(users)[userId := r.value]
        && r.value == before.(email := NormalizeEmail(email), credentials := UpdateVersion.Bumped(before.credentials, nowMs / 1000))
        && r.value.credentials.version == before.credentials.version + 1
    {
      if userId !in users {
        return Err(NullUser);
      }
      var user := users[userId];
      var verified := Argon.Verify(user.password, password);
      if verified.Err? {
        return Err(verified.error);
      }
      if !verified.value {
        return Err(InvalidPassword);
      }
      var formattedEmail := NormalizeEmail(email);
      var unique := CheckEmailUniqueness(users, formattedEmail);
      if unique.Err? {
        return Err(unique.error);
      }
      var json := new CredentialsJson(user.credentials);
      var same := UpdateVersion.UpdateVersion(json, nowMs / 1000);
      user := user.(credentials := json.Value(), email := formattedEmail);
      ReplaceKeepsValid(users, user);
      users := users[userId := user];
      return Ok(user);
    }

    /**
     * `updatePassword({ password, newPassword }, userId)` at `nowMs`. The current password
     * must verify, and so must the new one: as written, a new password that does not
     * verify against the current hash is refused as "New password must be different".
     * The credentials are rotated with the new password as the previous one, verbatim,
     * and the record's password becomes the new password's hash.
     */
    method UpdatePassword(userId: string, password: string, newPassword: string, nowMs: nat)
      returns (r: Result<User, Failure>)
      requires Valid()
      modifies this
      ensures Valid()
      ensures r.Err? ==> users == old(users)
      ensures userId !in old(users) ==> r == Err(NullUser)
      ensures userId in old(users) && Argon.Verify(old(users)[userId].password, password) == Ok(false) ==> r == Err(InvalidPassword)
      ensures userId in old(users) && Argon.Verify(old(users)[userId].password, password).Err? ==> r == Err(Argon.MalformedHash)
      ensures (userId in old(users) && Argon.Verify(old(users)[userId].password, password) == Ok(true)
               && Argon.Verify(old(users)[userId].password, newPassword) == Ok(false)) ==> r == Err(NewPasswordMustBeDifferent)
      ensures (&& userId in old(users)
               && Argon.Verify(old(users)[userId].password, password) == Ok(true)
               && Argon.Verify(old(users)[userId].password, newPassword) == Ok(true))
        ==> r.Ok?
      ensures r.Ok? ==>
        var before := old(users)[userId];
        && userId in old(users)
        && Argon.Verify(before.password, password) == Ok(true)
        && Argon.Verify(before.password, newPassword) == Ok(true)
        && users == old(users)[userId := r.value]
        && r.value == before.(password := Argon.Hash(newPassword),
                              credentials := UpdateLastPassword.Rotated(before.credentials, newPassword, nowMs / 1000))
    {
      var found := FindOneById(userId);
      if found.None? {
        return Err(NullUser);
      }
      var user := found.value;
      var verified := Argon.Verify(user.password, password);
      if verified.Err? {
        return Err(verified.error);
      }
      if !verified.value {
        return Err(InvalidPassword);
      }
      if Argon.Verify(user.password, newPassword) == Ok(false) {
        return Err(NewPasswordMustBeDifferent);
      }
      var json := new CredentialsJson(user.credentials);
      var same := UpdateLastPassword.UpdatePassword(newPassword, json, nowMs / 1000);
      user := user.(credentials := json.Value(), password := Argon.Hash(newPassword));
      ReplaceKeepsValid(users, user);
      users := users[userId := user];
      return Ok(user);
    }

    /**
     * `resetPassword(userId, password, version)` at `nowMs`: the record must match both the
     * id and the version the reset token carries; every failure is "Invalid credentials".
     * The credentials are rotated and the password becomes the new password's hash.
     */
    method ResetPassword(userId: string, password: string, version: nat, nowMs: nat) returns (r: Result<User, Failure>)
      requires Valid()
      modifies this
      ensures Valid()
      ensures r.Ok? <==> userId in old(users) && old(users)[userId].credentials.version == version
      ensures r.Err? ==> r.error == InvalidCredentials && users == old(users)
      ensures r.Ok? ==>
        var before := old(users)[userId];
        && users == old(users)[userId := r.value]
        && r.value == before.(password := Argon.Hash(password),
                              credentials := UpdateLastPassword.Rotated(before.credentials, password, nowMs / 1000))
        && r.value.credentials.version == version + 1
    {
      var found := FindOnebyCredentials(userId, version);
      if found.None? {
        return Err(InvalidCredentials);
      }
      var user := found.value;
      var json := new CredentialsJson(user.credentials);
      var same := UpdateLastPassword.UpdatePassword(password, json, nowMs / 1000);
      user := user.(credentials := json.Value(), password := Argon.Hash(password));
      ReplaceKeepsValid(users, user);
      users := users[userId := user];
      return Ok(user);
    }
  }
}
