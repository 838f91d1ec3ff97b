/**
 * `AuthService`: the session lifecycle over the user table, the blacklist cache and the
 * token codec: signing up, signing in, refreshing, logging out, resetting a forgotten
 * password and changing a known one. Mail is not sent but recorded in an outbox.
 */
module AuthService {
  import opened Wrappers
  import opened Errors
  import opened Users
  import opened JwtCodec
  import opened JwtService
  import opened CommonService
  import opened Cache
  import opened BlacklistToken
  import opened CheckBlacklistedToken
  import opened CheckLastPassword
  import opened ComparePasswords
  import opened FindByUsernameOrEmail
  import opened GenerateAuthTokens
  import opened UserService
  import opened Mappers
  import Argon

  /** A mail the service asks the mailer to send, with the token it carries. */
  datatype Mail =
    | ConfirmationMail(to: User, token: string)
    | ResetPasswordMail(to: User, token: string)

  const RegistrationSuccessful: string := "Registration Successful.\nCheck your email to confirm your account."
  const ConfirmEmail: Failure := Http(Unauthorized, "Please confirm your email to continue. Confirmation email has been sent.")
  const LogoutSuccessful: string := "Logout successful"
  const ResetEmailSent: string := "Reset password email sent."
  const PasswordResetSuccessful: string := "Password reset successful"
  const EmailAlreadyInUse: Failure := Http(Unauthorized, "Email already in use")
  const RegistrationFailed: Failure := Http(BadRequest, "Registration failed")

  /** The `catch` of `signUp`: a database error with code P2002 is a duplicate email, anything else a failed registration. */
  function SignUpFailure(e: Failure): (f: Failure)
    ensures e.Code() == "P2002" <==> f == EmailAlreadyInUse
    ensures e.Code() != "P2002" <==> f == RegistrationFailed
  {
    if e.Code() == "P2002" then EmailAlreadyInUse else RegistrationFailed
  }

  /**
   * The errors `create` and `generateToken` raise are HTTP exceptions, which have no code,
   * so every failure inside `signUp`'s `try` becomes "Registration failed", a duplicate
   * email included.
   */
  lemma HttpErrorsFailRegistration(e: Failure)
    requires e.Http?
    ensures SignUpFailure(e) == RegistrationFailed
  {
  }

  /** Two passwords that both verify against one stored hash are the same password. */
  lemma OneHashOnePassword(hash: string, p: string, q: string)
    requires Argon.Verify(hash, p) == Ok(true) && Argon.Verify(hash, q) == Ok(true)
    ensures p == q
  {
    Argon.VerifyHash(p, q);
  }

  class AuthService {
    const settings: JwtSettings
    const userService: UserService
    const cache: Cache
    /** The mails requested so far, oldest first. */
    var outbox: seq<Mail>

    predicate Valid()
      reads this, userService
    {
      userService.Valid()
    }

    constructor (settings: JwtSettings, userService: UserService, cache: Cache)
      requires userService.Valid()
      ensures this.settings == settings && this.userService == userService && this.cache == cache
      ensures outbox == [] && Valid()
    {
      this.settings := settings;
      this.userService := userService;
      this.cache := cache;
      outbox := [];
    }

    /**
     * `signUp({ name, email, password1, password2 }, domain)` at `nowMs`, with the id the
     * database draws, the slug of the name and the id of the reply. The passwords are
     * compared first, outside the `try`; the user is created, a confirmation token is
     * minted and mailed, and the reply is a message, never a token. A user once created
     * stays even if the mint then fails.
     */
    method SignUp(name: string, email: string, password1: string, password2: string, domain: Option<string>,
                  pointSlug: string, newId: string, messageId: string, nowMs: nat) returns (r: Result<Message, Failure>)
      requires Valid()
      modifies this, userService
      ensures Valid()
      ensures password1 != password2 ==>
        r == Err(PasswordsDoNotMatch) && userService.users == old(userService.users) && outbox == old(outbox)
      ensures r.Err? ==> r.error == PasswordsDoNotMatch || r.error == RegistrationFailed
      ensures r.Err? ==> outbox == old(outbox)
      ensures EmailTaken(old(userService.users), NormalizeEmail(email)) ==> r.Err? && userService.users == old(userService.users)
      ensures (password1 == password2 && CanInsert(old(userService.users), email, pointSlug, newId)
               && 0 < |SigningKey(settings, Confirmation)|) ==> r.Ok?
      ensures userService.users == old(userService.users)
        || (&& newId !in old(userService.users)
            && newId in userService.users
            && userService.users == old(userService.users)[newId := userService.users[newId]])
      ensures r.Ok? ==>
        && r.value == GenerateMessage(messageId, RegistrationSuccessful)
        && newId !in old(userService.users) && newId in userService.users
        && var user := userService.users[newId];
        && userService.users == old(userService.users)[newId := user]
        && user.email == NormalizeEmail(email) && !user.confirmed
        && GenerateToken(settings, user, Confirmation, domain, None, "", nowMs).Ok?
        && outbox == old(outbox) + [ConfirmationMail(user, GenerateToken(settings, user, Confirmation, domain, None, "", nowMs).value)]
    {
      var compared := ComparePasswords.ComparePasswords(password1, password2);
      if compared.Err? {
        return Err(compared.error);
      }
      var registered := Register(name, email, password1, domain, pointSlug, newId, nowMs);
      if registered.Err? {
        return Err(registered.error);
      }
      return Ok(GenerateMessage(messageId, RegistrationSuccessful));
    }

    /**
     * The `try` of `signUp`: the user is created and mailed a confirmation token, and any
     * failure on the way becomes "Registration failed".
     */
    method Register(name: string, email: string, password: string, domain: Option<string>,
                    pointSlug: string, newId: string, nowMs: nat) returns (r: Result<(), Failure>)
      requires Valid()
      modifies this, userService
      ensures Valid()
      ensures r.Err? ==> r.error == RegistrationFailed && outbox == old(outbox)
      ensures EmailTaken(old(userService.users), NormalizeEmail(email)) ==> r.Err? && userService.users == old(userService.users)
      ensures (CanInsert(old(userService.users), email, pointSlug, newId) && 0 < |SigningKey(settings, Confirmation)|) ==> r.Ok?
      ensures userService.users == old(userService.users)
        || (&& newId !in old(userService.users)
            && newId in userService.users
            && userService.users == old(userService.users)[newId := userService.users[newId]])
      ensures r.Ok? ==>
        && newId !in old(userService.users) && newId in userService.users
        && var user := userService.users[newId];
        && userService.users == old(userService.users)[newId := user]
        && user.email == NormalizeEmail(email) && !user.confirmed
        && GenerateToken(settings, user, Confirmation, domain, None, "", nowMs).Ok?
        && outbox == old(outbox) + [ConfirmationMail(user, GenerateToken(settings, user, Confirmation, domain, None, "", nowMs).value)]
    {
      var created := userService.Create(email, name, password, pointSlug, newId, nowMs);
      if created.Err? {
        HttpErrorsFailRegistration(created.error);
        return Err(SignUpFailure(created.error));
      }
      var user := created.value;
      assert userService.users == old(userService.users)[newId := user] && userService.users[newId] == user;
      var sent := MailConfirmation(user, domain, nowMs);
      if sent.Err? {
        HttpErrorsFailRegistration(sent.error);
        return Err(SignUpFailure(sent.error));
      }
      return Ok(());
    }

    /**
     * The confirmation step of sign-up and sign-in: a confirmation token is minted for
     * `user` and the mail carrying it is recorded.
     */
    method MailConfirmation(user: User, domain: Option<string>, nowMs: nat) returns (r: Result<(), Failure>)
      modifies this
      ensures r.Ok? <==> 0 < |SigningKey(settings, Confirmation)|
      ensures r.Err? ==>
        && r == Err(GenerateToken(settings, user, Confirmation, domain, None, "", nowMs).error)
        && outbox == old(outbox)
      ensures r.Ok? ==>
        && GenerateToken(settings, user, Confirmation, domain, None, "", nowMs).Ok?
        && outbox == old(outbox) + [ConfirmationMail(user, GenerateToken(settings, user, Confirmation, domain, None, "", nowMs).value)]
    {
      var token := GenerateToken(settings, user, Confirmation, domain, None, "", nowMs);
      if token.Err? {
        return Err(token.error);
      }
      outbox := outbox + [ConfirmationMail(user, token.value)];
      return Ok(());
    }

    /**
     * `signIn({ emailorUsername, password }, domain)` at `nowMs`, with `months` the calendar
     * months since the last password change and `freshId` the uuid of the refresh token.
     * A password that does not verify ends in `checkLastPassword`, which always throws; an
     * unconfirmed user is mailed a confirmation token and refused; only a confirmed user
     * with the right password gets the access and refresh tokens.
     */
    method SignIn(emailOrUsername: string, password: string, domain: Option<string>, isEmail: string -> bool,
                  isSlug: string -> bool, months: int, freshId: string, nowMs: nat) returns (r: Result<AuthResult, Failure>)
      requires Valid()
      modifies this
      ensures var found := FindOneByUsernameOrEmail(userService, emailOrUsername, isEmail, isSlug);
        && (found.Err? ==> r == Err(found.error))
        && (found == Ok(None) ==> r == Err(NullUser))
        && (found.Ok? && found.value.Some? && Argon.Verify(found.value.value.password, password).Err? ==>
              r == Err(Argon.MalformedHash))
        && (found.Ok? && found.value.Some? && Argon.Verify(found.value.value.password, password) == Ok(false) ==>
              r == Err(CheckLastPassword.CheckLastPassword(found.value.value.credentials, password, months, nowMs)))
        && ((found.Ok? && found.value.Some? && Argon.Verify(found.value.value.password, password) == Ok(true)
             && !found.value.value.confirmed) ==> r.Err?)
        && ((&& found.Ok? && found.value.Some? && Argon.Verify(found.value.value.password, password) == Ok(true)
             && !found.value.value.confirmed
             && 0 < |SigningKey(settings, Confirmation)|) ==>
              && r == Err(ConfirmEmail)
              && outbox == old(outbox) + [ConfirmationMail(found.value.value,
                                            GenerateToken(settings, found.value.value, Confirmation, domain, None, "", nowMs).value)])
        && ((&& found.Ok? && found.value.Some? && Argon.Verify(found.value.value.password, password) == Ok(true)
             && found.value.value.confirmed
             && 0 < |SigningKey(settings, Access)| && 0 < |SigningKey(settings, Refresh)|) ==> r.Ok?)
      ensures r.Ok? ==>
        && FindOneByUsernameOrEmail(userService, emailOrUsername, isEmail, isSlug) == Ok(Some(r.value.user))
        && r.value.user in userService.users.Values
        && r.value.user.confirmed
        && Argon.Verify(r.value.user.password, password) == Ok(true)
        && GenerateAuthTokens.GenerateAuthTokens(settings, r.value.user, domain, None, freshId, nowMs)
           == Ok((r.value.accessToken, r.value.refreshToken))
      ensures outbox == old(outbox) || (
        && r == Err(ConfirmEmail)
        && var found := FindOneByUsernameOrEmail(userService, emailOrUsername, isEmail, isSlug);
        && found.Ok? && found.value.Some? && !found.value.value.confirmed
        && GenerateToken(settings, found.value.value, Confirmation, domain, None, "", nowMs).Ok?
        && outbox == old(outbox) + [ConfirmationMail(found.value.value,
                                      GenerateToken(settings, found.value.value, Confirmation, domain, None, "", nowMs).value)])
    {
      var found := FindOneByUsernameOrEmail(userService, emailOrUsername, isEmail, isSlug);
      if found.Err? {
        return Err(found.error);
      }
      if found.value.None? {
        return Err(NullUser);
      }
      var user := found.value.value;
      var verified := Argon.Verify(user.password, password);
      if verified.Err? {
        return Err(verified.error);
      }
      if !verified.value {
        return Err(CheckLastPassword.CheckLastPassword(user.credentials, password, months, nowMs));
      }
      if !user.confirmed {
        var sent := MailConfirmation(user, domain, nowMs);
        if sent.Err? {
          return Err(sent.error);
        }
        return Err(ConfirmEmail);
      }
      var tokens := GenerateAuthTokens.GenerateAuthTokens(settings, user, domain, None, freshId, nowMs);
      if tokens.Err? {
        return Err(tokens.error);
      }
      return Ok(AuthResult(user, tokens.value.0, tokens.value.1));
    }

    /**
     * `refreshToken(refreshToken, domain)` at `nowMs`: the token must verify as a refresh
     * token and must not be blacklisted, both before any lookup; the user must still have
     * the credentials version the token carries; the new pair keeps the token id.
     */
    function RefreshToken(refreshToken: string, domain: Option<string>, nowMs: nat): (r: Result<AuthResult, Failure>)
      reads userService, cache
      ensures VerifyToken(settings, refreshToken, Refresh, nowMs).Err? ==>
        r == Err(VerifyToken(settings, refreshToken, Refresh, nowMs).error)
      ensures var v := VerifyToken(settings, refreshToken, Refresh, nowMs);
        v.Ok? && CheckIfTokenIsBlacklisted(v.value.payload.id, v.value.payload.tokenId, cache, nowMs).Err? ==>
          r == Err(InvalidToken)
      ensures var v := VerifyToken(settings, refreshToken, Refresh, nowMs);
        (&& v.Ok?
         && CheckIfTokenIsBlacklisted(v.value.payload.id, v.value.payload.tokenId, cache, nowMs).Ok?
         && userService.FindOnebyCredentials(v.value.payload.id, v.value.payload.version).Some?
         && 0 < |SigningKey(settings, Access)| && 0 < |SigningKey(settings, Refresh)|)
        ==> r.Ok?
      ensures r.Ok? ==>
        && VerifyToken(settings, refreshToken, Refresh, nowMs).Ok?
        && var p := VerifyToken(settings, refreshToken, Refresh, nowMs).value.payload;
        && CheckIfTokenIsBlacklisted(p.id, p.tokenId, cache, nowMs).Ok?
        && p.id in userService.users
        && r.value.user == userService.users[p.id]
        && r.value.user.credentials.version == p.version
        && GenerateAuthTokens.GenerateAuthTokens(settings, r.value.user, domain, Some(p.tokenId), "", nowMs)
           == Ok((r.value.accessToken, r.value.refreshToken))
    {
      var claims :- VerifyToken(settings, refreshToken, Refresh, nowMs);
      var p := claims.payload;
      var _ :- CheckIfTokenIsBlacklisted(p.id, p.tokenId, cache, nowMs);
      var user := userService.FindOnebyCredentials(p.id, p.version);
      if user.None? then Err(NullUser)
      else
        var tokens :- GenerateAuthTokens.GenerateAuthTokens(settings, user.value, domain, Some(p.tokenId), "", nowMs);
        Ok(AuthResult(user.value, tokens.0, tokens.1))
    }

    /**
     * `logout(refreshToken)` at `nowMs`: a refresh token that verifies is blacklisted until
     * it expires; `writeFails` stands for a cache that refuses the write.
     */
    method Logout(refreshToken: string, messageId: string, nowMs: nat, writeFails: bool) returns (r: Result<Message, Failure>)
      modifies cache
      ensures VerifyToken(settings, refreshToken, Refresh, nowMs).Err? ==>
        r == Err(VerifyToken(settings, refreshToken, Refresh, nowMs).error) && cache.entries == old(cache.entries)
      ensures r.Err? ==> cache.entries == old(cache.entries)
      ensures r.Ok? <==> VerifyToken(settings, refreshToken, Refresh, nowMs).Ok? && !writeFails
      ensures r.Ok? ==>
        && r.value == GenerateMessage(messageId, LogoutSuccessful)
        && var c := VerifyToken(settings, refreshToken, Refresh, nowMs).value;
        && cache.entries == Blacklisted(old(cache.entries), c.payload.id, c.payload.tokenId, c.exp, nowMs)
    {
      var verified := VerifyToken(settings, refreshToken, Refresh, nowMs);
      if verified.Err? {
        return Err(verified.error);
      }
      var c := verified.value;
      var blacklisted := BlacklistToken.BlacklistToken(c.payload.id, c.payload.tokenId, c.exp, cache, nowMs, writeFails);
      if blacklisted.Err? {
        return Err(blacklisted.error);
      }
      return Ok(GenerateMessage(messageId, LogoutSuccessful));
    }

    /**
     * `resetPasswordEmail({ email }, domain)` at `nowMs`: a reset token is minted and mailed
     * only when the email belongs to a user, and the reply is the same either way.
     */
    method ResetPasswordEmail(email: string, domain: Option<string>, messageId: string, nowMs: nat)
      returns (r: Result<Message, Failure>)
      requires Valid()
      modifies this
      ensures 0 < |SigningKey(settings, TokenType.ResetPassword)| ==> r == Ok(GenerateMessage(messageId, ResetEmailSent))
      ensures r.Err? ==> r.error == InternalError && outbox == old(outbox)
      ensures userService.UncheckedUserByEmail(email).None? ==> r.Ok? && outbox == old(outbox)
      ensures var user := userService.UncheckedUserByEmail(email);
        user.Some? && r.Ok? ==>
          && GenerateToken(settings, user.value, TokenType.ResetPassword, domain, None, "", nowMs).Ok?
          && outbox == old(outbox) + [ResetPasswordMail(user.value,
                                        GenerateToken(settings, user.value, TokenType.ResetPassword, domain, None, "", nowMs).value)]
    {
      var user := userService.UncheckedUserByEmail(email);
      if user.Some? {
        var token := GenerateToken(settings, user.value, TokenType.ResetPassword, domain, None, "", nowMs);
        if token.Err? {
          return Err(token.error);
        }
        outbox := outbox + [ResetPasswordMail(user.value, token.value)];
      }
      return Ok(GenerateMessage(messageId, ResetEmailSent));
    }

    /**
     * `resetPassword({ password1, password2, resetToken })` at `nowMs`: the token must verify
     * as a reset token, the passwords must match, and the user must still have the token's
     * credentials version. Success bumps that version, so the token cannot be used again.
     */
    method ResetPassword(password1: string, password2: string, resetToken: string, messageId: string, nowMs: nat)
      returns (r: Result<Message, Failure>)
      requires Valid()
      modifies userService
      ensures Valid()
      ensures r.Err? ==> userService.users == old(userService.users)
      ensures VerifyToken(settings, resetToken, TokenType.ResetPassword, nowMs).Err? ==>
        r == Err(VerifyToken(settings, resetToken, TokenType.ResetPassword, nowMs).error)
      ensures VerifyToken(settings, resetToken, TokenType.ResetPassword, nowMs).Ok? && password1 != password2 ==>
        r == Err(PasswordsDoNotMatch)
      ensures var v := VerifyToken(settings, resetToken, TokenType.ResetPassword, nowMs);
        (&& v.Ok? && password1 == password2
         && v.value.payload.id in old(userService.users)
         && old(userService.users)[v.value.payload.id].credentials.version == v.value.payload.version)
        ==> r.Ok?
      ensures r.Ok? ==>
        && r.value == GenerateMessage(messageId, PasswordResetSuccessful)
        && VerifyToken(settings, resetToken, TokenType.ResetPassword, nowMs).Ok?
        && password1 == password2
        && var p := VerifyToken(settings, resetToken, TokenType.ResetPassword, nowMs).value.payload;
        && p.id in old(userService.users) && old(userService.users)[p.id].credentials.version == p.version
        && p.id in userService.users
        && userService.users == old(userService.users)[p.id := userService.users[p.id]]
        && userService.users[p.id].password == Argon.Hash(password1)
        && userService.FindOnebyCredentials(p.id, p.version).None?
    {
      var verified := VerifyToken(settings, resetToken, TokenType.ResetPassword, nowMs);
      if verified.Err? {
        return Err(verified.error);
      }
      var p := verified.value.payload;
      var compared := ComparePasswords.ComparePasswords(password1, password2);
      if compared.Err? {
        return Err(compared.error);
      }
      var updated := userService.ResetPassword(p.id, password1, p.version, nowMs);
      if updated.Err? {
        return Err(updated.error);
      }
      return Ok(GenerateMessage(messageId, PasswordResetSuccessful));
    }

    /**
     * `changePasssword(userId, { password1, password2, oldPassword })` at `nowMs`: the
     * passwords are compared, the password is updated, and a new pair of tokens is minted
     * for the updated user with a fresh token id. As written, the update accepts only a
     * new password that verifies against the current hash, so a change succeeds only when
     * the new password is the old one.
     */
    method ChangePasssword(userId: string, oldPassword: string, password1: string, password2: string, freshId: string,
                           nowMs: nat) returns (r: Result<AuthResult, Failure>)
      requires Valid()
      modifies userService
      ensures Valid()
      ensures password1 != password2 ==> r == Err(PasswordsDoNotMatch) && userService.users == old(userService.users)
      ensures (&& password1 == password2
               && userId in old(userService.users)
               && Argon.Verify(old(userService.users)[userId].password, oldPassword) == Ok(true)
               && Argon.Verify(old(userService.users)[userId].password, password1) == Ok(true)
               && 0 < |SigningKey(settings, Access)| && 0 < |SigningKey(settings, Refresh)|)
        ==> r.Ok?
      ensures r.Ok? ==>
        && password1 == password2 == oldPassword
        && userId in old(userService.users) && userId in userService.users
        && r.value.user == userService.users[userId]
        && userService.users == old(userService.users)[userId := r.value.user]
        && r.value.user.password == Argon.Hash(password1)
        && r.value.user.credentials.version == old(userService.users)[userId].credentials.version + 1
        && GenerateAuthTokens.GenerateAuthTokens(settings, r.value.user, None, None, freshId, nowMs)
           == Ok((r.value.accessToken, r.value.refreshToken))
    {
      var compared := ComparePasswords.ComparePasswords(password1, password2);
      if compared.Err? {
        return Err(compared.error);
      }
      ghost var before := userService.users;
      var user := userService.UpdatePassword(userId, oldPassword, password1, nowMs);
      if user.Err? {
        return Err(user.error);
      }
      OneHashOnePassword(before[userId].password, oldPassword, password1);
      var tokens := GenerateAuthTokens.GenerateAuthTokens(settings, user.value, None, None, freshId, nowMs);
      if tokens.Err? {
        return Err(tokens.error);
      }
      return Ok(AuthResult(user.value, tokens.value.0, tokens.value.1));
    }
  }

  /**
   * After a logout the same refresh token is refused for good: while it lives its
   * blacklist entry is live, and afterwards it has expired.
   */
  lemma RefreshAfterLogoutRefused(svc: AuthService, refreshToken: string, before: map<string, Entry>,
                                  nowMs: nat, domain: Option<string>, laterMs: nat)
    requires VerifyToken(svc.settings, refreshToken, Refresh, nowMs).Ok?
    requires var c := VerifyToken(svc.settings, refreshToken, Refresh, nowMs).value;
      svc.cache.entries == Blacklisted(before, c.payload.id, c.payload.tokenId, c.exp, nowMs)
    ensures svc.RefreshToken(refreshToken, domain, laterMs).Err?
  {
    var c := VerifyToken(svc.settings, refreshToken, Refresh, nowMs).value;
    var later := VerifyToken(svc.settings, refreshToken, Refresh, laterMs);
    if later.Ok? {
      assert later.value == c;
      assert laterMs / 1000 < c.exp;
      BlacklistedIsRefused(svc.cache, before, c.payload.id, c.payload.tokenId, c.exp, nowMs, laterMs);
    }
  }

  /**
   * Under a valid configuration a refresh keeps the session's token id: the new refresh
   * token verifies, while it lives, with the same user id and token id as the presented
   * one.
   */
  lemma RefreshKeepsTokenId(svc: AuthService, refreshToken: string, domain: Option<string>, nowMs: nat, laterMs: nat)
    requires Valid(svc.settings) && svc.Valid()
    requires domain.None? || AudienceMatches(svc.settings.domain, domain.value)
    requires svc.RefreshToken(refreshToken, domain, nowMs).Ok?
    requires laterMs / 1000 < nowMs / 1000 + TimeOf(svc.settings, Refresh)
    ensures var p := VerifyToken(svc.settings, refreshToken, Refresh, nowMs).value.payload;
      var minted := svc.RefreshToken(refreshToken, domain, nowMs).value.refreshToken;
      && VerifyToken(svc.settings, minted, Refresh, laterMs).Ok?
      && VerifyToken(svc.settings, minted, Refresh, laterMs).value.payload.id == p.id
      && VerifyToken(svc.settings, minted, Refresh, laterMs).value.payload.tokenId == p.tokenId
  {
    var p := VerifyToken(svc.settings, refreshToken, Refresh, nowMs).value.payload;
    var result := svc.RefreshToken(refreshToken, domain, nowMs).value;
    var pair := GenerateAuthTokens.GenerateAuthTokens(svc.settings, result.user, domain, Some(p.tokenId), "", nowMs);
    assert pair == Ok((result.accessToken, result.refreshToken));
    assert result.user.id == p.id;
    AuthTokensVerify(svc.settings, result.user, domain, Some(p.tokenId), "", nowMs, laterMs);
  }

  /**
   * A refresh token bound to a credentials version the user no longer has (after an email
   * change, a password change or a reset) is refused.
   */
  lemma StaleVersionRefused(svc: AuthService, refreshToken: string, domain: Option<string>, nowMs: nat)
    requires VerifyToken(svc.settings, refreshToken, Refresh, nowMs).Ok?
    requires var p := VerifyToken(svc.settings, refreshToken, Refresh, nowMs).value.payload;
      p.id in svc.userService.users && svc.userService.users[p.id].credentials.version != p.version
    ensures svc.RefreshToken(refreshToken, domain, nowMs).Err?
  {
  }
}
