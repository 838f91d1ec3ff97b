# auth-server session core in Dafny

This project models the authentication core of the `auth-server` NestJS service:

- **Lifecycle.** Signing up, signing in, refreshing a session, logging out, the
  forgotten-password mail, resetting a password and changing one, all in `AuthService`.
- **User table.** The operations that create, find and change user records, in
  `UserService`, together with the in-place credential helpers `updateVersion` and
  `updatePassword`.
- **Tokens.** The JSON Web Token service: which payload, key, algorithm, lifetime and
  registered claims (section 4.1 of RFC 7519) each token category gets, and how each is
  verified (HS256 and RS256, sections 3.2 and 3.3 of RFC 7518).
- **Refresh-token blacklist.** The key and TTL of a revoked refresh token in the cache.
- **Bearer guard.** The guard that reads a Bearer `Authorization` header (section 2.1 of
  RFC 6750).
- **Helpers.** The password-history message cascade, the error wrappers, `formatName`,
  the Redis URL parser, and the response mappers with the ISO rendering of dates they
  rely on.

The model is written in the source's own form:

- Services that change stored state are classes. `AuthService` keeps an outbox of
  requested mails, `UserService` keeps a `map` of users, and `Cache` keeps a `map` of
  entries with expiries. Their methods state the whole new state.
- The credentials JSON object that the helpers mutate in place is a class,
  `CredentialsJson`.
- Request, token and response values are datatypes.
- Pure helpers are functions with lemmas about them.

Values the program draws from the outside are parameters:

- the clock (`nowMs`);
- uuids (`newId`, `freshId`, `messageId`);
- the calendar month difference dayjs computes (`months`);
- the slug the slugify library makes of a name (`pointSlug`);
- the email and slug validators (`isEmail`, `isSlug`);
- whether the cache refuses a write (`writeFails`).

Two libraries are modelled concretely but not cryptographically:

- **Hashing.** An argon2 hash is `"$argon2id$" + password`, which is injective. `verify`
  throws on a string without that prefix.
- **Tokens.** A token is `header.payload.signature`. The payload lists the claims in
  hexadecimal, and the signature renders the verifying key with the two other segments.
  An RS256 token is verified with `PublicKeyOf(privateKey)`.

This is enough to prove what the services rely on:

- a token verifies only with its own category's key and algorithm;
- `verify` inverts `sign` while the token lives;
- the hash accepts exactly the hashed password.

## Model

| member | source | states |
|---|---|---|
| Argon.Hash | src/user/user.service.ts:49 | The stored hash is in the hashing library's encoded format. |
| Argon.Verify | src/auth/auth.service.ts:96 | Verification throws exactly when the stored string is not an encoded hash, and otherwise answers whether it is the hash of the password. |
| Argon.VerifyHash | src/user/user.service.ts:271-277 | Verifying against the hash of `p` accepts exactly `p`. |
| Argon.VerifyEmpty | src/auth/utils/check-last-password.util.ts:18-21 | The empty string is not an encoded hash, so verifying against it would throw; this is why the empty check comes first. |
| UserTable.Count | src/user/utils/email-uniqueness.util.ts:16 | `count` is positive exactly when some row satisfies the filter. |
| UserTable.FindBy | src/user/user.service.ts:99-101 | `findUnique` on a unique column finds a row exactly when one holds the key, and the row it returns is that row. |
| Users.CredentialsJson.constructor | src/auth/interfaces/credentials.ts:4-9 | The credentials object read from a record holds the record's version, previous password and both timestamps. |
| UpdateVersion.Bumped | src/user/utils/update-version.util.ts:9-14 | A bump raises the version by exactly one and sets `updatedAt` to now. It leaves `lastPassword` and `passwordUpdatedAt` as they were. |
| UpdateVersion.UpdateVersion | src/user/utils/update-version.util.ts:9-14 | In place: version + 1 and `updatedAt` = now, nothing else changes, and the same object is returned. |
| UpdateVersion.BumpsMonotone | src/user/utils/update-version.util.ts:11 | `n` successive bumps raise the version by exactly `n`, so it never returns to a value an earlier token recorded. |
| UpdateLastPassword.Rotated | src/user/utils/update-last-password.util.ts:10-18 | A password change sets version + 1, `lastPassword` to the given password verbatim, and both timestamps to the same now. |
| UpdateLastPassword.UpdatePassword | src/user/utils/update-last-password.util.ts:10-18 | In place: the object becomes `Rotated` of its old value, and the same object is returned. |
| Cache.Cache.constructor | src/config/cache.config.ts:19-26 | The cache starts empty. |
| Cache.Lookup | src/auth/utils/check-blacklisted-token.util.ts:17 | `get` sees a value exactly when the key holds an entry whose time to live has not run out, and then sees that entry's value. |
| Cache.Cache.Set | src/auth/utils/blacklist-token.util.ts:26-28 | A write replaces the key's entry with the value and an expiry of now + ttl, and changes no other key. A refused write changes nothing and reports an error. |
| BlacklistToken.BlacklistKey | src/auth/utils/blacklist-token.util.ts:27 | The key starts with `blacklist:`. For a user id without `:`, splitting the rest at `:` gives the user id first and then the pieces of the token id. |
| BlacklistToken.BlacklistKeyInjective | src/auth/utils/blacklist-token.util.ts:27 | For user ids without `:`, two tokens share a key `blacklist:<userId>:<tokenId>` exactly when they are the same token. |
| BlacklistToken.BlacklistTtl | src/auth/utils/blacklist-token.util.ts:22-23 | `(exp - now) * 1000` is positive exactly when the current unix second is before `exp`. |
| BlacklistToken.Blacklisted | src/auth/utils/blacklist-token.util.ts:22-28 | With time left, the key holds the current unix second until at least the token's expiry and no other key changes. Without time left, the cache is unchanged. |
| BlacklistToken.BlacklistToken | src/auth/utils/blacklist-token.util.ts:15-30 | Succeeds exactly when there is no time left or the write goes through. On success the cache is `Blacklisted` of the old cache. A refused write is an internal error and changes nothing. |
| BlacklistToken.BlacklistTwice | src/auth/utils/blacklist-token.util.ts:27 | Blacklisting the same token again overwrites the first entry and has the effect of the second call alone. |
| CheckBlacklistedToken.CheckIfTokenIsBlacklisted | src/auth/utils/check-blacklisted-token.util.ts:12-22 | Refuses with Unauthorized "Invalid token" exactly when the token's key holds a live entry; it reads the cache only. |
| CheckBlacklistedToken.BlacklistedIsRefused | src/auth/utils/check-blacklisted-token.util.ts:17-21 | After a blacklist with time left, the check refuses the token for as long as it has not expired, because both use the same key. |
| CheckBlacklistedToken.OtherTokensUnaffected | src/auth/utils/check-blacklisted-token.util.ts:17 | Blacklisting one token leaves the check of every other token as it was. |
| CheckLastPassword.WholeUnits | src/auth/utils/check-last-password.util.ts:35-43 | For an elapsed time that is not negative the count is the number of whole units elapsed (the floor of the quotient). It is positive exactly when at least one whole unit has elapsed, and never positive for a change in the future. |
| CheckLastPassword.Ago | src/auth/utils/check-last-password.util.ts:30-48 | The message is exactly "You changed your password ", the decimal numeral of the count, a space, the unit, an "s" when the count is above one, and " ago". |
| CheckLastPassword.CheckLastPassword | src/auth/utils/check-last-password.util.ts:13-52 | Every path fails. It is "Invalid credentials" exactly when `lastPassword` is empty or does not verify. Every other answer is Unauthorized, except the throw of the hashing library on an unparsable `lastPassword`. |
| CheckLastPassword.MessageCascade | src/auth/utils/check-last-password.util.ts:29-49 | When the last password matches, the refusal names the months when there are any. Otherwise it names the whole days when a day or more has passed, and otherwise the whole hours when an hour or more has passed. Each count is the floor of the elapsed time over the unit. |
| CheckLastPassword.AgoIsNotRecently | src/auth/utils/check-last-password.util.ts:29-51 | A message with a count of units is never the "recently" message. |
| CheckLastPassword.AgoSingular | src/auth/utils/check-last-password.util.ts:29-49 | The singular unit is used exactly for a count of one. |
| CheckLastPassword.RecentlyExactly | src/auth/utils/check-last-password.util.ts:29-51 | For a previous password that verifies, the answer is "recently" exactly when no month and no whole hour has elapsed. |
| CheckLastPassword.PlainLastPasswordThrows | src/auth/utils/check-last-password.util.ts:20 | A `lastPassword` stored as plain text makes the check throw instead of answering. |
| ComparePasswords.ComparePasswords | src/auth/utils/compare-passwords.util.ts:10-17 | Passes exactly when the two passwords are equal, and otherwise fails with BadRequest "Passwords do not match". |
| ComparePasswords.CompareSymmetric | src/auth/utils/compare-passwords.util.ts:14 | The outcome does not depend on the order of the arguments. |
| EmailUniqueness.CheckEmailUniqueness | src/user/utils/email-uniqueness.util.ts:12-21 | Fails with Conflict "Email already in use" exactly when a row has that exact email, compared without normalisation. |
| UsernameUniqueness.CheckUsernameUniqueness | src/user/utils/username-uniqueness.util.ts:12-21 | Fails with Conflict "Username already in use" exactly when a row has that exact username. |
| ThrowBadRequest.ThrowBadRequest | src/jwt/utils/throw-bad-request.util.ts:16-32 | A payload passes through unchanged. An expiry error becomes "Token expired" (checked first), another token error "Invalid token", and anything else an internal error. |
| CommonService.ReplaceNewlines | src/common/common.service.ts:71 | Every newline becomes a space and every other character stays. |
| CommonService.CollapseSpaces | src/common/common.service.ts:72 | No two whitespace characters remain adjacent. The result is empty only for an empty input, and it keeps whether it starts and ends with whitespace. |
| CommonService.CollapseSpec | src/common/common.service.ts:72 | The collapse equals the reference `Collapsed`, defined position by position: a whitespace character that follows another is dropped, and a kept whitespace character becomes a space when whitespace follows it. |
| CommonService.CapitalizeFrom | src/common/common.service.ts:73 | Only word characters change, each to its upper case, and whitespace and word-character positions are kept. |
| CommonService.CapitalizeSpec | src/common/common.service.ts:73 | The scan upper-cases exactly the first word character of each whitespace-separated token, as the reference definition `Capitalized` says. |
| CommonService.FormatName | src/common/common.service.ts:68-74 | The result has no leading or trailing whitespace, no newline, and no two adjacent whitespace characters. |
| CommonService.FormatNameSpec | src/common/common.service.ts:68-74 | The formatted name is exactly the reference capitalisation of the reference collapse of the trimmed title, with its newlines replaced by spaces. |
| CommonService.CollapseIdempotent | src/common/common.service.ts:72 | Collapsing a string with no adjacent whitespace leaves it as it is. |
| CommonService.CapitalizeIdempotent | src/common/common.service.ts:73 | Capitalising twice is capitalising once. |
| CommonService.TrimIdempotent | src/common/common.service.ts:70 | Trimming a string with no leading or trailing whitespace leaves it as it is. |
| CommonService.FormatNameIdempotent | src/common/common.service.ts:68-74 | A formatted name is already formatted. |
| CommonService.ThrowInternalError | src/common/common.service.ts:53-60 | The resolved value passes through, and any rejection becomes an internal server error. |
| CommonService.ThrowDuplicateError | src/common/common.service.ts:32-44 | Code 23505 becomes Conflict with the given message, else "Duplicated value in database". Any other rejection becomes BadRequest with the error's message. A resolved value passes through. |
| CommonService.GenerateMessage | src/common/common.service.ts:93-95 | The reply carries the drawn id and exactly the given text. |
| Text.Split | src/auth/guards/auth.guard.ts:44 | `split` has at least one piece, no piece contains the separator, and joining the pieces gives the input back. |
| Text.Trim | src/user/user.service.ts:41 | The result is a contiguous slice of the input, and everything before and after that slice is whitespace. The result neither starts nor ends with whitespace. |
| Text.LowerCase | src/user/user.service.ts:206 | Each character is mapped to its ASCII lower case, so no upper-case ASCII letter is left. Text with no upper-case letter comes back unchanged. |
| Numerals.FromToDigits | src/auth/utils/check-last-password.util.ts:31 | Reading back the decimal rendering of a number gives the number. |
| Numerals.ParseIntDecimal | src/config/utils/redis-url-parser.util.ts:17 | `parseInt(s, 10)` reads back the decimal rendering of any natural number. |
| RedisUrlParser.Piece | src/config/utils/redis-url-parser.util.ts:11-12 | Indexing past the pieces of a split gives `undefined`. |
| RedisUrlParser.SecondPiece | src/config/utils/redis-url-parser.util.ts:11-12 | `split(sep)[1]` exists exactly when the separator occurs. |
| RedisUrlParser.ParseRedisUrl | src/config/utils/redis-url-parser.util.ts:9-26 | It throws exactly when the URL has `://:` but no `@` after it, or has neither `://:` nor `://`. The throw is the `split` of `undefined`. There is a password exactly when the URL holds `://:`. The password holds no `@` and the host no `:`. |
| RedisUrlParser.HostPortPieces | src/config/utils/redis-url-parser.util.ts:12-17 | `host:port` splits into the host and the decimal port. |
| RedisUrlParser.PasswordRoundTrip | src/config/utils/redis-url-parser.util.ts:10-18 | Parsing `scheme://:password@host:port` gives back the password, host and port. |
| RedisUrlParser.PlainRoundTrip | src/config/utils/redis-url-parser.util.ts:20-25 | Parsing `scheme://host:port` gives back the host and port, with no password. |
| JwtCodec.Sign | src/jwt/utils/generate-token.util.ts:12-26 | `sign` succeeds exactly for a non-empty key, and then yields the token of the claims with `iat` = now and `exp` = `iat` + lifetime. |
| JwtCodec.SignCarries | src/jwt/utils/generate-token.util.ts:18 | A token `sign` yields carries the signing algorithm, the signed claims and the signature for the key that verifies it. |
| JwtCodec.SignedClaims | src/jwt/utils/generate-token.util.ts:18 | The signed claims carry the payload, and their expiry is the issue time plus the lifetime. |
| JwtCodec.Verify | src/jwt/utils/verify-token.util.ts:12-26 | An accepted token is signed for the key, has an accepted algorithm, and has the expected issuer, a matching audience, an unexpired `exp` and an age under the maximum. A rejection is always a token error. |
| JwtCodec.DecodeEncodeClaims | src/jwt/utils/verify-token.util.ts:18 | Decoding the payload segment of a claim set gives the claim set back. |
| JwtCodec.ComposeSegments | src/jwt/utils/generate-token.util.ts:18 | A signed token reads back as its algorithm and claims, carries the signature for its verifying key, and has the JWT shape. |
| JwtCodec.VerifySigned | src/jwt/utils/verify-token.util.ts:18 | While the token lives, verify inverts sign under the matching key and options that accept its algorithm, issuer and audience. |
| JwtCodec.VerifyExpired | src/jwt/utils/verify-token.util.ts:18 | Once its expiry has passed, a token is refused as expired by its own key. |
| JwtCodec.SignedByUnique | src/jwt/utils/verify-token.util.ts:18 | A token carries the signature of at most one verifying key. |
| JwtCodec.VerifyWrongKey | src/jwt/utils/verify-token.util.ts:18 | A token passes verification only with the verifying key of the key that signed it. |
| JwtCodec.VerifyWrongAlgorithm | src/jwt/utils/verify-token.util.ts:18 | A token passes verification only under options that accept its algorithm. |
| JwtCodec.AudienceMatchesItself | src/jwt/jwt.service.ts:113 | The configured domain, used as the audience pattern, matches itself. |
| JwtCodec.IsJwt | src/auth/guards/auth.guard.ts:51 | `isJWT` holds exactly when the text is three URL-safe segments (letters, digits, `_` and `-`) joined by two dots. |
| JwtService.GenerateToken | src/jwt/jwt.service.ts:39-96 | Mints exactly when the category's signing key is non-empty, and otherwise fails with an internal error. The token carries the category's algorithm and payload, issuer = service id, subject = the user's email, audience = the given domain or else the configured one, and expiry = issue time + the category's lifetime. |
| JwtService.GeneratedCarries | src/jwt/jwt.service.ts:45-94 | A minted token is a well-formed token of the category's algorithm carrying the minted claims, signed for the category's verifying key. |
| JwtService.VerifyToken | src/jwt/jwt.service.ts:107-140 | An accepted token is signed for the category's verifying key, uses only its algorithm, and has the configured issuer, a matching audience, a live expiry, an age under the category's lifetime, and a payload of the category's shape. Rejections are "Token expired" or "Invalid token". |
| JwtService.KeysMatch | src/jwt/jwt.service.ts:54-55 | Under a valid configuration each category's verifying key accepts its signing key's signatures. |
| JwtService.VerifyGenerated | src/jwt/jwt.service.ts:39-140 | A minted token verifies as its own category, with the claims it was minted with, while its lifetime lasts. |
| JwtService.GeneratedExpires | src/jwt/jwt.service.ts:117-138 | After its lifetime a minted token is refused as expired. |
| JwtService.CategorySeparation | src/jwt/jwt.service.ts:116-138 | Under a valid configuration a token minted for one category never verifies as another. |
| GenerateAuthTokens.GenerateAuthTokens | src/auth/utils/generate-auth-tokens.util.ts:14-24 | The pair is [access, refresh], minted for the same user, domain and instant. The access token ignores the token id, and the refresh token takes the given one. The call fails when either mint fails. |
| GenerateAuthTokens.AuthTokensVerify | src/auth/utils/generate-auth-tokens.util.ts:20-23 | Both tokens are minted. The first verifies as an access token carrying only the id. The second verifies as a refresh token carrying the id, the version, and the supplied token id (else a fresh one). |
| FindByUsernameOrEmail.FindOneByUsernameOrEmail | src/auth/utils/find-by-username-or-email.util.ts:15-34 | With `@`, fails with "Invalid email" exactly when `isEmail` accepts the input. Without `@`, fails with "Invalid username" exactly when the input is not 3 to 106 characters or fails the slug check. A user it finds is in the table with the normalised email or lower-cased username. |
| FindByUsernameOrEmail.UsernameLookup | src/auth/utils/find-by-username-or-email.util.ts:26-33 | A well-formed username always reaches the table, and finds a user exactly when one has it lower-cased. |
| FindByUsernameOrEmail.EmailLookup | src/auth/utils/find-by-username-or-email.util.ts:19-23 | An input with `@` that `isEmail` rejects is looked up, and finds exactly the user with that normalised email. |
| UserService.NormalizeEmail | src/user/user.service.ts:41 | A normalised email has no upper-case ASCII letter and neither starts nor ends with whitespace. |
| UserService.NormalizeEmailIdempotent | src/user/user.service.ts:100 | Normalising a normalised email changes nothing, so the lookup by email finds the email that creation stored. |
| UserService.Includes | src/user/utils/generate-username.util.ts:21 | The `contains` filter holds exactly when the pattern occurs at some position of the username. The empty pattern therefore matches every username. |
| UserService.GenerateUsername | src/user/utils/generate-username.util.ts:12-31 | A slug no username contains is taken as it is. |
| UserService.InsertKeepsValid | src/user/user.service.ts:45-62 | Inserting under a fresh id with an unused email and username keeps ids, emails and usernames unique. |
| UserService.ReplaceKeepsValid | src/user/user.service.ts:216-219 | Rewriting a row with its own or unused email and username keeps the table's constraints. |
| UserService.OnlySamePasswordAccepted | src/user/user.service.ts:271-280 | As written, a password update passes its checks only when the new password is the current one. |
| UserService.UserService.FindOneById | src/user/user.service.ts:77-87 | Finds a record exactly when the id is in the table, and returns that record. |
| UserService.UserService.FindOneByEmail | src/user/user.service.ts:97-109 | Finds a record exactly when one has the lower-cased, trimmed email. |
| UserService.UserService.FindOnebyCredentials | src/user/user.service.ts:120-138 | Finds a record exactly when both the id and the credentials version match. |
| UserService.UserService.FindOneByUsername | src/user/user.service.ts:150-166 | Finds a record exactly when one has the lower-cased username. |
| UserService.UserService.UncheckedUserByEmail | src/user/user.service.ts:175-183 | The same lookup as `findOneByEmail`. |
| UserService.UserService.Create | src/user/user.service.ts:40-67 | Succeeds exactly when the normalised email is unused, the id is fresh and the generated username is unused. A taken email fails with Conflict and writes nothing. A created user is added under the fresh id with the normalised email, the formatted name, the generated username, the hash of the password, unconfirmed, both timestamps at now, and credentials at version 0 with no previous password. |
| UserService.UserService.Update | src/user/user.service.ts:194-225 | A missing user is the null dereference when a field is given, and "Error updating user" otherwise. A name equal to the stored one is "Name must be different". A lower-cased username equal to the stored one is "Username should be different", and one another user has is the Conflict "Username already in use". Otherwise it succeeds. On success only the name (formatted) and the username (lower-cased) change, and a failure writes nothing. |
| UserService.UserService.UpdateEmail | src/user/user.service.ts:236-258 | A missing user is the null dereference. An unparsable hash is the hashing library's error, and a password that does not verify is "Invalid password". A taken normalised email is the Conflict "Email already in use". Otherwise it succeeds. On success that email is stored and the version goes up by exactly one, and a failure writes nothing. |
| UserService.UserService.UpdatePassword | src/user/user.service.ts:268-290 | Fails when the current password does not verify, with argon's throw when the stored hash is malformed, and also when the new one does not verify against the current hash. It succeeds whenever the user exists and both verify. On success the password becomes the new hash and the credentials are rotated. A failure writes nothing. |
| UserService.UserService.ResetPassword | src/user/user.service.ts:302-319 | Succeeds exactly when id and version match, and otherwise fails with "Invalid credentials" and writes nothing. On success the password is the new hash and the version becomes the token's version + 1. |
| AuthGuard.Request.constructor | src/auth/guards/auth.guard.ts:39 | A request starts with its header and no user. |
| AuthGuard.BearerToken | src/auth/guards/auth.guard.ts:39-53 | A token is presented only by a non-empty header that starts with exactly `Bearer`, a space and the token. The token is the second space-separated word: the header ends after it or continues with a space. The token has the JWT shape. |
| AuthGuard.BearerHeader | src/auth/guards/auth.guard.ts:44-53 | `Bearer <token>`, alone or followed by a space and more words, presents exactly the token, for any token of the JWT shape. |
| AuthGuard.BearerTokenExactly | src/auth/guards/auth.guard.ts:39-53 | Both directions: a header presents a token exactly when the token has the JWT shape and the header is `Bearer`, a space and the token, optionally followed by a space and more words. Any other first word gives no token. |
| AuthGuard.Authenticated | src/auth/guards/auth.guard.ts:55-61 | A user is authenticated exactly when the presented token verifies as an access token, and is that token's id. |
| AuthGuard.SetHttpHeader | src/auth/guards/auth.guard.ts:35-62 | A verified access token sets `req.user` to its id and activates. In every other case the answer is `isPublic` and the request is untouched. |
| AuthGuard.CanActivate | src/auth/guards/auth.guard.ts:20-33 | Returns true or fails with Unauthorized, never false. It passes exactly when the endpoint is public or the request is authenticated. |
| AuthGuard.MintedAccessTokenActivates | src/auth/guards/auth.guard.ts:44-58 | A freshly minted access token sent as `Bearer <token>` authenticates its user while it lives. |
| Mappers.MapAuthResponseUser | src/auth/mappers/auth-response-user.mapper.ts:16-25 | id, name, username and email are copied, and both dates are their ISO strings. |
| Mappers.MapAuthResponse | src/auth/mappers/auth-response.mapper.ts:12-17 | The body is the projected user and the access token. |
| Mappers.MapResponseUser | src/user/mappers/response-user.mapper.ts:49-57 | id, name and username are copied, and both dates are their ISO strings. |
| Mappers.SecretsNeverExposed | src/auth/mappers/auth-response-user.mapper.ts:17-24 | The password hash, the confirmed flag and the credentials never reach either projection. |
| Mappers.EmailNotPublic | src/user/mappers/response-user.mapper.ts:50-56 | The public projection does not depend on the email. |
| Mappers.RefreshTokenNeverExposed | src/auth/mappers/auth-response.mapper.ts:13-16 | The response body does not depend on the refresh token. |
| Mappers.PublicIsOwnerWithoutEmail | src/user/mappers/response-user.mapper.ts:49-57 | The public projection is the owner's projection without the email. |
| IsoDate.YearStep | src/auth/mappers/auth-response-user.mapper.ts:22-23 | Gregorian years: each year is as long as its leap rule says. |
| IsoDate.CivilOf | src/auth/mappers/auth-response-user.mapper.ts:22-23 | The calendar date of a day number is a valid date whose own day number it is. |
| IsoDate.CivilOfDayNumber | src/auth/mappers/auth-response-user.mapper.ts:22-23 | Every valid date is the date of its own day number. |
| IsoDate.FieldsOf | src/auth/mappers/auth-response-user.mapper.ts:22-23 | A time value splits into a valid date and in-range hours, minutes, seconds and milliseconds that rebuild it. |
| IsoDate.FieldsOfTimeValue | src/auth/mappers/auth-response-user.mapper.ts:22-23 | Every valid set of fields is read back from its own time value. |
| IsoDate.FromFixedDecimal | src/auth/mappers/auth-response-user.mapper.ts:22-23 | A fixed-width zero-padded field reads back as its number. |
| IsoDate.YearString | src/auth/mappers/auth-response-user.mapper.ts:22-23 | The year has four digits in 0 to 9999, and otherwise a sign and six digits. |
| IsoDate.YearsOfDates | src/user/mappers/response-user.mapper.ts:54-55 | Every date a `Date` can hold falls in the years -271821 to 275760, so six digits always suffice. |
| IsoDate.IsoString | src/user/mappers/response-user.mapper.ts:54-55 | `toISOString` has 24 characters for years 0 to 9999 and 27 otherwise, with its separators at fixed places from the end. |
| AuthService.SignUpFailure | src/auth/auth.service.ts:71-76 | Code P2002 becomes Unauthorized "Email already in use", and anything else "Registration failed". |
| AuthService.HttpErrorsFailRegistration | src/auth/auth.service.ts:71-76 | HTTP errors (a taken email included) have no code, so they all become "Registration failed". |
| AuthService.OneHashOnePassword | src/auth/auth.service.ts:221-229 | Two passwords that verify against one stored hash are equal. |
| AuthService.AuthService.constructor | src/auth/auth.service.ts:38-46 | The service starts with its collaborators and an empty outbox. |
| AuthService.AuthService.SignUp | src/auth/auth.service.ts:57-77 | Mismatched passwords fail before any write. A taken email fails and writes nothing. Every failure is "Passwords do not match" or "Registration failed" and mails nothing. It succeeds whenever the passwords match, the email, id and generated username are unused and the confirmation key is set. At most the one new user is added. Success is the message, with exactly one confirmation mail for the new unconfirmed user. |
| AuthService.AuthService.Register | src/auth/auth.service.ts:60-76 | The `try` block of `signUp`. Every failure is "Registration failed" and mails nothing. A taken email fails and writes nothing. It succeeds whenever the email, id and generated username are unused and the confirmation key is set. Success adds exactly the new unconfirmed user and one confirmation mail for that user. |
| AuthService.AuthService.MailConfirmation | src/auth/auth.service.ts:62-67 | The confirmation mint shared by `signUp` and `signIn` (also lines 100-105). It succeeds exactly when the confirmation key is set. Success adds one mail carrying that user's confirmation token. A failure is the mint's error and mails nothing. |
| AuthService.AuthService.SignIn | src/auth/auth.service.ts:89-119 | Lookup errors and a missing user fail as they are. A malformed stored hash fails with argon's throw. A password that fails is answered by `checkLastPassword`. An unconfirmed user whose password verifies is refused with "Please confirm your email…", and when the confirmation key is set exactly one confirmation mail for that user is added. A confirmed user whose password verifies gets tokens whenever both signing keys are set. Tokens are returned only for such a user, and they are that user's `generateAuthTokens` pair. |
| AuthService.AuthService.RefreshToken | src/auth/auth.service.ts:129-144 | A token that fails verification or is blacklisted is refused before any lookup. It succeeds whenever the token verifies, is not blacklisted, its user still has its version and both keys are set. Success requires the stored version to equal the token's, and mints the new pair with the same token id. |
| AuthService.AuthService.Logout | src/auth/auth.service.ts:153-167 | Succeeds exactly when the refresh token verifies and the write goes through. It blacklists that token until it expires, and a failure changes nothing. |
| AuthService.AuthService.ResetPasswordEmail | src/auth/auth.service.ts:177-188 | The reply is the same whether or not the email exists. A reset mail is sent exactly when it does. |
| AuthService.AuthService.ResetPassword | src/auth/auth.service.ts:197-207 | Token errors and password mismatch fail and write nothing. It succeeds whenever the token verifies, the passwords match and the user still has the token's version. Only that user changes: their password becomes the new hash and the reset token's version no longer matches. |
| AuthService.AuthService.ChangePasssword | src/auth/auth.service.ts:217-235 | Mismatched passwords fail before any write. It succeeds whenever the passwords match, the user exists, the old and the new password both verify and both keys are set. Success means the new password equals the old one, and the user gets the new hash, version + 1 and a fresh token pair. |
| AuthService.RefreshAfterLogoutRefused | src/auth/auth.service.ts:135-167 | After a logout the same refresh token is refused at every later time. |
| AuthService.RefreshKeepsTokenId | src/auth/auth.service.ts:137-142 | The new refresh token verifies with the same user id and token id as the presented one. |
| AuthService.StaleVersionRefused | src/auth/auth.service.ts:136 | A refresh token bound to a version the user no longer has is refused. |

## Code versus documentation

The model follows the code where it disagrees with its own doc comments, or where two
parts of the code disagree with each other:

- `updatePassword` (src/user/user.service.ts:275) refuses a new password that does *not*
  verify against the current hash, although its doc comment says it refuses one that is
  the same. `UserService.OnlySamePasswordAccepted` and `AuthService.ChangePasssword` show
  the consequence: only the current password can be set again.
- `findOneByUsernameorEmail` (src/auth/utils/find-by-username-or-email.util.ts:20) refuses
  an input that *is* a valid email and looks up any other input with an `@`.
- `updatePassword` (src/user/utils/update-last-password.util.ts:14) stores the new password
  in plain text as `lastPassword`. `checkLastPassword`
  (src/auth/utils/check-last-password.util.ts:20) treats that string as a hash, so the
  hashing library throws on it (`CheckLastPassword.PlainLastPasswordThrows`).
- The `P2002` branch of `signUp` (src/auth/auth.service.ts:72-74) cannot be reached. A taken
  email is a Conflict exception, which has no code, so it ends as BadRequest
  "Registration failed" (`AuthService.HttpErrorsFailRegistration`), not as a conflict.
- The `confirm-email` route (src/auth/auth.controller.ts:106-113) calls
  `authService.confirmEmail`, but src/auth/auth.service.ts defines no such method. There
  is nothing to model behind the route.

## Left out

- Cryptography: argon2 salts and parameters, HMAC and RSA signatures, and base64url
  encoding. Both hashing and token signing are injective stand-ins, so the model proves
  what the services rely on, not the strength of the primitives.
- JwtCodec.AudienceMatches: the audience pattern is `new RegExp(domain)`. The model treats
  `.` as any character and every other pattern character literally; other
  regular-expression syntax is not modelled.
- `verifyToken` additionally refuses a payload of another category's shape as "Invalid
  token". The library itself would return any payload, but the services only ever sign the
  three payload shapes of their categories.
- The clock, uuids, dayjs's calendar month difference, the slugify library and the
  validators `isEmail` and `SLUG_REGEX` (src/common/consts/regex.const.ts is not part of
  this model) are parameters, not computations.
- `CommonService.generatePointSlug` (src/common/common.service.ts:83-85): it is the
  slugify library, whose result enters as the `pointSlug` parameter.
- `UserService.remove` (src/user/user.service.ts:328-340): deleting a user is outside the
  session lifecycle.
- The mailer: mails are recorded in `AuthService.outbox` instead of sent. Their
  fire-and-forget failures are not modelled.
- Concurrency: the two mints of `generateAuthTokens` run under `Promise.all`, and
  concurrent requests interleave. The model runs each operation to completion, access
  token first.
- Database failures other than the ones the code produces itself are not modelled: a lost
  connection, a failed write in `update`, `updateEmail`, `updatePassword` or
  `resetPassword`, or a failed cache read. Prisma's `findUnique` returns `null` rather
  than throwing, so the `P2025` branches of the lookups are unreachable and not
  modelled. A `null` record that the code then dereferences is the `NullUser` crash.
- The database's own automatic update of `updatedAt` on the user record is not modelled.
  Only the credentials' `updatedAt` is.
- Configuration loading (src/config) other than the Redis URL parser, the controllers,
  cookies and throttling are not modelled.
- Mappers.MapAuthResponseUser: requires the stored dates to be ones a JavaScript `Date`
  can hold (`DatesInRange`), since `toISOString` throws a RangeError otherwise and the
  database never returns such dates.
- IsoDate.IsoString: states the layout, the length and the year range of the rendering
  (with the field round trip in `IsoDate.FieldsOfTimeValue`), not a parser that reads the
  string back.
- Text.LowerCase: lower-cases ASCII letters only, where the code calls
  `toLocaleLowerCase` (src/user/user.service.ts:41, 100, 153, 206, 245). Non-ASCII letters
  in emails and usernames are kept as they are, and the server locale is not modelled.
- FindByUsernameOrEmail.FindOneByUsernameOrEmail: the 3 to 106 length bounds
  (src/auth/utils/find-by-username-or-email.util.ts:27-28) count characters of a Dafny
  string. The code counts UTF-16 code units, so the two differ for text outside the Basic
  Multilingual Plane.
- CheckLastPassword.WholeUnits: divides the elapsed milliseconds by the length of the unit.
  The `dayjs().diff` call (src/auth/utils/check-last-password.util.ts:35) also corrects
  for a change of UTC offset between the two instants, and the model does not.
- CommonService.ThrowInternalError, CommonService.ThrowDuplicateError: the logger calls
  before each throw are dropped. Logging has no effect on the reply.
- UserService.GenerateUsername: states only that an unused slug is taken as it is. A slug
  with a count appended can still clash with an existing username; `Create` then refuses
  the insert as "Error creating user".
