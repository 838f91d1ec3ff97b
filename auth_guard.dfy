/**
 * `AuthGuard`: the decision whether a request may reach its handler, from its
 * `Authorization` header (the Bearer scheme of section 2.1 of RFC 6750) and from whether
 * the endpoint is public; an accepted access token also records its user on the request.
 */
module AuthGuard {
  import opened Wrappers
  import opened Errors
  import opened Text
  import opened JwtCodec
  import opened JwtService

  /** The part of an incoming request the guard reads and writes. */
  class Request {
    /** `req.headers?.authorization`. */
    const authorization: Option<string>
    /** `req.user`: the id of the authenticated user, once the guard sets it. */
    var user: Option<string>

    constructor (authorization: Option<string>)
      ensures this.authorization == authorization && user == None
    {
      this.authorization := authorization;
      user := None;
    }
  }

  const BearerScheme: string := "Bearer"

  /**
   * The token a header presents: the header is present and not empty, its first
   * space-separated word is exactly `Bearer`, and its second word exists and has the
   * shape of a JSON Web Token. Any further words are ignored.
   */
  function BearerToken(authorization: Option<string>): (r: Option<string>)
    ensures r.Some? ==> IsJwt(r.value)
    ensures r.Some? ==> authorization.Some? && 0 < |authorization.value|
    ensures r.Some? ==> (authorization.value == BearerScheme + " " + r.value
                         || BearerScheme + " " + r.value + " " <= authorization.value)
  {
    match authorization
    case None => None
    case Some(auth) =>
      if |auth| == 0 then None
      else
        var words := Split(auth, " ");
        if words[0] != BearerScheme then None
        else if |words| < 2 || !IsJwt(words[1]) then None
        else
          SecondWord(auth, words);
          Some(words[1])
  }

  /**
   * A header that splits on spaces into at least two words is the first word, a space and
   * the second word, followed by nothing or by a space and the remaining words.
   */
  lemma {:induction false} SecondWord(auth: string, words: seq<string>)
    requires words == Split(auth, " ") && 2 <= |words|
    ensures auth == words[0] + " " + words[1] || words[0] + " " + words[1] + " " <= auth
  {
    JoinTwo(words, " ");
  }

  /** Joining at least two parts gives the first two and the separator, then nothing or the separator again. */
  lemma {:induction false} JoinTwo(parts: seq<string>, sep: string)
    requires 2 <= |parts|
    ensures Join(parts, sep) == parts[0] + sep + parts[1]
         || parts[0] + sep + parts[1] + sep <= Join(parts, sep)
  {
    var tail := parts[1..];
    assert Join(parts, sep) == parts[0] + sep + Join(tail, sep);
    if |tail| > 1 {
      assert Join(tail, sep) == parts[1] + sep + Join(tail[1..], sep);
      assert Join(parts, sep) == (parts[0] + sep + parts[1] + sep) + Join(tail[1..], sep);
    }
  }

  /** The user an access token authenticates at `nowMs`, if the header carries one that verifies. */
  function Authenticated(s: JwtSettings, authorization: Option<string>, nowMs: nat): (r: Option<string>)
    ensures r.Some? ==> (
      && BearerToken(authorization).Some?
      && VerifyToken(s, BearerToken(authorization).value, Access, nowMs).Ok?
      && r.value == VerifyToken(s, BearerToken(authorization).value, Access, nowMs).value.payload.id)
    ensures BearerToken(authorization).Some? && VerifyToken(s, BearerToken(authorization).value, Access, nowMs).Ok?
      ==> r.Some?
  {
    match BearerToken(authorization)
    case None => None
    case Some(token) =>
      match VerifyToken(s, token, Access, nowMs)
      case Ok(claims) => Some(claims.payload.id)
      case Err(_) => None
  }

  /**
   * `setHttpHeader(req, isPublic)` at `nowMs`: an access token that verifies records its
   * user on the request and lets the request through; in every other case (no header, an
   * empty one, another scheme, no token, a token of the wrong shape or one that fails
   * verification) the request passes exactly when the endpoint is public, untouched.
   */
  method SetHttpHeader(s: JwtSettings, req: Request, isPublic: bool, nowMs: nat) returns (activate: bool)
    modifies req
    ensures Authenticated(s, req.authorization, nowMs).Some? ==>
      activate && req.user == Authenticated(s, req.authorization, nowMs)
    ensures Authenticated(s, req.authorization, nowMs).None? ==>
      activate == isPublic && req.user == old(req.user)
  {
    var token := BearerToken(req.authorization);
    if token.None? {
      return isPublic;
    }
    var verified := VerifyToken(s, token.value, Access, nowMs);
    if verified.Err? {
      return isPublic;
    }
    req.user := Some(verified.value.payload.id);
    return true;
  }

  const Unauthenticated: Failure := Http(Unauthorized, "Unauthorized")

  /**
   * `canActivate(context)`: lets the request through, or refuses it as unauthorized; it
   * never answers `false`.
   */
  method CanActivate(s: JwtSettings, req: Request, isPublic: bool, nowMs: nat) returns (r: Result<bool, Failure>)
    modifies req
    ensures r.Ok? ==> r.value
    ensures r.Err? ==> r.error == Unauthenticated
    ensures r.Ok? <==> isPublic || Authenticated(s, req.authorization, nowMs).Some?
    ensures Authenticated(s, req.authorization, nowMs).Some? ==> req.user == Authenticated(s, req.authorization, nowMs)
    ensures Authenticated(s, req.authorization, nowMs).None? ==> req.user == old(req.user)
  {
    var activate := SetHttpHeader(s, req, isPublic, nowMs);
    if !activate {
      return Err(Unauthenticated);
    }
    return Ok(activate);
  }

  /** A token has no space in it, since every character of its segments is URL-safe. */
  lemma JwtHasNoSpace(token: string)
    requires IsJwt(token)
    ensures ' ' !in token
  {
    var parts := Split(token, ".");
    forall k, i | 0 <= k < |parts| && 0 <= i < |parts[k]| ensures NotSpace(parts[k][i]) {
      assert IsUrlSafe(parts[k]);
    }
    JoinChars(parts, ".", NotSpace);
    assert forall i :: 0 <= i < |token| ==> NotSpace(token[i]);
  }

  predicate NotSpace(c: char) {
    c != ' '
  }

  /**
   * `Bearer <token>`, alone or followed by a space and further words, presents exactly the
   * token, for any token of the right shape.
   */
  lemma BearerHeader(token: string, rest: string)
    requires IsJwt(token)
    requires rest == [] || rest[0] == ' '
    ensures BearerToken(Some(BearerScheme + " " + token + rest)) == Some(token)
  {
    JwtHasNoSpace(token);
    var auth := BearerScheme + " " + token + rest;
    if rest == [] {
      assert auth == BearerScheme + " " + token;
      SplitAt(BearerScheme, " ", token);
      SplitWhole(token, " ");
    } else {
      var more := rest[1..];
      assert auth == BearerScheme + " " + (token + " " + more);
      SplitAt(BearerScheme, " ", token + " " + more);
      SplitAt(token, " ", more);
    }
  }

  /**
   * The header decision in both directions: a header presents `token` exactly when it is
   * `Bearer`, a space and that JSON Web Token, optionally followed by a space and more words.
   */
  lemma BearerTokenExactly(auth: string, token: string)
    ensures BearerToken(Some(auth)) == Some(token) <==>
      IsJwt(token) && (auth == BearerScheme + " " + token || BearerScheme + " " + token + " " <= auth)
  {
    var head := BearerScheme + " " + token;
    if IsJwt(token) && (auth == head || head + " " <= auth) {
      var rest := auth[|head|..];
      assert auth == head + rest;
      assert rest == [] || rest[0] == ' ';
      BearerHeader(token, rest);
    }
  }

  /**
   * A request carrying a freshly minted access token as `Bearer <token>` is let through on
   * any endpoint, as that token's user, while the access lifetime lasts.
   */
  lemma MintedAccessTokenActivates(s: JwtSettings, user: Users.User, domain: Option<string>, nowMs: nat, laterMs: nat)
    requires Valid(s)
    requires domain.None? || AudienceMatches(s.domain, domain.value)
    requires laterMs / 1000 < nowMs / 1000 + TimeOf(s, Access)
    ensures GenerateToken(s, user, Access, domain, None, "", nowMs).Ok?
    ensures Authenticated(s, Some(BearerScheme + " " + GenerateToken(s, user, Access, domain, None, "", nowMs).value), laterMs)
         == Some(user.id)
  {
    VerifyGenerated(s, user, Access, domain, None, "", nowMs, laterMs);
    GeneratedCarries(s, user, Access, domain, None, "", nowMs);
    var token := GenerateToken(s, user, Access, domain, None, "", nowMs).value;
    BearerHeader(token, "");
    assert BearerScheme + " " + token + "" == BearerScheme + " " + token;
  }
}
