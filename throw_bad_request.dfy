/** `throwBadRequest`: how a token verification's rejection reaches the client. */
module ThrowBadRequest {
  import opened Wrappers
  import opened Errors
  import opened JwtCodec

  /**
   * An expired token (checked first, since the library's expiry error is a kind of its
   * token error) is a bad request "Token expired"; any other token error a bad request
   * "Invalid token"; anything else an internal error. A verified payload passes through.
   */
  function ThrowBadRequest<T>(promise: Result<T, VerifyError>): (r: Result<T, Failure>)
    ensures promise.Ok? <==> r.Ok?
    ensures promise.Ok? ==> r.value == promise.value
    ensures promise.Err? && promise.error.TokenExpiredError? ==> r.error == Http(BadRequest, "Token expired")
    ensures promise.Err? && promise.error.JsonWebTokenError? ==> r.error == Http(BadRequest, "Invalid token")
    ensures promise.Err? && promise.error.OtherError? ==> r.error == InternalError
  {
    match promise
    case Ok(v) => Ok(v)
    case Err(TokenExpiredError(_)) => Err(Http(BadRequest, "Token expired"))
    case Err(JsonWebTokenError(_)) => Err(Http(BadRequest, "Invalid token"))
    case Err(OtherError(_)) => Err(InternalError)
  }
}
