/**
 * The errors the services raise. NestJS `HttpException`s carry an HTTP status and a
 * message; errors thrown by the database driver carry a `code`; anything else (a
 * TypeError on a null record, a hash the hashing library cannot parse) is an uncaught
 * runtime error that the framework answers with status 500.
 */
module Errors {

  datatype Status = BadRequest | Unauthorized | NotFound | Conflict | InternalServerError

  datatype Failure =
    | Http(status: Status, message: string)
    | DbError(code: string, text: string)
    | Crash(reason: string)
  {
    /** The `error.code` property that `catch` blocks test; only driver errors have one. */
    function Code(): string {
      if DbError? then code else ""
    }

    /** The `error.message` property. */
    function Message(): string {
      match this
      case Http(_, m) => m
      case DbError(_, m) => m
      case Crash(m) => m
    }
  }

  /** `new InternalServerErrorException(error)`. */
  const InternalError: Failure := Http(InternalServerError, "Internal Server Error")

  /** Dereferencing a `null` user record. */
  const NullUser: Failure := Crash("TypeError: cannot read properties of null")

  /** The refusal both a failed sign-in and a stale reset token end in. */
  const InvalidCredentials: Failure := Http(Unauthorized, "Invalid credentials")
}
