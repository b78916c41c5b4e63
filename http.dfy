/**
 HTTP outcomes of the request handlers. A handler either returns its response body or fails
 with an `HTTPException`, modelled as `Err(Error(status, detail, wwwAuthenticate))`.
 */
module Http {
  import opened Wrappers

  const BadRequest: nat := 400
  const Unauthorized: nat := 401
  const Forbidden: nat := 403
  const NotFound: nat := 404
  const Conflict: nat := 409
  const InternalServerError: nat := 500

  /** The value of the `WWW-Authenticate` header sent with every 401 (RFC 6750, section 3). */
  const BearerScheme := "Bearer"

  /** An error response: status code, `detail` message and an optional `WWW-Authenticate` header. */
  datatype Error = Error(status: nat, detail: string, wwwAuthenticate: Option<string>)

  datatype Result<+T> = Ok(value: T) | Err(error: Error)

  /** An error response without headers. */
  function Failure(status: nat, detail: string): Error {
    Error(status, detail, None)
  }

  /** A 401 response carrying the `WWW-Authenticate: Bearer` challenge. */
  function BearerChallenge(detail: string): Error {
    Error(Unauthorized, detail, Some(BearerScheme))
  }

  /**
   A store error the handler does not catch (an `sqlite3.IntegrityError` raised outside a
   `try`): the framework answers with a generic server error, and because `commit` was never
   reached the request's writes are rolled back.
   */
  const StoreFailure: Error := Failure(InternalServerError, "Internal Server Error")
}
