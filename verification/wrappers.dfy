/** Result types shared by the server and client models,
    and the HTTP status codes the server answers with. */
module Wrappers {

  /** A value that may be absent (JavaScript `undefined`/`null`). */
  datatype Option<+T> = None | Some(value: T)

  /** The answer of a route handler: a success status with a body, or an
      error status with no body of interest. */
  datatype Reply<+T> = Ok(code: int, value: T) | Err(code: int)

  /** The answer of a middleware: continue with `next()`, or stop with a status. */
  datatype Outcome = Pass | Fail(code: int)

  const StatusOk: int := 200
  const StatusCreated: int := 201
  const StatusUnauthorized: int := 401
  const StatusForbidden: int := 403
  /** Raised by the database (for instance a foreign-key violation) and
      surfaced by the handlers' catch blocks. */
  const StatusServerError: int := 500
}
