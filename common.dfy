/** Result and error types shared by the repositories and services of the
    challenge backend. */
module Common {

  datatype Option<+T> = None | Some(value: T)

  /** The failures the services report. The first five are the
      application's own exceptions (HTTP 404, 409, 403, 401, 400). Internal
      is everything the error handler answers with HTTP 500: a database
      error (an update or delete of a missing record, a unique-key
      violation, a negative skip or take) and a JavaScript runtime error. */
  datatype Error =
    | NotFound
    | Conflict
    | Forbidden
    | Unauthorized
    | BadRequest
    | Internal

  datatype Result<+T> = Ok(value: T) | Err(error: Error)

  datatype Outcome = Pass | Fail(error: Error)

  /** User roles as carried by the authentication token. */
  datatype Role = Normal | Pro | Admin
}
