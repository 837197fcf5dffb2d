/** The response envelope the handlers send: a status code with either a
    payload (`success: true`) or an error message (`success: false`). */
module Http {

  /** The error responses the core produces, by status code. */
  datatype HttpError =
    | BadRequest(message: string)    // 400
    | Unauthorized(message: string)  // 401
    | Forbidden(message: string)     // 403
    | NotFound(message: string)      // 404
    | ServerError(message: string)   // 500
  {
    function Code(): int {
      match this
      case BadRequest(_) => 400
      case Unauthorized(_) => 401
      case Forbidden(_) => 403
      case NotFound(_) => 404
      case ServerError(_) => 500
    }
  }

  const OK: int := 200
  const CREATED: int := 201

  /** A handler's response: `Ok(code, payload)` or `Err(error)`. */
  datatype Result<+T> = Ok(code: int, value: T) | Err(error: HttpError)

  /** The message the data store reports when a `.single()` query finds no row. */
  const NO_ROW: string := "JSON object requested, multiple (or no) rows returned"

  /** The message the data store reports when a counted query asks for a
      range that starts past the last row. */
  const RANGE_NOT_SATISFIABLE: string := "Requested range not satisfiable"
}
