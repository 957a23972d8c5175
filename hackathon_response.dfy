/**
 * The HTTP-style responses that the manager and the guards return
 * (the helpers `ok`, `bad_request`, `unauthorized`, `access_denied` and
 * `internal_server_error`), each carrying its message.
 */
module HackathonResponse {

  datatype Response =
    | Ok(message: string)
    | BadRequest(message: string)
    | Unauthorized(message: string)
    | AccessDenied(message: string)
    | InternalServerError(message: string)

  /**
   * What a Python call ends with: a returned value, or an exception that
   * nothing in the called code catches (it reaches the web framework).
   */
  datatype Outcome<+T> = Returned(value: T) | Raised(exception: string)
}
