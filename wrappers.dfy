/** Option and the outcome of a request handler: a value, or the kind of
    error response the handler sends back. */
module Wrappers {

  datatype Option<+T> = None | Some(value: T) {
    function GetOr(default: T): T {
      match this
      case Some(v) => v
      case None => default
    }
  }

  /** The error responses the controllers send: 400, 401, 403, 404 and the
      500 that every caught exception turns into. */
  datatype Failure = Invalid | Unauthorized | Forbidden | NotFound | ServerError

  datatype Outcome<+T> = Ok(value: T) | Fail(error: Failure)
}
