/** Option and Result values: the JavaScript `null`/`undefined` results and the
    error replies of the handlers. */
module Wrappers {

  datatype Option<+T> = None | Some(value: T)

  datatype Result<+T, +E> = Ok(value: T) | Err(error: E)

  /** The error reply of an HTTP handler: the status code and the message. */
  datatype HttpError = HttpError(code: int, message: string)
}
