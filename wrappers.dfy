/** Failure-carrying datatypes shared by every module of the model. */
module Wrappers {

  /** A value that may be absent: Python's `Optional[...]` / `None`. */
  datatype Option<+T> = None | Some(value: T)

  /** The outcome of an operation that can fail with an error value. */
  datatype Result<+T, +E> = Success(value: T) | Failure(error: E)
}

/** The error outcomes the service reports, with the HTTP status each one maps to. */
module Errors {

  datatype Error =
    | NotFound          // HTTPException(404): the addressed question or answer does not exist
    | ValidationError   // request validation failed (a query parameter or a body field): 422
    | InternalError     // an exception escaped a handler: 500

  function StatusCode(e: Error): (code: int)
    ensures 400 <= code < 600
    ensures code == 404 <==> e == NotFound
    ensures code == 422 <==> e == ValidationError
  {
    match e
    case NotFound => 404
    case ValidationError => 422
    case InternalError => 500
  }
}
