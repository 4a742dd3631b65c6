/** Failure-compatible wrappers shared by every module of the model.
    `Option` stands for a JavaScript value that may be `undefined`/`null`;
    `Result` stands for a service call that either returns or throws an
    `ApiError` (an HTTP status and a message). */
module Wrappers {

  datatype Option<+T> = None | Some(value: T) {
    function GetOr(default: T): T {
      match this
      case Some(v) => v
      case None => default
    }
  }

  datatype Result<+T, +E> = Ok(value: T) | Err(error: E) {
    predicate IsFailure() {
      Err?
    }

    function PropagateFailure<U>(): Result<U, E>
      requires Err?
    {
      Err(error)
    }

    function Extract(): T
      requires Ok?
    {
      value
    }
  }

  /** The `ApiError` class of the backend: a status code and a message. */
  datatype ApiError = ApiError(status: nat, message: string)

  /** `Result` specialised to the backend's thrown `ApiError`. */
  type Outcome<T> = Result<T, ApiError>
}
