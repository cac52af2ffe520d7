/** Failure-carrying values used across the model: an optional value (a
    JavaScript `undefined`/`null` or a missing field) and a result that is
    either a value or the error a JavaScript `throw` would raise. */
module Wrappers {

  datatype Option<+T> = None | Some(value: T)

  datatype Result<+T, +E> = Success(value: T) | Failure(error: E)
}
