/** Failure-carrying values used throughout the model: `Option` for a lookup
    that may find nothing, `Result` for an operation that returns Go's
    `(value, error)` pair. */
module Wrappers {

  datatype Option<+T> = None | Some(value: T)

  datatype Result<+R, +E> = Success(value: R) | Failure(error: E)
}
