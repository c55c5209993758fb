/** Failure-carrying values used throughout the model in place of the
    source's exceptions and optional (`undefined`) fields. */
module Wrappers {

  datatype Option<+T> = None | Some(value: T)

  datatype Result<+T, +E> = Success(value: T) | Failure(error: E)
}
