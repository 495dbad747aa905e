/** Failure-carrying values used throughout the model in place of JavaScript's
    `null` returns and thrown exceptions. */
module Wrappers {

  datatype Option<T> = None | Some(value: T)

  datatype Result<T, E> = Success(value: T) | Failure(error: E)
}
