/** Failure-carrying values used throughout the model. */
module Wrappers {

  /** A value that may be absent; models a JavaScript property that may be `undefined`. */
  datatype Option<+T> = None | Some(value: T)

  /** The outcome of an operation that either yields a value or fails (a rejected promise or a thrown error). */
  datatype Result<+T, +E> = Success(value: T) | Failure(error: E)
}
