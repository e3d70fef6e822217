/** Failure-compatible result types shared by the rest of the model. */
module Wrappers {

  /** A value that may be absent: Python's `None` / JavaScript's `undefined`. */
  datatype Option<+T> = None | Some(value: T)

  /** The outcome of an operation that may raise. */
  datatype Result<+T, +E> = Success(value: T) | Failure(error: E)
}
