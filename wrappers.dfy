/** Failure-compatible wrappers used throughout the model. */
module Wrappers {
  /** A value that may be missing: Python's `None`, or a pandas NaN cell. */
  datatype Option<+T> = None | Some(value: T)

  /** The outcome of an operation that may raise. */
  datatype Result<+R, +E> = Success(value: R) | Failure(error: E)
}
