/** Failure-compatible wrappers shared by the model. */
module Wrappers {

  /** A value that may be missing (a cell that pandas reads as NaN or as a non-string). */
  datatype Option<+T> = None | Some(value: T)

  /** The outcome of an operation that can raise. */
  datatype Result<+T, +E> = Success(value: T) | Failure(error: E)

  /** Python's `KeyError`, carrying the key that was missing. */
  datatype KeyError = KeyError(key: int)
}
