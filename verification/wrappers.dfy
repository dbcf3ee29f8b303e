/** Failure-carrying result types shared by the codec modules. */
module Wrappers {

  /** Python's `Optional[...]`: a value, or `None`. */
  datatype Option<+T> = None | Some(value: T)

  /** A value, or the exception that a Python call would raise instead. */
  datatype Result<+T, +E> = Success(value: T) | Failure(error: E)
}
