/** Failure-carrying datatypes standing in for Python's `None` and raised exceptions. */
module Wrappers {

  /** A value that may be absent, as Python's `None`. */
  datatype Option<+T> = None | Some(value: T)

  /** Either a computed value or the exception a Python call would raise. */
  datatype Result<+T, +E> = Success(value: T) | Failure(error: E)
}
