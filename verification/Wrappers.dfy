/** The result types that stand for Python's `None` and for its exceptions. */
module Wrappers {

  datatype Option<+T> = None | Some(value: T)

  /** A value, or the exception that was raised instead of returning one. */
  datatype Result<+T, +E> = Success(value: T) | Failure(error: E)
}
