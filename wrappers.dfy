/** Python's `None` and raised exceptions, as values. */
module Wrappers {

  /** A value that may be Python's `None`. */
  datatype Option<+T> = None | Some(value: T)

  /** A computation that returns a value or raises. */
  datatype Result<+T, +E> = Success(value: T) | Failure(error: E)

  /** A computation that returns nothing or raises. */
  datatype Outcome<+E> = Pass | Fail(error: E)
}
