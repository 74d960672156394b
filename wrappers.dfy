/** Option, Result and Outcome: the values that stand for PHP's null and thrown exceptions. */
module Wrappers {

  /** A value that may be absent (PHP's null). */
  datatype Option<+T> = None | Some(value: T)

  /** A value, or the exception raised instead of producing it. */
  datatype Result<+T, +E> = Success(value: T) | Failure(error: E)

  /** Normal completion of an operation that returns nothing, or the exception it raised. */
  datatype Outcome<+E> = Pass | Fail(error: E)
}
