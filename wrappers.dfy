/** Option and result values standing in for Java's null and exceptions. */
module Wrappers {

  /** A possibly absent value (a nullable reference in the source). */
  datatype Option<+T> = None | Some(value: T)

  /** The value of an operation that returns something or throws. */
  datatype Result<+R, +E> = Success(value: R) | Failure(error: E)

  /** The value of an operation that returns nothing or throws. */
  datatype Outcome<+E> = Pass | Fail(error: E)
}
