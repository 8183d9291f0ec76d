/** Sum types standing in for Java's null, Optional and exceptions. */
module Wrappers {

  /** `None` is an absent value: an empty `Optional` or a `null` reference. */
  datatype Option<+T> = None | Some(value: T)

  /** The outcome of an operation that returns a value or throws. */
  datatype Result<+R, +E> = Success(value: R) | Failure(error: E)

  /** The outcome of a `void` operation that may throw. */
  datatype Outcome<+E> = Pass | Fail(error: E)
}
