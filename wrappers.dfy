/** Failure-carrying result types used by the collection's fallible operations. */
module Wrappers {

  /** A value that may be absent; `None` stands for a .NET `null` reference. */
  datatype Option<+T> = None | Some(value: T)

  /** The result of an operation that produces a value or raises an exception. */
  datatype Result<+R, +E> = Success(value: R) | Failure(error: E)

  /** The result of an operation that returns nothing or raises an exception. */
  datatype Outcome<+E> = Pass | Fail(error: E)
}
