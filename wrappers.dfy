/** Failure-carrying return types: the model's stand-in for Java's null and thrown exceptions. */
module Wrappers {

  /** A value that may be absent (a nullable reference or an empty `Optional`). */
  datatype Option<+T> = None | Some(value: T)

  /** Either the value an operation returns or the reason it threw. */
  datatype Result<+T, +E> = Success(value: T) | Failure(error: E)

  /** The outcome of a `void` operation that may throw. */
  datatype Outcome<+E> = Pass | Fail(error: E)
}
