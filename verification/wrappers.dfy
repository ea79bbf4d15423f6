/** Failure-carrying values used in place of Java's nulls and thrown exceptions. */
module Wrappers {

  /** A value that may be absent: the model of a nullable Java reference. */
  datatype Option<+T> = None | Some(value: T)

  /** The outcome of an operation that yields a value or fails with an error. */
  datatype Result<+T, +E> = Success(value: T) | Failure(error: E)

  /** The outcome of an operation that yields nothing on success (a Java `void` method). */
  datatype Outcome<+E> = Pass | Fail(error: E)
}
