/** Failure-carrying results used throughout the model in place of Java's null returns and exceptions. */
module Wrappers {

  datatype Option<+T> = None | Some(value: T)

  datatype Result<+T, +E> = Ok(value: T) | Err(error: E)

  /** The outcome of an operation that returns nothing (Java `void` or `return this`) but may throw. */
  datatype Outcome<+E> = Pass | Fail(error: E)
}
