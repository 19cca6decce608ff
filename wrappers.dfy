/** Option and Result: a nullable value, and a value-or-exception outcome. */
module Wrappers {

  /** A value that may be absent (Java's null, JavaScript's null). */
  datatype Option<T> = None | Some(value: T)

  /** The outcome of a service call: a value, or the exception it throws. */
  datatype Result<T, E> = Success(value: T) | Failure(error: E)
}
