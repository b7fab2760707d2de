/** Option and Result values, standing in for Java's null and for thrown exceptions. */
module Wrappers {

  /** A value that may be absent (a Java reference that may be null). */
  datatype Option<+T> = None | Some(value: T)

  /** The value of an operation, or the exception it throws. */
  datatype Result<+T, +E> = Ok(value: T) | Err(error: E)
}
