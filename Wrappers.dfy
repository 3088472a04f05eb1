/** Option and Result, used where the Java code returns null or fails. */
module Wrappers {

  /** A value that may be absent: `None` stands for Java's `null`. */
  datatype Option<+T> = None | Some(value: T)

  /** The outcome of an operation that can fail with an error `E`. */
  datatype Result<+T, +E> = Ok(value: T) | Err(error: E)
}
