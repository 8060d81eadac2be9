/** Option and Result, standing for Java's nullable references and thrown exceptions. */
module Wrappers {

  /** `None` is Java's `null`. */
  datatype Option<+T> = None | Some(value: T)

  /** `Failure` carries the message of the exception the Java code throws. */
  datatype Result<+R, +E> = Success(value: R) | Failure(error: E)
}
