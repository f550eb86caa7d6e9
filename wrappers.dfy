/** Failure-carrying values shared by the modules of this model. */
module Wrappers {

  /** A value that may be absent, as a Java reference that may be null. */
  datatype Option<+T> = None | Some(value: T)

  /** A value, or the exception that the Java method throws instead. */
  datatype Result<+T, +E> = Ok(value: T) | Err(error: E)
}
