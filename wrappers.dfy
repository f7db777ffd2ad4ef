/** Optional values and results, used where the services return a Java
    Optional or throw one of their documented exceptions. */
module Wrappers {

  /** A present-or-absent value: Java's Optional, or a nullable reference. */
  datatype Option<+T> = None | Some(value: T)

  /** Either the value an operation returns or the exception it throws. */
  datatype Result<+T, +E> = Ok(value: T) | Err(error: E)
}
