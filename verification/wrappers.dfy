/** Failure-carrying datatypes used in place of Java's nulls and exceptions. */
module Wrappers {

  /** A value that may be absent. */
  datatype Option<+T> = None | Some(value: T)

  /** Either a computed value or the reason the computation failed. */
  datatype Result<+T, +E> = Ok(value: T) | Err(error: E)
}
