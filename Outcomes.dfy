/** Failure-carrying values shared by the other modules. */
module Outcomes {

  /** A value that may be absent: the model's stand-in for a Java exception on a parse. */
  datatype Option<+T> = None | Some(value: T)

  /** The outcome of an operation that either yields a value or raises an error. */
  datatype Result<+R, +E> = Ok(value: R) | Err(error: E)
}
