/** Failure-compatible wrappers shared by the model. */
module Wrappers {

  datatype Option<+T> = None | Some(value: T)

  /** A computation that either yields a value or fails the way the
      program would raise an exception. */
  datatype Result<+T> = Ok(value: T) | Err(reason: string)
}
