/** Failure-carrying values shared by the other modules. */
module Wrappers {

  datatype Option<+T> = None | Some(value: T)

  /** A computation that either produced a value or stopped on an offending token. */
  datatype Result<+T> = Ok(value: T) | Err(error: string)
}
