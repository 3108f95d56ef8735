/** Option and Result, the shapes used for "undefined" and for thrown errors. */
module Wrappers {

  datatype Option<+T> = None | Some(value: T)

  /** A computation that either produced a value or threw an error with a message. */
  datatype Result<+T> = Ok(value: T) | Err(message: string)
}
