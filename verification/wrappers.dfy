/** Failure-compatible wrappers shared by the whole model. */
module Wrappers {

  /** A value that may be absent: a JavaScript `null` reference. */
  datatype Option<+T> = None | Some(value: T)

  /** A result that is either a value or an error message. */
  datatype Result<+R> = Ok(value: R) | Err(message: string)
}
