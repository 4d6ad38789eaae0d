/** Failure-carrying return types shared by every module. */
module Wrappers {

  /** A value that may be absent (JavaScript `undefined`). */
  datatype Option<+T> = None | Some(value: T)

  /** Either a computed value or the error a call rejects with. */
  datatype Result<+T, +E> = Ok(value: T) | Err(error: E)
}
