/** Small failure-carrying datatypes shared by the model. */
module Wrappers {

  /** A value that may be absent (JavaScript's `null` / `undefined`). */
  datatype Option<+T> = None | Some(value: T)

  /** Either a value or the error string the code returns in its place. */
  datatype Result<+T> = Ok(value: T) | Err(message: string)
}
