/** Failure-carrying values used where the JavaScript returns `undefined` or throws. */
module Wrappers {

  /** `None` stands for JavaScript's `undefined`. */
  datatype Option<+T> = None | Some(value: T)

  /** `Err` stands for a thrown `Error`; the message is the one the source throws. */
  datatype Result<+T> = Ok(value: T) | Err(message: string)
}
