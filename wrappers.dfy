/** Option and Result, the failure-carrying wrappers used across the model. */
module Wrappers {

  datatype Option<+T> = None | Some(value: T)

  /** The two ways an operation of the core can fail. */
  datatype Error =
    | OutOfRange   // a DataView store or a reader went past the end of its region
    | Underrun     // a reader had fewer bytes left than the value it was asked for

  datatype Result<+T> = Ok(value: T) | Err(error: Error)
}
