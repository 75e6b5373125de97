/** Option and Result, the two failure-carrying shapes the model needs. */
module Wrappers {

  datatype Option<+T> = None | Some(value: T)

  /** The outcome of an operation that can fail with an I/O error. */
  datatype Result<+T> = Ok(value: T) | Err(error: IoError)

  /** An operating-system error, carried through unexamined. */
  datatype IoError = IoError(description: string)
}
