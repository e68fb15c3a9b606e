/** Failure-compatible result types shared by the proteomics modules. */
module Wrappers {

  /** A value that may be absent (Python's `None`). */
  datatype Option<+T> = None | Some(value: T)

  /** The outcome of an operation that may raise: `Err` carries the exception's message. */
  datatype Result<+T> = Ok(value: T) | Err(error: string)
}
