/** Failure-carrying result types shared by the model. */
module Wrappers {

  /** A value that may be absent; the model of the source's `null` results. */
  datatype Option<+T> = None | Some(value: T)

  /** A value or an error; the model of a thrown error or a failed decode. */
  datatype Result<+T, +E> = Ok(value: T) | Err(error: E)
}
