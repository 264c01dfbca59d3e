/** Failure-compatible result types shared by the pipeline's modules. */
module Wrappers {

  /** A value that may be absent (a failed decode, say). */
  datatype Option<+T> = None | Some(value: T)

  /** The outcome of an operation that can fail with an error of type E. */
  datatype Result<+T, +E> = Ok(value: T) | Err(error: E)
}
