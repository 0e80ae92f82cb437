/** Failure-aware result types shared by the pipeline model. */
module Wrappers {

  /** A value that may be absent; Polars' null is `None`. */
  datatype Option<+T> = None | Some(value: T)

  /** The outcome of an operation that can fail with an error of type `E`. */
  datatype Result<+T, +E> = Success(value: T) | Failure(error: E)
}
