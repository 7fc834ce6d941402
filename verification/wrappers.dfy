/** The wrappers used throughout the model: Python's `Optional` values
    become `Option`, and the HTTP errors a handler raises become the
    `Failure` half of a `Result`. */
module Wrappers {

  /** A value that may be missing: Python's `None` is `None`. */
  datatype Option<+T> = None | Some(value: T)

  /** Either a successful value or the error that stopped the computation. */
  datatype Result<+R, +E> = Success(value: R) | Failure(error: E)
}
