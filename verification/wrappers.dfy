/** Failure-carrying datatypes shared by the rest of the model: Python's
    `Optional[...]` / `None` becomes `Option`, and an exception raised by the
    database becomes the `Failure` side of a `Result`. */
module Wrappers {

  /** A value that may be absent (Python `None`). */
  datatype Option<+T> = None | Some(value: T)

  /** Either a result or the error that prevented it. */
  datatype Result<+R, +E> = Success(value: R) | Failure(error: E)
}
