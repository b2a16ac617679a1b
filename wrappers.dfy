/** Option and Result values for the lookups and conversions that can fail. */
module Wrappers {

  datatype Option<+T> = None | Some(value: T)

  /** Success, or the error the Python code would raise. */
  datatype Result<+R, +E> = Success(value: R) | Failure(error: E)
}
