/** Option and Result values standing for Python's optional values and raised exceptions. */
module Wrappers {

  datatype Option<+T> = None | Some(value: T)

  /** Success carries the value a Python function returns; Failure the exception it raises. */
  datatype Result<+R, +E> = Success(value: R) | Failure(error: E)
}
