/** `Option` and `Result`, standing in for the exceptions and missing values of the Python code. */
module Wrappers {

  /** A present or absent value: `None` stands for a lookup that raised `IndexError`. */
  datatype Option<+T> = None | Some(value: T)

  /** A value or the error that would have been raised instead. */
  datatype Result<+R, +E> = Success(value: R) | Failure(error: E)
}
