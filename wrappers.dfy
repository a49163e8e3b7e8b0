/** Option and Result datatypes shared by the other modules. */
module Wrappers {

  /** An optional value: Python's `None` or a present value. */
  datatype Option<+T> = None | Some(value: T)

  /** The outcome of an operation that raises on failure in the source. */
  datatype Result<+T, +E> = Success(value: T) | Failure(error: E)
}
