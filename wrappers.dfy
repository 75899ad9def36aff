/** Failure-carrying results shared by the parser and the catalog. */
module Wrappers {

  /** An optional value: Python's `None` or a present value. */
  datatype Option<+T> = None | Some(value: T)

  /** The outcome of an operation that either produces a value or reports an error
      (in the source, the error is a returned message or a raised exception). */
  datatype Result<+T, +E> = Ok(value: T) | Err(error: E)
}
