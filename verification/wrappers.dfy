/** Option and Result datatypes shared by the other modules. */
module Wrappers {

  /** A value that may be absent: Python's `None` versus a present value. */
  datatype Option<+T> = None | Some(value: T)

  /** The outcome of a run: a value, or the reason the run stops with exit status 1. */
  datatype Result<+R, +E> = Success(value: R) | Failure(error: E)
}
