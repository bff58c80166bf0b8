/** Failure-carrying result types shared by every module of the model. */
module Wrappers {

  /** A value that may be absent: Python's `None` or a missing dictionary key. */
  datatype Option<+T> = None | Some(value: T)

  /** The outcome of a computation that can raise: `Fail` stands for the exception. */
  datatype Result<+T, +E> = Ok(value: T) | Fail(error: E)
}
