/** Failure-compatible result types shared by every module of the model. */
module Wrappers {

  /** A value that may be absent: Python's `None` / `Optional[T]`. */
  datatype Option<+T> = None | Some(value: T)

  /** The outcome of an operation that can raise a Python exception. */
  datatype Result<+R> = Success(value: R) | Failure(error: Error)

  /** The Python exceptions the modelled code can raise. */
  datatype Error = ValueError | IndexError | KeyError
}
