/** Failure-compatible value wrappers used for the source's `None` returns and raised errors. */
module Wrappers {

  /** Python's `None` versus a present value. */
  datatype Option<+T> = None | Some(value: T)

  /** A returned value versus a raised exception. */
  datatype Result<+R, +E> = Success(value: R) | Failure(error: E)

  /** A statement that either completes or raises. */
  datatype Outcome<+E> = Pass | Fail(error: E)
}
