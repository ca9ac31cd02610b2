/** Values shared by all the helpers: Go's `error` and the usual Option/Result shapes. */
module Wrappers {

  /** A Go error value; only its message is observable to callers. */
  datatype Error = Error(message: string)

  /** `None` is Go's nil; `Some(v)` a non-nil value. */
  datatype Option<+T> = None | Some(value: T)

  /** The outcome of an operation that yields a value or fails with an error. */
  datatype Result<+R, +E> = Success(value: R) | Failure(error: E)
}
