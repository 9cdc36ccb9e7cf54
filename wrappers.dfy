/** Option, Outcome and Result datatypes shared by the modules. */
module Wrappers {

  /** A value that may be absent: a JavaScript `null`/`undefined` or a lookup that found nothing. */
  datatype Option<+T> = None | Some(value: T)

  /** A step that either completes normally or raises an error carrying `error`. */
  datatype Outcome<+E> = Pass | Fail(error: E)

  /** A step that either returns `value` or raises `error`. */
  datatype Result<+R, +E> = Success(value: R) | Failure(error: E)
}
