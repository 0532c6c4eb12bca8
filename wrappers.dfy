/** Wrappers for Go's `(value, error)` and `error` returns. */
module Wrappers {

  /** A value that may be absent (a foreign parser that may reject its input). */
  datatype Option<+T> = None | Some(value: T)

  /** A value or the error that replaced it: Go's `(T, error)` pair. */
  datatype Result<+T, +E> = Success(value: T) | Failure(error: E)

  /** Go's lone `error` return: `nil` is Pass. */
  datatype Outcome<+E> = Pass | Fail(error: E)
}
