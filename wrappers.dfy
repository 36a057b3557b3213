/** Failure-compatible result types shared by the model's modules. */
module Wrappers {

  /** A value that may be absent; Go's `nil` error is `None`. */
  datatype Option<+T> = None | Some(value: T)

  /** The `(value, error)` pair a Go function returns: exactly one side is meaningful. */
  datatype Outcome<+R, +E> = Ok(value: R) | Err(error: E)
}
