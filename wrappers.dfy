/** Failure-compatible value types shared by the model's modules. */
module Wrappers {

  /** A value that may be absent: JavaScript `undefined`, Python `None`. */
  datatype Option<+T> = None | Some(value: T)

  /** The outcome of an operation that either returns a value or raises an error. */
  datatype Result<+R, +E> = Success(value: R) | Failure(error: E)
}
