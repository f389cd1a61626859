/** Option and Result, used for the store's optional fields and its thrown errors. */
module Wrappers {

  /** An optional value: `None` is a JavaScript property that is absent (or `undefined`). */
  datatype Option<+T> = None | Some(value: T)

  /** The outcome of an operation that either returns a value or throws an error. */
  datatype Result<+R, +E> = Success(value: R) | Failure(error: E)
}
