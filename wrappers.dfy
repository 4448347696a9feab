/** Option and Outcome: the value-level stand-ins for a missing result and
    for an operation that either completes or throws. */
module Wrappers {

  datatype Option<+T> = None | Some(value: T)

  /** The outcome of an operation that returns nothing or raises `error`. */
  datatype Outcome<+E> = Pass | Fail(error: E)

  /** The result of an operation that returns `value` or raises `error`. */
  datatype Result<+R, +E> = Success(value: R) | Failure(error: E)
}
