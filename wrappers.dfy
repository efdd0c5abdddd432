/** Option, Result and Outcome: the return-value form of the PHP code's
    nullable values and thrown exceptions. */
module Wrappers {

  /** A PHP `?string` and similar nullable values. */
  datatype Option<+T> = None | Some(value: T)

  /** A call that either returns a value or throws. */
  datatype Result<+T, +E> = Ok(value: T) | Err(error: E)

  /** A `void` call that either returns normally or throws. */
  datatype Outcome<+E> = Pass | Fail(error: E)
}
