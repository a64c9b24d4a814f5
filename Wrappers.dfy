/** Option and Result values standing for JavaScript's `null` and for Python's aborted runs. */
module Wrappers {

  /** `None` is JavaScript's `null` (or Python's `None`); `Some(v)` a present value. */
  datatype Option<+T> = None | Some(value: T)

  /** Either a value or the reason the computation stopped. */
  datatype Result<+T, +E> = Ok(value: T) | Err(error: E)
}
