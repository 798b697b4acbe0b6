/** Option and Result, used for the store's null returns and its thrown errors. */
module Wrappers {

  /** `null` in the source is `None`. */
  datatype Option<+T> = None | Some(value: T)

  /** A call that either returns `value` or throws `error`. */
  datatype Result<+T, +E> = Ok(value: T) | Err(error: E)
}
