/** Option and Result, the two shapes the model uses for JavaScript's `null`
    and for a promise that either resolves or throws. */
module Wrappers {

  datatype Option<+T> = None | Some(value: T)

  datatype Result<+R, +E> = Ok(value: R) | Err(error: E)
}
