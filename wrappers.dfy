/** Option and Result values: the model's stand-ins for Python's `None` and for a raised exception. */
module Wrappers {

  /** `None` is Python's `None`; `Some(v)` is a present value `v`. */
  datatype Option<+T> = None | Some(value: T)

  /** `Ok(v)` is a normal return; `Err(e)` is the exception `e` raised instead of returning. */
  datatype Result<+T, +E> = Ok(value: T) | Err(error: E)
}
