/** Option and Result values, used for the exceptions of the modelled code. */
module Wrappers {

  datatype Option<+T> = None | Some(value: T)

  /** A value, or the error the modelled code would have thrown instead. */
  datatype Result<+T, +E> = Success(value: T) | Failure(error: E)
}
