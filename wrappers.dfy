/** Option and Result values, for attributes that may be absent (Python's None)
    and for operations that raise instead of returning. */
module Wrappers {

  datatype Option<+T> = None | Some(value: T)

  datatype Result<+R, +E> = Success(value: R) | Failure(error: E)
}
