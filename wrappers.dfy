/** Option and Result, the engine's way of saying "absent" and "failed". */
module Wrappers {

  datatype Option<+T> = None | Some(value: T)

  datatype Result<+T, +E> = Ok(value: T) | Failure(error: E)
}
