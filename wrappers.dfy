/** Optional values and results shared by every module of the model. */
module Wrappers {

  /** A value that may be absent: JavaScript's `undefined`/`null` on the server and client. */
  datatype Option<+T> = None | Some(value: T)

  /** Either a value or the reason an operation refused to produce one. */
  datatype Result<+T, +E> = Ok(value: T) | Err(error: E)
}
