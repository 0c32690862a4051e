/** Option and Result, used by the task codec and the task store. */
module Wrappers {

  /** A value that may be absent: an absent file, an unparsable flag. */
  datatype Option<+T> = None | Some(value: T)

  /** Either a value or the error that stopped its computation. */
  datatype Result<+T, +E> = Success(value: T) | Failure(error: E)
}
