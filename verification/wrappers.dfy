/** Failure-carrying result types shared by the parser and the numeric conversions. */
module Wrappers {

  /** A value that may be absent, as a conversion that can fail returns it. */
  datatype Option<+T> = None | Some(value: T)

  /** Either a successfully computed value or the error that stopped the computation. */
  datatype Result<+R, +E> = Success(value: R) | Failure(error: E)
}
