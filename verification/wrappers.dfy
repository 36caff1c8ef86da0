/** Failure-carrying datatypes shared by the model. */
module Wrappers {

  /** A value that may be absent: the model's rendering of a Java `null` result. */
  datatype Option<+T> = None | Some(value: T)

  /** Either a value or the error a Java method would have thrown instead of returning. */
  datatype Result<+R, +E> = Success(value: R) | Failure(error: E)
}
