/** Option and Result, as used for the nullable fields and the error paths of the model. */
module Wrappers {

  /** A value that may be absent: C#'s `null` references and `int?`. */
  datatype Option<+T> = None | Some(value: T)

  /** Either a value or the reason it could not be computed. */
  datatype Result<+R, +E> = Success(value: R) | Failure(error: E)
}
