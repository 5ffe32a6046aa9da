/** Success/failure carriers shared by every module of the model. */
module Outcome {

  /** A value that may be absent: a regex search without a match, a hex string GMP rejects. */
  datatype Option<+T> = None | Some(value: T)

  /** A value or the error that the program raises instead of producing it. */
  datatype Result<+T, +E> = Success(value: T) | Failure(error: E)
}
