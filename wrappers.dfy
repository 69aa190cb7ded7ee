/** Small value wrappers shared by the scanner and the translator. */
module Wrappers {

  /** The conventional Some/None datatype, standing for Python's `None`. */
  datatype Option<+T> = None | Some(value: T)

  /** The outcome of a computation that can raise. */
  datatype Result<+T, +E> = Success(value: T) | Failure(error: E)
}
