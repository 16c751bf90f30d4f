/** Small failure-carrying datatypes shared by the other modules. */
module Wrappers {

  /** A value that may be absent; used for `std::exception_ptr` (null or not). */
  datatype Option<+T> = None | Some(value: T)

  /** Either a value or the error that replaced it. */
  datatype Result<+T, +E> = Success(value: T) | Failure(error: E)
}
