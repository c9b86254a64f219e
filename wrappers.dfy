/** Optional values and error-carrying results, used wherever the Python code
    returns None, reads a possibly-missing key, or raises. */
module Wrappers {

  datatype Option<+T> = None | Some(value: T)

  /** `Failure` stands for an exception the Python code raises (or re-raises). */
  datatype Result<+R, +E> = Success(value: R) | Failure(error: E)
}
