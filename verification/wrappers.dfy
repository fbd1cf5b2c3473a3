/** Optional values and success/failure results, used for the campaign's
    optional form fields and for the validator's verdict. */
module Wrappers {

  /** A value that may be absent, like a form field left unset. */
  datatype Option<+T> = None | Some(value: T)

  /** Either a value or the error that prevented producing one. */
  datatype Result<+R, +E> = Success(value: R) | Failure(error: E)
}
