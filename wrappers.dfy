/** The error-or-value outcome used for `JsonToPo`'s `([]byte, error)`. */
module Wrappers {

  datatype Result<+T> = Success(value: T) | Failure(error: string)
}
