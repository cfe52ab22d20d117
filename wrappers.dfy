/** The error-or-value result used where the sources raise or report an error. */
module Wrappers {
  datatype Result<+T, +E> = Success(value: T) | Failure(error: E)
}
