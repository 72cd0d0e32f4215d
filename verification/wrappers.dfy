/** The Success/Failure datatype used where the source throws an Error. */
module Wrappers {

  datatype Result<+T, +E> = Success(value: T) | Failure(error: E)
}
