/** Option and Result, used for the optional fields of the input records and
    for the exceptions the graded code raises. */
module Wrappers {

  datatype Option<+T> = None | Some(value: T)

  datatype Result<+R, +E> = Success(value: R) | Failure(error: E)
}
