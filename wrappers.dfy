/** Option and Result values for the operations whose source returns `null`
    or throws an assertion error. */
module Wrappers {

  datatype Option<+T> = None | Some(value: T)

  /** The two exceptions the modelled code raises. */
  datatype Error = DivisionByZero | EncodingOverflow

  datatype Result<+T> = Success(value: T) | Failure(error: Error)
}
