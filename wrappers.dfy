/** Failure-carrying return values: Java's null returns and exceptions. */
module Wrappers {

  datatype Option<+T> = None | Some(value: T)

  /** The exceptions the modelled code raises. */
  datatype Error =
    | IllegalArgument(message: string)
    | Arithmetic(message: string)
    | IndexOutOfBounds(message: string)

  datatype Result<+T> = Success(value: T) | Failure(error: Error)
}
