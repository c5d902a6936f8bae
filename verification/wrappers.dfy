/** Option and Result values: Kotlin's nullable types and kotlin.Result. */
module Wrappers {

  datatype Option<+T> = None | Some(value: T)

  /** A success value or a failure that carries the exception's message. */
  datatype Result<+T> = Success(value: T) | Failure(error: string)
}
