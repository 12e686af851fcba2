/** Option and Result values for the handler's "maybe" and "may fail" answers. */
module Outcomes {

  datatype Option<T> = None | Some(value: T)

  /** The outcome of an operation that may raise: a value, or the text of the exception. */
  datatype Result<T> = Success(value: T) | Failure(error: string)
}
