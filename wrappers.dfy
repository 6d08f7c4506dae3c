/** Option and Result datatypes used by the model. */
module Wrappers {

  /** A value that may be absent: a missing request-body field, or a search that found nothing. */
  datatype Option<T> = None | Some(value: T)

  /** The outcome of an operation that either produces a value or rejects with an error. */
  datatype Result<T, E> = Success(value: T) | Failure(error: E)
}
