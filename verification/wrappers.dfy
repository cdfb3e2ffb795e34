/** Option and Result values used for the lookups and steps that can fail. */
module Wrappers {

  datatype Option<+T> = None | Some(value: T)

  /** The outcome of an operation that throws in the original program. */
  datatype Result<+T> = Success(value: T) | Failure(error: string)
}
