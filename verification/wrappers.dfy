/** General-purpose result types shared by the other modules. */
module Wrappers {

  datatype Option<T> = None | Some(value: T)

  /** The outcome of a routine that can refuse its input. */
  datatype Result<T> = Success(value: T) | Failure(error: string)
}
