/** Failure-carrying values shared by the deployer model. */
module Wrappers {

  datatype Option<+T> = None | Some(value: T)

  /** The deployer throws an Error object; a Failure carries what it would have said. */
  datatype Result<+T, +E> = Success(value: T) | Failure(error: E)
}
