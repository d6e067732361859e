/** The two result types that stand for the source's None returns and its raised exceptions. */
module Wrappers {

  datatype Option<+T> = None | Some(value: T)

  /** A raised ValueError is Failure; a normal return is Success. */
  datatype Result<+T> = Success(value: T) | Failure(message: string)
}
