/** The optional value used wherever the game code returns or accepts None. */
module Wrappers {

  datatype Option<+T> = None | Some(value: T)

  /** A failure-carrying result, for the paths where the game code raises. */
  datatype Result<+R> = Success(value: R) | Failure(error: string)
}
