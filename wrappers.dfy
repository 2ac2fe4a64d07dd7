/** Option and Result, for the null references and exceptions of the editor's collaborators. */
module Wrappers {

  /** A possibly absent value: `None` stands for a Java `null`. */
  datatype Option<+T> = None | Some(value: T)

  /** The outcome of a library call that either returns a value or throws. */
  datatype Result<+T> = Success(value: T) | Failure(error: string)
}
