/** Option and Result, the two value wrappers the model of the optional container is stated with. */
module Wrappers {

  /** Zero or one value: how the model reports what a callback received or produced. */
  datatype Option<T> = None | Some(value: T)

  /** A value, or the error the operation raised instead of returning one. */
  datatype Result<T, E> = Success(value: T) | Failure(error: E)
}
