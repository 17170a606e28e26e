/** Failure-carrying results shared by every module: `Option` for the source's
    `undefined` returns, `Result` for the operations that throw. */
module Wrappers {

  /** `None` stands for JavaScript's `undefined`. */
  datatype Option<+T> = None | Some(value: T)

  /** Why an operation threw. */
  datatype Error =
    | OutOfBounds
    | InvalidArgument
    | EmptyReduce

  /** `Failure` stands for an exception thrown by the source. */
  datatype Result<+T> = Success(value: T) | Failure(error: Error)
}
