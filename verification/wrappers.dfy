/**
 * The two wrappers the model uses: `Option` for a value that may be absent and
 * `Result` for a computation that may stop with a run-time failure.
 */
module Wrappers {

  datatype Option<+T> = None | Some(value: T)

  datatype Result<+T, +E> = Success(value: T) | Failure(error: E)

}
