/** Failure-carrying results shared by the containers, the managers and the dispatcher. */
module Wrappers {

  /** An optional value: the model's rendering of a nullable result or of a
      (found, out value) pair. */
  datatype Option<+T> = None | Some(value: T)

  /** The outcome of an operation that the source ends by throwing an
      exception: `Error` carries the exception's message. */
  datatype Result<+T> = Ok(value: T) | Error(message: string)
}
