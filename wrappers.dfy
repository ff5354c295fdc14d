/** Failure-carrying datatypes: Option for the source's `None` results,
    Result and Outcome for operations that either succeed or raise. */
module Wrappers {

  datatype Option<+T> = None | Some(value: T)

  datatype Result<+R, +E> = Success(value: R) | Failure(error: E)

  datatype Outcome<+E> = Pass | Fail(error: E)
}
