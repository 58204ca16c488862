/** Failure-carrying results used by the store and the command handlers.
    Errors are the message strings the program builds with errors.New
    or hands to its exit helpers. */
module Wrappers {

  datatype Option<+T> = None | Some(value: T)

  datatype Result<+T> = Success(value: T) | Failure(error: string)

  datatype Outcome = Pass | Fail(error: string)
}
