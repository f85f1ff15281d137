/** Failure-carrying values shared by the remote client, the snapshot store and the engine. */
module Errors {

  datatype Option<+T> = None | Some(value: T)

  /** The error kinds the tool can surface; every one aborts the running operation. */
  datatype Error =
    | ConnectionError   // the remote store is unreachable
    | AuthError         // the remote store refused the credentials
    | TransportError    // a malformed or truncated remote response
    | WriteRejected     // the remote store refused a put
    | StorageError      // the local snapshot could not be opened or written

  /** The result of an operation that returns nothing on success (`Result<()>`). */
  datatype Outcome = Pass | Fail(error: Error)

  /** The result of an operation that returns a value on success. */
  datatype Result<+T> = Ok(value: T) | Err(error: Error)
}
