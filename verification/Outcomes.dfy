/** Results, options and the error codes that calls of the store and the server answer with. */
module Outcomes {

  /** The application error codes of storage.go, followed by the outcomes the source does not code:
      a file that does not exist, any other error of the operating system or an encoder, and a Go
      run-time panic. */
  datatype ErrorCode =
    | Validation | Permission | NotFound | Conflict | Integrity | Capacity | RateLimit
    | Missing
    | SystemError
    | Panic

  datatype Option<+T> = None | Some(value: T)

  datatype Result<+T> = Ok(value: T) | Err(error: ErrorCode)

  /** How the replacement of a whole file ends: it is replaced and synced, not replaced at all, or replaced while its
      directory sync fails. */
  datatype WriteFault = Written | NotReplaced | NotSynced
}
