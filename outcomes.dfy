/** Success and failure values returned by the store's operations. */
module Outcomes {

  datatype Option<T> = None | Some(value: T)

  /** The failure kinds a handler reports, each with the message the handler sends. */
  datatype Error =
    | BadRequest(message: string)
    | Unauthorized(message: string)
    | NotFound(message: string)
    | Conflict(message: string)
    | Internal(message: string)

  datatype Result<T> = Ok(value: T) | Err(error: Error)
}
