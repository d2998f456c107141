/** Optional values and the error outcomes of the request handlers. */
module Wrappers {

  /** A value that may be absent: a missing request field, a query that found nothing. */
  datatype Option<+T> = None | Some(value: T)

  /** The error responses a handler can send: 400, 404 and 500. */
  datatype Error = BadRequest | NotFound | ServerError

  /** A handler's outcome: the record it sends back, or the error status. */
  datatype Result<+T> = Ok(value: T) | Err(error: Error)
}
