/** Values that cross the HTTP boundary between the browser pages and the
    Express routes. */
module Common {

  datatype Option<T> = None | Some(value: T)

  /** What a route handler sends back. Every handler answers with one of these
      status codes, or never answers at all. */
  datatype Reply<T> =
    | Ok(body: T)        // 200
    | Created(body: T)   // 201
    | NotFound           // 404
    | ServerError        // 500
    | NoReply            // the request hangs: an error was thrown outside the handler's try

  /** A presigned GET URL, kept opaque: the object key it grants access to and
      its lifetime in seconds. The signature itself is not modelled. */
  datatype SignedUrl = SignedUrl(key: string, expires: nat)
}
