/** Optional values and results with an error, used wherever the source returns
    null or throws. */
module Wrappers {

  /** A value that may be absent (the source's `null` / `undefined`). */
  datatype Option<+T> = None | Some(value: T)

  /** The outcome of an operation that the source may abort with an exception. */
  datatype Result<+T, +E> = Success(value: T) | Failure(error: E)

  /** The exceptions the STOMP engine raises, one variant per `throw` site. */
  datatype StompError =
    | NullCommand                   // frame constructor given a falsy command
    | MissingHeader(key: string)    // getRequiredHeader on an absent or empty header
    | MissingCommand                // parsed frame with an empty command line
    | UnknownCommand(token: string) // command token that is not a STOMP command
    | UnsupportedPayload(kind: string) // socket payload that is neither text nor binary
    | UnsupportedCommand(command: string) // inbound frame the client does not dispatch, by its enum number
    | NotWebsocketProtocol          // http:// or https:// given where ws:// is required
}
