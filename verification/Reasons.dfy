/** The failure taxonomy of the wire layer (packages/protocol/src/errors.ts). */
module Reasons {

  datatype Reason =
    | EmptyStartLine
    | MalformedStartLine
    | UnsupportedProtocolVersion
    | InvalidOperationToken
    | InvalidStatusCode
    | MissingStatusPhrase
    | InvalidStatusPhrase
    | BareLineFeed
    | BareCarriageReturn
    | ObsoleteLineFolding
    | MalformedHeaderLine
    | InvalidHeaderName
    | InvalidHeaderValue
    | DuplicateHeader
    | InvalidContentLength
    | NegativeContentLength
    | ContentLengthTooLarge
    | StartLineTooLarge
    | HeaderBlockTooLarge
    | TooManyHeaders
    | MessageTooLarge
    | TruncatedMessage
    | UnexpectedMessageKind
    // Raised after framing, by validation or admission control.
    | MissingRequestId
    | InvalidRequestId
    | MissingSessionId
    | InvalidSessionId
    | UnexpectedBody
    | MissingBody
    | InvalidJsonBody
    | InvalidBodyShape
    | UnknownOperation
    | RateLimited
    | ServerShuttingDown
    | SessionLimitReached

  /** The registered fatal reasons: the stream cannot be resynchronised after one of them. */
  predicate IsFatal(reason: Reason) {
    match reason
    case EmptyStartLine | MalformedStartLine | UnsupportedProtocolVersion | InvalidOperationToken
      | InvalidStatusCode | MissingStatusPhrase | InvalidStatusPhrase | BareLineFeed
      | BareCarriageReturn | ObsoleteLineFolding | MalformedHeaderLine | InvalidHeaderName
      | InvalidHeaderValue | DuplicateHeader | InvalidContentLength | NegativeContentLength
      | ContentLengthTooLarge | StartLineTooLarge | HeaderBlockTooLarge | TooManyHeaders
      | MessageTooLarge | TruncatedMessage | UnexpectedMessageKind => true
    case _ => false
  }

  /** Either a value or the reason there is none. */
  datatype Parse<+T> = Ok(value: T) | Err(reason: Reason) {
    predicate IsFailure() { Err? }
    function PropagateFailure<U>(): Parse<U> requires Err? { Err(reason) }
    function Extract(): T requires Ok? { value }
  }

  datatype Option<+T> = None | Some(value: T)
}
