// Outcomes and the package's error sentinels. Source: errors.go.
module Errors {

  datatype Option<+T> = None | Some(value: T)

  datatype Sentinel =
    | InvalidInput
    | EmptySessionID
    | Randomness
    | Message
    | StateUsed
    | SessionClosed
    | Abort
    | PeerShareEncoding
    | PeerShareIdentity
    | ConfirmationFailed

  datatype ShareRole = InitiatorShare | ResponderShare

  /** The sentinels an error wraps, outermost first, and the share role its
      text names, if any. Message texts are not modelled. */
  datatype Error = Error(wraps: seq<Sentinel>, share: Option<ShareRole>)
  {
    predicate Is(s: Sentinel) { s in wraps }
  }

  datatype Result<+T> = Ok(value: T) | Err(error: Error)

  const ERR_INVALID_INPUT := Error([InvalidInput], None)
  const ERR_MESSAGE := Error([Message], None)
  const ERR_RANDOMNESS := Error([Randomness], None)
  const ERR_STATE_USED := Error([StateUsed], None)
  const ERR_SESSION_CLOSED := Error([SessionClosed], None)
  const ERR_CONFIRMATION_FAILED := Error([ConfirmationFailed], None)
}
