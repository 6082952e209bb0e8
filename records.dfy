/**
 The two value types of the token registry: the per-token record (the `FCMToken`
 dataclass) and the per-token send result that the messaging service hands back.
 */
module TokenRecords {
  import opened Wrappers

  /** One registered FCM token. Timestamps are abstract clock readings. */
  datatype TokenRec = TokenRec(
    token: string,
    registeredAt: nat,
    lastActive: nat,
    successfulSends: nat,
    failedSends: nat,
    isActive: bool)

  /** The record built for a token seen for the first time: the dataclass defaults. */
  function NewRecord(token: string, now: nat): (r: TokenRec)
    ensures r.token == token && r.isActive
    ensures r.registeredAt == now && r.lastActive == now
    ensures r.successfulSends == 0 && r.failedSends == 0
  {
    TokenRec(token, now, now, 0, 0, true)
  }

  /** The `error_code` strings a failed send can carry. */
  datatype ErrorCode = InvalidArgument | Unregistered | Unknown

  /**
   One send result: the token it was sent to, whether it succeeded and, for a
   failure, its error code (`None` when the result carries no `error_code`).
   */
  datatype Outcome = Outcome(token: string, success: bool, errorCode: Option<ErrorCode>)

  /** The two error codes that mean the token is no longer usable. */
  predicate Deactivates(code: Option<ErrorCode>)
  {
    match code
    case Some(Unregistered) => true
    case Some(InvalidArgument) => true
    case _ => false
  }
}
