/** The wire-level records of the write-events reply (the protobuf
    `client_messages` types). Only their fields are modelled; their protobuf
    byte encoding is not part of this model. */
module ClientMessages {
  import opened Wrappers

  const I32_MIN: int := -0x8000_0000
  const I32_MAX: int := 0x7FFF_FFFF

  type i32 = x: int | I32_MIN <= x <= I32_MAX

  /** The generic result code of a write on the wire. */
  datatype OperationResult =
    | Success
    | PrepareTimeout
    | CommitTimeout
    | ForwardTimeout
    | WrongExpectedVersion
    | StreamDeleted
    | InvalidTransaction
    | AccessDenied

  /** `client_messages::WriteEventsCompleted`: an optional result code, an
      optional message, the inclusive event-number pair, and the two
      optional log positions. */
  datatype WriteEventsCompleted = WriteEventsCompleted(
    result: Option<OperationResult>,
    message: Option<string>,
    firstEventNumber: i32,
    lastEventNumber: i32,
    preparePosition: Option<int>,
    commitPosition: Option<int>)
}
