/** The typed outcome of a write (src/write_events.rs): a half-open range of
    assigned event numbers with optional log positions on success, or one of
    six failure reasons. */
module WriteEvents {
  import opened Wrappers
  import opened Errors
  import CM = ClientMessages

  /** A half-open range `start .. end` of stream versions. */
  datatype Range = Range(start: int, end: int)

  /** The range can be written as an inclusive i32 pair: both ends are i32
      and `end - 1` does not underflow. */
  predicate WireRepresentable(r: Range) {
    CM.I32_MIN <= r.start <= CM.I32_MAX && CM.I32_MIN < r.end <= CM.I32_MAX
  }

  /** `range_from_parts`: the inclusive pair `(first, last)` as the half-open
      range `first .. last + 1`. `last + 1` overflows an i32 when `last` is
      the largest i32, which the source does not guard; that case is `None`. */
  function RangeFromParts(first: CM.i32, last: CM.i32): (r: Option<Range>)
    ensures r.Some? <==> last < CM.I32_MAX
    ensures r.Some? ==> WireRepresentable(r.value)
    ensures r.Some? ==> r.value.start == first && r.value.end - r.value.start == last - first + 1
  {
    if last == CM.I32_MAX then None else Some(Range(first, last + 1))
  }

  /** `range_to_parts`: the half-open range as its inclusive i32 pair. */
  function RangeToParts(r: Range): (parts: (CM.i32, CM.i32))
    requires WireRepresentable(r)
    ensures parts.0 == r.start
    ensures parts.1 < r.end && parts.1 + 1 == r.end
  {
    (r.start, r.end - 1)
  }

  /** The two range conversions are inverse: parts -> range -> parts is the
      identity when `last + 1` fits an i32, and range -> parts -> range is
      the identity on every representable range. */
  lemma RangeRoundTrip(first: CM.i32, last: CM.i32, r: Range)
    ensures last < CM.I32_MAX ==> RangeToParts(RangeFromParts(first, last).value) == (first, last)
    ensures WireRepresentable(r) ==>
      var parts := RangeToParts(r); RangeFromParts(parts.0, parts.1) == Some(r)
  {
  }

  /** `WriteEventsCompleted`: the range of event numbers assigned to the
      written events and the optional prepare and commit positions. */
  datatype WriteEventsCompleted = WriteEventsCompleted(
    eventNumbers: Range,
    preparePosition: Option<int>,
    commitPosition: Option<int>)

  /** `WriteEventsFailure`: the six ways a write can fail. */
  datatype WriteEventsFailure =
    | PrepareTimeout
    | CommitTimeout
    | ForwardTimeout
    | WrongExpectedVersion
    | StreamDeleted
    | AccessDenied

  /** The message the source builds from a write-events reply:
      `Ok(completed)` or `Err(failure)`. */
  type WriteOutcome = Result<WriteEventsCompleted, WriteEventsFailure>

  /** `is_transient`: whether retrying the write might succeed. */
  function IsTransient(f: WriteEventsFailure): (t: bool)
    ensures t <==> FailureToResult(f) in {CM.PrepareTimeout, CM.CommitTimeout, CM.ForwardTimeout}
  {
    match f
    case PrepareTimeout | CommitTimeout | ForwardTimeout => true
    case _ => false
  }

  /** `Into<OperationResult>`: a failure as its wire result code. */
  function FailureToResult(f: WriteEventsFailure): (r: CM.OperationResult)
    ensures r != CM.Success && r != CM.InvalidTransaction
  {
    match f
    case PrepareTimeout => CM.PrepareTimeout
    case CommitTimeout => CM.CommitTimeout
    case ForwardTimeout => CM.ForwardTimeout
    case WrongExpectedVersion => CM.WrongExpectedVersion
    case StreamDeleted => CM.StreamDeleted
    case AccessDenied => CM.AccessDenied
  }

  /** `From<OperationResult>`: a wire result code as a failure. `Success`
      and `InvalidTransaction` are unreachable in the source (it panics);
      here they are a malformed response. */
  function FailureFromResult(code: CM.OperationResult): (r: Result<WriteEventsFailure, Error>)
    ensures r.Err? <==> code == CM.Success || code == CM.InvalidTransaction
    ensures r.Err? ==> r.error == Malformed
  {
    match code
    case Success => Err(Malformed)
    case InvalidTransaction => Err(Malformed)
    case PrepareTimeout => Ok(PrepareTimeout)
    case CommitTimeout => Ok(CommitTimeout)
    case ForwardTimeout => Ok(ForwardTimeout)
    case WrongExpectedVersion => Ok(WrongExpectedVersion)
    case StreamDeleted => Ok(StreamDeleted)
    case AccessDenied => Ok(AccessDenied)
  }

  /** The two code conversions are inverse on the six failure codes: a
      failure survives a trip through its code, and every code other than
      `Success` and `InvalidTransaction` is the code of exactly the failure
      it converts to. */
  lemma FailureResultBijection(f: WriteEventsFailure, g: WriteEventsFailure, code: CM.OperationResult)
    ensures FailureFromResult(FailureToResult(f)) == Ok(f)
    ensures FailureToResult(f) == FailureToResult(g) ==> f == g
    ensures FailureFromResult(code).Ok? ==> FailureToResult(FailureFromResult(code).value) == code
  {
    match f
    case PrepareTimeout =>
    case CommitTimeout =>
    case ForwardTimeout =>
    case WrongExpectedVersion =>
    case StreamDeleted =>
    case AccessDenied =>
  }

  /** A failure is transient exactly when its wire code is one of the three
      timeouts, so three of the six failures are transient. */
  lemma TransientExactlyTimeouts(f: WriteEventsFailure)
    ensures IsTransient(f) <==>
      FailureToResult(f) in {CM.PrepareTimeout, CM.CommitTimeout, CM.ForwardTimeout}
    ensures IsTransient(f) <==> f in {PrepareTimeout, CommitTimeout, ForwardTimeout}
    ensures !IsTransient(f) <==> f in {WrongExpectedVersion, StreamDeleted, AccessDenied}
  {
  }

  /** `as_message_write` of a success: code `Success`, no message, the
      inclusive event numbers, the positions passed through. */
  function CompletedToWire(c: WriteEventsCompleted): (w: CM.WriteEventsCompleted)
    requires WireRepresentable(c.eventNumbers)
    ensures w.result == Some(CM.Success) && w.message == None
    ensures w.firstEventNumber == c.eventNumbers.start
    ensures w.lastEventNumber + 1 == c.eventNumbers.end
    ensures w.preparePosition == c.preparePosition && w.commitPosition == c.commitPosition
  {
    var parts := RangeToParts(c.eventNumbers);
    CM.WriteEventsCompleted(Some(CM.Success), None, parts.0, parts.1, c.preparePosition, c.commitPosition)
  }

  /** `as_message_write` of a failure: its code, no message, event numbers
      -1 and -1, no positions. */
  function FailureToWire(f: WriteEventsFailure): (w: CM.WriteEventsCompleted)
    ensures w.result.Some? && FailureFromResult(w.result.value) == Ok(f)
    ensures w.message == None
    ensures w.firstEventNumber == -1 && w.lastEventNumber == -1
    ensures w.preparePosition == None && w.commitPosition == None
  {
    FailureResultBijection(f, f, FailureToResult(f));
    CM.WriteEventsCompleted(Some(FailureToResult(f)), None, -1, -1, None, None)
  }

  /** Either outcome as the wire record. */
  function OutcomeToWire(o: WriteOutcome): (w: CM.WriteEventsCompleted)
    requires o.Ok? ==> WireRepresentable(o.value.eventNumbers)
    ensures w.result.Some?
    ensures o.Ok? <==> w.result == Some(CM.Success)
  {
    match o
    case Ok(c) => CompletedToWire(c)
    case Err(f) => FailureToWire(f)
  }

  /** `From<client_messages::WriteEventsCompleted>`: `Success` gives the
      completed write, any other code the failure it names. A missing code,
      `InvalidTransaction`, or a last event number whose successor overflows
      is a malformed response (the source panics). */
  function OutcomeFromWire(w: CM.WriteEventsCompleted): (r: Result<WriteOutcome, Error>)
    ensures r.Err? ==> r.error == Malformed
    ensures r.Err? <==>
      (|| w.result.None?
       || w.result == Some(CM.InvalidTransaction)
       || (w.result == Some(CM.Success) && w.lastEventNumber == CM.I32_MAX))
    ensures r.Ok? && r.value.Ok? ==>
      var c := r.value.value;
      && w.result == Some(CM.Success)
      && WireRepresentable(c.eventNumbers)
      && RangeToParts(c.eventNumbers) == (w.firstEventNumber, w.lastEventNumber)
      && c.preparePosition == w.preparePosition
      && c.commitPosition == w.commitPosition
    ensures r.Ok? && r.value.Err? ==> w.result == Some(FailureToResult(r.value.error))
  {
    match w.result
    case None => Err(Malformed)
    case Some(code) =>
      if code == CM.Success then
        match RangeFromParts(w.firstEventNumber, w.lastEventNumber)
        case None => Err(Malformed)
        case Some(range) => Ok(Ok(WriteEventsCompleted(range, w.preparePosition, w.commitPosition)))
      else
        match FailureFromResult(code)
        case Err(e) => Err(e)
        case Ok(f) =>
          FailureResultBijection(f, f, code);
          Ok(Err(f))
  }

  /** Reading back what was written gives the original outcome, success or
      failure. */
  lemma OutcomeRoundTrip(o: WriteOutcome)
    requires o.Ok? ==> WireRepresentable(o.value.eventNumbers)
    ensures OutcomeFromWire(OutcomeToWire(o)) == Ok(o)
  {
    match o
    case Ok(c) =>
      var parts := RangeToParts(c.eventNumbers);
      RangeRoundTrip(parts.0, parts.1, c.eventNumbers);
    case Err(f) =>
      FailureResultBijection(f, f, FailureToResult(f));
  }

  /** The reply body of the write-events frame 22000000 83 00 9b59...3aa4
      0800181e20272884d6bc563084d6bc56, as its wire fields: code `Success`,
      events 30 to 39 inclusive, both positions 181349124. It reads as the
      completed write of events `30 .. 40`. */
  lemma WriteEventsCompletedVector()
    ensures OutcomeFromWire(CM.WriteEventsCompleted(Some(CM.Success), None, 30, 39, Some(181349124), Some(181349124)))
      == Ok(Ok(WriteEventsCompleted(Range(30, 40), Some(181349124), Some(181349124))))
  {
  }
}
