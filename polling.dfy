/** The OCR service as the client sees it: the reply to a submission, and the
    status-polling loop driven by a finite trace of clock readings and replies.
    Both client variants share these definitions. */
module Polling {
  import opened Wrappers
  import opened PyText
  import opened Failures

  /** The reply to the submission request. For an ok reply, the keys of its JSON
      body that the client reads; each may be absent. */
  datatype SubmitReply =
    | SubmitOk(pdfId: Option<string>, error: Option<string>, errorInfo: Option<string>)
    | SubmitNotOk

  /** What `submit_pdf` stores from an ok reply. */
  datatype Submission = Submission(pdfId: string, error: Option<string>, errorInfo: Option<string>)

  /** `submit_pdf` on a reply: `pdf_id` is required; when the body has an "error"
      key, the error and its "error_info" are copied. */
  function Submitted(reply: SubmitReply): (r: Result<Submission, Failure>)
    ensures r.Ok? <==> reply.SubmitOk? && reply.pdfId.Some? && (reply.error.Some? ==> reply.errorInfo.Some?)
    ensures r.Ok? ==> r.value.pdfId == reply.pdfId.value && r.value.error == reply.error
    ensures r.Ok? ==> r.value.errorInfo == if reply.error.Some? then reply.errorInfo else None
    ensures reply.SubmitNotOk? ==> r == Err(HttpError)
  {
    match reply
    case SubmitNotOk => Err(HttpError)
    case SubmitOk(id, err, info) =>
      if id.None? then Err(MissingKey("pdf_id"))
      else if err.None? then Ok(Submission(id.value, None, None))
      else if info.None? then Err(MissingKey("error_info"))
      else Ok(Submission(id.value, err, info))
  }

  /** The reply to one status request: an ok reply with its "status", or not ok. */
  datatype PollReply = Status(status: string) | PollNotOk

  /** One iteration of the polling loop: the clock reading taken at its start and
      the reply to the status request it would send. */
  datatype Tick = Tick(clock: real, reply: PollReply)

  /** How the polling loop ends. `Aborted` is a non-ok reply, which escapes as an
      exception; `Exhausted` means the trace ended while the loop would go on. */
  datatype Exit = TimedOut | ServerError | Completed | Aborted | Exhausted

  predicate Expired(t: Tick, startTime: real, timeoutS: int) {
    t.clock - startTime > timeoutS as real
  }

  /** The tick neither times out nor ends the loop. */
  predicate KeepsPolling(t: Tick, startTime: real, timeoutS: int) {
    && !Expired(t, startTime, timeoutS)
    && t.reply.Status?
    && t.reply.status != "error"
    && t.reply.status != "completed"
  }

  /** The polling loop of `await_result` over a trace. */
  function Run(trace: seq<Tick>, startTime: real, timeoutS: int): Exit
    decreases |trace|
  {
    if trace == [] then Exhausted
    else
      var t := trace[0];
      if Expired(t, startTime, timeoutS) then TimedOut
      else match t.reply
        case PollNotOk => Aborted
        case Status(status) =>
          if status == "error" then ServerError
          else if status == "completed" then Completed
          else Run(trace[1..], startTime, timeoutS)
  }

  /** The loop stops at tick `k`: every earlier tick kept it polling. */
  ghost predicate StopsAt(trace: seq<Tick>, k: int, startTime: real, timeoutS: int) {
    && 0 <= k < |trace|
    && (forall j :: 0 <= j < k ==> KeepsPolling(trace[j], startTime, timeoutS))
    && !KeepsPolling(trace[k], startTime, timeoutS)
  }

  /** Index of the first tick that does not keep the loop polling. */
  function FirstStop(trace: seq<Tick>, startTime: real, timeoutS: int): (k: nat)
    ensures k <= |trace|
    ensures forall j :: 0 <= j < k ==> KeepsPolling(trace[j], startTime, timeoutS)
    ensures k < |trace| ==> !KeepsPolling(trace[k], startTime, timeoutS)
    decreases |trace|
  {
    if trace == [] || !KeepsPolling(trace[0], startTime, timeoutS) then 0
    else 1 + FirstStop(trace[1..], startTime, timeoutS)
  }

  /** How a tick that stops the loop ends it. */
  function StopExit(t: Tick, startTime: real, timeoutS: int): Exit {
    if Expired(t, startTime, timeoutS) then TimedOut
    else if t.reply.PollNotOk? then Aborted
    else if t.reply.status == "error" then ServerError
    else Completed
  }

  lemma {:induction false} RunStopsAtFirstStop(trace: seq<Tick>, startTime: real, timeoutS: int)
    ensures var k := FirstStop(trace, startTime, timeoutS);
      Run(trace, startTime, timeoutS) == if k < |trace| then StopExit(trace[k], startTime, timeoutS) else Exhausted
    decreases |trace|
  {
    if trace != [] && KeepsPolling(trace[0], startTime, timeoutS) {
      RunStopsAtFirstStop(trace[1..], startTime, timeoutS);
    }
  }

  lemma StopsAtIsFirstStop(trace: seq<Tick>, k: int, startTime: real, timeoutS: int)
    requires StopsAt(trace, k, startTime, timeoutS)
    ensures k == FirstStop(trace, startTime, timeoutS)
  {
  }

  /** The loop exits on exactly three conditions, each at the first tick that
      does not keep it polling: elapsed time strictly above the timeout, the
      status "error", or the status "completed" (a non-ok reply aborts it). */
  lemma RunExits(trace: seq<Tick>, startTime: real, timeoutS: int)
    ensures Run(trace, startTime, timeoutS) == TimedOut <==>
      exists k :: StopsAt(trace, k, startTime, timeoutS) && Expired(trace[k], startTime, timeoutS)
    ensures Run(trace, startTime, timeoutS) == ServerError <==>
      exists k :: StopsAt(trace, k, startTime, timeoutS) && !Expired(trace[k], startTime, timeoutS)
        && trace[k].reply == Status("error")
    ensures Run(trace, startTime, timeoutS) == Completed <==>
      exists k :: StopsAt(trace, k, startTime, timeoutS) && !Expired(trace[k], startTime, timeoutS)
        && trace[k].reply == Status("completed")
    ensures Run(trace, startTime, timeoutS) == Aborted <==>
      exists k :: StopsAt(trace, k, startTime, timeoutS) && !Expired(trace[k], startTime, timeoutS)
        && trace[k].reply == PollNotOk
    ensures Run(trace, startTime, timeoutS) == Exhausted <==>
      forall j :: 0 <= j < |trace| ==> KeepsPolling(trace[j], startTime, timeoutS)
  {
    var k := FirstStop(trace, startTime, timeoutS);
    RunStopsAtFirstStop(trace, startTime, timeoutS);
    if k < |trace| {
      assert StopsAt(trace, k, startTime, timeoutS);
    }
    forall k' | StopsAt(trace, k', startTime, timeoutS)
      ensures k' == k
    {
      StopsAtIsFirstStop(trace, k', startTime, timeoutS);
    }
  }

  /** A timeout is reported no earlier than the configured limit: some clock
      reading exceeded it, and every earlier reading did not. */
  lemma TimeoutNotEarly(trace: seq<Tick>, startTime: real, timeoutS: int)
    requires Run(trace, startTime, timeoutS) == TimedOut
    ensures exists k ::
      && 0 <= k < |trace|
      && trace[k].clock - startTime > timeoutS as real
      && (forall j :: 0 <= j < k ==> trace[j].clock - startTime <= timeoutS as real)
  {
    RunExits(trace, startTime, timeoutS);
  }

  /** The error message of a timed-out loop. */
  function TimeoutMessage(timeoutS: int): string {
    "Processing has exceeded " + IntToString(timeoutS) + "s limit."
  }

  const ServerErrorMessage: string := "An error occurred during processing on the server side."

  /** The `error` field once the loop has ended with `exit`, starting from `error`. */
  function ExitError(exit: Exit, timeoutS: int, error: Option<string>): Option<string> {
    match exit
    case TimedOut => Some(TimeoutMessage(timeoutS))
    case ServerError => Some(ServerErrorMessage)
    case _ => error
  }
}
