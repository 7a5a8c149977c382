/** The older client (`pdf_parser/pdf_processor.py`): the stored result keeps
    the archive bytes themselves, `await_result` keeps an incoming error,
    `parse_result` has no digest check, and `convert` chains the three steps
    without looking at the stored error. */
module MathpixLegacy {
  import opened Wrappers
  import opened PyText
  import opened Failures
  import opened LatexHelpers
  import opened Foreign
  import opened Polling
  import opened Reassembly

  /** `await_result`'s default `timeout_s`, the one `convert` uses. */
  const DefaultTimeoutS: int := 60

  const MissingZipMessage: string := "Missing tex.zip content. Did you call MathpixProcessor.await_result()?"

  /** The fields of a `MathpixResult`. */
  datatype LegacyFields = LegacyFields(
    srcPath: Option<string>,
    pdfId: Option<string>,
    zipBytes: Option<Bytes>,
    error: Option<string>,
    errorInfo: Option<string>)

  class MathpixResult {
    var srcPath: Option<string>
    var pdfId: Option<string>
    var zipBytes: Option<Bytes>
    var error: Option<string>
    var errorInfo: Option<string>

    constructor (srcPath: Option<string>)
      ensures Fields() == LegacyFields(srcPath, None, None, None, None)
    {
      this.srcPath := srcPath;
      pdfId := None;
      zipBytes := None;
      error := None;
      errorInfo := None;
    }

    function Fields(): LegacyFields
      reads this
    {
      LegacyFields(srcPath, pdfId, zipBytes, error, errorInfo)
    }
  }

  // ---------------------------------------------------------------------------
  // submit_pdf

  /** `submit_pdf`: a fresh result for the file, filled from the reply. */
  function Submit(pdfPath: string, reply: SubmitReply): (r: Result<LegacyFields, Failure>)
    ensures r.Ok? <==> Submitted(reply).Ok?
    ensures r.Ok? ==>
      && r.value.srcPath == Some(pdfPath)
      && r.value.pdfId == Some(Submitted(reply).value.pdfId)
      && r.value.zipBytes.None?
      && r.value.error == Submitted(reply).value.error
      && r.value.errorInfo == Submitted(reply).value.errorInfo
  {
    match Submitted(reply)
    case Err(e) => Err(e)
    case Ok(s) => Ok(LegacyFields(Some(pdfPath), Some(s.pdfId), None, s.error, s.errorInfo))
  }

  method SubmitPdf(pdfPath: string, reply: SubmitReply) returns (r: Result<MathpixResult, Failure>)
    ensures match Submit(pdfPath, reply)
      case Err(e) => r == Err(e)
      case Ok(f) => r.Ok? && fresh(r.value) && r.value.Fields() == f
  {
    var mathpixResult := new MathpixResult(Some(pdfPath));
    match reply {
      case SubmitNotOk =>
        return Err(HttpError);
      case SubmitOk(pdfId, error, errorInfo) =>
        if pdfId.None? {
          return Err(MissingKey("pdf_id"));
        }
        mathpixResult.pdfId := pdfId;
        if error.Some? {
          mathpixResult.error := error;
          if errorInfo.None? {
            return Err(MissingKey("error_info"));
          }
          mathpixResult.errorInfo := errorInfo;
        }
    }
    return Ok(mathpixResult);
  }

  // ---------------------------------------------------------------------------
  // await_result

  /** `await_result`: poll until an exit, keeping whatever error the result
      arrived with unless the loop sets its own, then download the archive bytes
      when no error is set. */
  function Awaited(before: LegacyFields, trace: seq<Tick>, startTime: real, timeoutS: int, download: Option<Bytes>): Result<LegacyFields, Failure> {
    match Run(trace, startTime, timeoutS)
    case Aborted => Err(HttpError)
    case Exhausted => Err(PollingNotFinished)
    case exit =>
      var polled := before.(error := ExitError(exit, timeoutS, before.error));
      if Truthy(polled.error) then Ok(polled)
      else
        match download
        case None => Err(DownloadFailed)
        case Some(content) => Ok(polled.(zipBytes := Some(content)))
  }

  method AwaitResult(mathpixResult: MathpixResult, trace: seq<Tick>, startTime: real, timeoutS: int, download: Option<Bytes>)
    returns (r: Result<MathpixResult, Failure>)
    modifies mathpixResult
    ensures match Awaited(old(mathpixResult.Fields()), trace, startTime, timeoutS, download)
      case Err(e) => r == Err(e) && mathpixResult.Fields() == old(mathpixResult.Fields())
      case Ok(f) => r == Ok(mathpixResult) && mathpixResult.Fields() == f
  {
    var i := 0;
    while i < |trace|
      invariant 0 <= i <= |trace|
      invariant Run(trace[i..], startTime, timeoutS) == Run(trace, startTime, timeoutS)
      invariant mathpixResult.Fields() == old(mathpixResult.Fields())
    {
      var tick := trace[i];
      assert trace[i..][0] == tick;
      if tick.clock - startTime > timeoutS as real {
        mathpixResult.error := Some(TimeoutMessage(timeoutS));
        break;
      }
      match tick.reply {
        case PollNotOk =>
          return Err(HttpError);
        case Status(status) =>
          if status == "error" {
            mathpixResult.error := Some(ServerErrorMessage);
            break;
          }
          if status == "completed" {
            break;
          }
      }
      assert trace[i..][1..] == trace[i + 1..];
      i := i + 1;
    }
    if i == |trace| {
      return Err(PollingNotFinished);
    }
    if mathpixResult.error.Some? && mathpixResult.error.value != "" {
      return Ok(mathpixResult);
    }
    if download.None? {
      return Err(DownloadFailed);
    }
    mathpixResult.zipBytes := download;
    return Ok(mathpixResult);
  }

  /** Without the clearing, an error stored by `submit_pdf` survives a completed
      poll and suppresses the download. */
  lemma SubmitErrorPersists(before: LegacyFields, trace: seq<Tick>, startTime: real, timeoutS: int, download: Option<Bytes>)
    requires Truthy(before.error)
    requires Run(trace, startTime, timeoutS) == Completed
    ensures Awaited(before, trace, startTime, timeoutS, download) == Ok(before)
    ensures Awaited(before, trace, startTime, timeoutS, download).value.zipBytes == before.zipBytes
  {
  }

  /** The same three exits as the current client: a timeout or a server error
      replaces the stored error with its message and skips the download; a
      completed poll downloads the raw bytes exactly when no error is stored. */
  lemma AwaitExits(before: LegacyFields, trace: seq<Tick>, startTime: real, timeoutS: int, download: Option<Bytes>)
    ensures var r := Awaited(before, trace, startTime, timeoutS, download);
      && (Run(trace, startTime, timeoutS) == TimedOut ==>
           r == Ok(before.(error := Some("Processing has exceeded " + IntToString(timeoutS) + "s limit."))))
      && (Run(trace, startTime, timeoutS) == ServerError ==>
           r == Ok(before.(error := Some("An error occurred during processing on the server side."))))
      && (Run(trace, startTime, timeoutS) == Completed && !Truthy(before.error) ==>
           r == if download.Some? then Ok(before.(zipBytes := download)) else Err(DownloadFailed))
      && (r.Ok? && r.value.zipBytes != before.zipBytes ==>
           Run(trace, startTime, timeoutS) == Completed && !Truthy(before.error) && r.value.zipBytes == download)
      && (Run(trace, startTime, timeoutS) == Aborted ==> r == Err(HttpError))
  {
  }

  // ---------------------------------------------------------------------------
  // parse_result

  /** `parse_result`: the archive bytes must be present; there is no digest
      check. */
  function ParsedLegacy(f: LegacyFields, models: Models, lib: Library): Result<PdfFields, Failure> {
    match f.zipBytes
    case None => Err(AssertionFailed(MissingZipMessage))
    case Some(zipBytes) => Parsed(zipBytes, f.pdfId, models, lib)
  }

  method ParseResult(mathpixResult: MathpixResult, models: Models, lib: Library) returns (r: Result<PdfResult, Failure>)
    ensures match ParsedLegacy(mathpixResult.Fields(), models, lib)
      case Err(e) => r == Err(e)
      case Ok(f) => r.Ok? && fresh(r.value) && r.value.Fields() == f
  {
    if mathpixResult.zipBytes.None? {
      return Err(AssertionFailed(MissingZipMessage));
    }
    r := ParseZip(mathpixResult.zipBytes.value, mathpixResult.pdfId, models, lib);
  }

  /** The two assertions of `parse_result`: no archive bytes, and no ".tex"
      entry; stored bytes are parsed as they are, whatever else the result
      holds. */
  lemma ParseAssertions(f: LegacyFields, models: Models, lib: Library)
    ensures f.zipBytes.None? ==>
      ParsedLegacy(f, models, lib) == Err(AssertionFailed("Missing tex.zip content. Did you call MathpixProcessor.await_result()?"))
    ensures f.zipBytes.Some? ==>
      ParsedLegacy(f, models, lib) == ParsedLegacy(LegacyFields(None, f.pdfId, f.zipBytes, None, None), models, lib)
    ensures f.zipBytes.Some? && lib.openZip(f.zipBytes.value).Some? && FirstTex(Names(lib.openZip(f.zipBytes.value).value)).None? ==>
      ParsedLegacy(f, models, lib) == Err(AssertionFailed("Could not find .tex file in tex.zip"))
    ensures ParsedLegacy(f, models, lib).Err? ==>
      var e := ParsedLegacy(f, models, lib).error;
      || e == AssertionFailed("Missing tex.zip content. Did you call MathpixProcessor.await_result()?")
      || e == AssertionFailed("Could not find .tex file in tex.zip")
      || e in {BadZipFile, UnicodeDecodeError}
      || e.MissingFilenameArgument? || e.MissingArchiveEntry?
  {
    if f.zipBytes.Some? && Parsed(f.zipBytes.value, f.pdfId, models, lib).Err? {
      ParsedFailures(f.zipBytes.value, f.pdfId, models, lib);
    }
  }

  // ---------------------------------------------------------------------------
  // convert

  /** `convert`: submit, await with the default timeout, parse. */
  function Conversion(pdfPath: string, reply: SubmitReply, trace: seq<Tick>, startTime: real, download: Option<Bytes>, models: Models, lib: Library): Result<PdfFields, Failure> {
    match Submit(pdfPath, reply)
    case Err(e) => Err(e)
    case Ok(submitted) =>
      match Awaited(submitted, trace, startTime, DefaultTimeoutS, download)
      case Err(e) => Err(e)
      case Ok(awaited) => ParsedLegacy(awaited, models, lib)
  }

  method Convert(pdfPath: string, reply: SubmitReply, trace: seq<Tick>, startTime: real, download: Option<Bytes>, models: Models, lib: Library)
    returns (r: Result<PdfResult, Failure>)
    ensures match Conversion(pdfPath, reply, trace, startTime, download, models, lib)
      case Err(e) => r == Err(e)
      case Ok(f) => r.Ok? && r.value.Fields() == f
  {
    var submitted := SubmitPdf(pdfPath, reply);
    if submitted.Err? {
      return Err(submitted.error);
    }
    var mathpixResult := submitted.value;
    var awaited := AwaitResult(mathpixResult, trace, startTime, DefaultTimeoutS, download);
    if awaited.Err? {
      return Err(awaited.error);
    }
    mathpixResult := awaited.value;
    r := ParseResult(mathpixResult, models, lib);
  }

  /** With no error checks in `convert`, a failed result reaches `parse_result`:
      a submission error, a timeout or a server error all end in the missing
      archive assertion instead of an error carrying the message. */
  lemma FailedResultReachesParse(pdfPath: string, reply: SubmitReply, trace: seq<Tick>, startTime: real, download: Option<Bytes>, models: Models, lib: Library)
    requires Submitted(reply).Ok?
    requires
      || Run(trace, startTime, DefaultTimeoutS) in {TimedOut, ServerError}
      || (Run(trace, startTime, DefaultTimeoutS) == Completed && Truthy(Submitted(reply).value.error))
    ensures Conversion(pdfPath, reply, trace, startTime, download, models, lib) ==
      Err(AssertionFailed("Missing tex.zip content. Did you call MathpixProcessor.await_result()?"))
  {
  }

  /** A result is returned only after a completed poll with no submission error
      and a download, and it is the parse of the downloaded bytes. */
  lemma ConvertParsesDownload(pdfPath: string, reply: SubmitReply, trace: seq<Tick>, startTime: real, download: Option<Bytes>, models: Models, lib: Library)
    requires Conversion(pdfPath, reply, trace, startTime, download, models, lib).Ok?
    ensures Run(trace, startTime, DefaultTimeoutS) == Completed
    ensures !Truthy(Submitted(reply).value.error) && download.Some?
    ensures Conversion(pdfPath, reply, trace, startTime, download, models, lib) ==
      Parsed(download.value, Some(Submitted(reply).value.pdfId), models, lib)
  {
  }

  /** Conversely, after a submission with no error, a completed poll and a
      download, `convert` ends as parsing the downloaded bytes ends, with its
      result or its exception. */
  lemma ConvertReachesParse(pdfPath: string, reply: SubmitReply, trace: seq<Tick>, startTime: real, download: Option<Bytes>, models: Models, lib: Library)
    requires Submitted(reply).Ok? && !Truthy(Submitted(reply).value.error)
    requires Run(trace, startTime, DefaultTimeoutS) == Completed
    requires download.Some?
    ensures Conversion(pdfPath, reply, trace, startTime, download, models, lib) ==
      Parsed(download.value, Some(Submitted(reply).value.pdfId), models, lib)
  {
  }
}
