/** The current client (`pdf_processor/core.py`): the stored result keeps the
    archive as base64 text with its sha256 digest, `await_result` clears an
    incoming error, `parse_result` checks the digest, and `convert` stops on a
    truthy stored error (neither `None` nor empty). */
module MathpixCore {
  import opened Wrappers
  import opened PyText
  import opened Failures
  import opened LatexHelpers
  import opened Foreign
  import opened Polling
  import opened Reassembly

  /** `await_result`'s default `timeout_s`, the one `convert` uses. */
  const DefaultTimeoutS: int := 60

  const MissingZipMessage: string := "Missing tex.zip content. Did you call MathpixProcessor.await_result()?"
  const BrokenZipMessage: string := "tex.zip got broken during storage"

  /** The fields of a `MathpixResult`. */
  datatype CoreFields = CoreFields(
    srcPath: Option<string>,
    pdfId: Option<string>,
    zipB64: Option<string>,
    zipHash: Option<string>,
    error: Option<string>,
    errorInfo: Option<string>)

  /** `MathpixResult`: what the client knows about one submitted document. */
  class MathpixResult {
    var srcPath: Option<string>
    var pdfId: Option<string>
    var zipB64: Option<string>
    var zipHash: Option<string>
    var error: Option<string>
    var errorInfo: Option<string>

    constructor (srcPath: Option<string>)
      ensures Fields() == CoreFields(srcPath, None, None, None, None, None)
    {
      this.srcPath := srcPath;
      pdfId := None;
      zipB64 := None;
      zipHash := None;
      error := None;
      errorInfo := None;
    }

    function Fields(): CoreFields
      reads this
    {
      CoreFields(srcPath, pdfId, zipB64, zipHash, error, errorInfo)
    }
  }

  // ---------------------------------------------------------------------------
  // submit_pdf

  /** `submit_pdf`: a fresh result for the file, filled from the reply. */
  function Submit(pdfPath: string, reply: SubmitReply): (r: Result<CoreFields, Failure>)
    ensures r.Ok? <==> Submitted(reply).Ok?
    ensures r.Ok? ==>
      && r.value.srcPath == Some(pdfPath)
      && r.value.pdfId == Some(Submitted(reply).value.pdfId)
      && r.value.zipB64.None? && r.value.zipHash.None?
      && r.value.error == Submitted(reply).value.error
      && r.value.errorInfo == Submitted(reply).value.errorInfo
  {
    match Submitted(reply)
    case Err(e) => Err(e)
    case Ok(s) => Ok(CoreFields(Some(pdfPath), Some(s.pdfId), None, None, s.error, s.errorInfo))
  }

  method SubmitPdf(pdfPath: string, reply: SubmitReply) returns (r: Result<MathpixResult, Failure>)
    ensures match Submit(pdfPath, reply)
      case Err(e) => r == Err(e)
      case Ok(f) => r.Ok? && fresh(r.value) && r.value.Fields() == f
  {
    var mathpixResult := new MathpixResult(Some(pdfPath));
    match reply {
      case SubmitNotOk =>
        return Err(HttpError);
      case SubmitOk(pdfId, error, errorInfo) =>
        if pdfId.None? {
          return Err(MissingKey("pdf_id"));
        }
        mathpixResult.pdfId := pdfId;
        if error.Some? {
          mathpixResult.error := error;
          if errorInfo.None? {
            return Err(MissingKey("error_info"));
          }
          mathpixResult.errorInfo := errorInfo;
        }
    }
    return Ok(mathpixResult);
  }

  // ---------------------------------------------------------------------------
  // await_result

  /** `await_result`: clear the incoming error, poll until an exit, then download
      the archive when no error was set, storing its digest and base64 text. A
      `download` of `None` is a download request that raised. */
  function Awaited(before: CoreFields, trace: seq<Tick>, startTime: real, timeoutS: int, download: Option<Bytes>, lib: Library): Result<CoreFields, Failure> {
    var cleared := before.(error := None);
    match Run(trace, startTime, timeoutS)
    case Aborted => Err(HttpError)
    case Exhausted => Err(PollingNotFinished)
    case exit =>
      var polled := cleared.(error := ExitError(exit, timeoutS, cleared.error));
      if Truthy(polled.error) then Ok(polled)
      else
        match download
        case None => Err(DownloadFailed)
        case Some(content) => Ok(polled.(zipHash := Some(lib.sha256Hex(content)), zipB64 := Some(lib.b64encode(content))))
  }

  method AwaitResult(mathpixResult: MathpixResult, trace: seq<Tick>, startTime: real, timeoutS: int, download: Option<Bytes>, lib: Library)
    returns (r: Result<MathpixResult, Failure>)
    modifies mathpixResult
    ensures match Awaited(old(mathpixResult.Fields()), trace, startTime, timeoutS, download, lib)
      case Err(e) => r == Err(e) && mathpixResult.Fields() == old(mathpixResult.Fields()).(error := None)
      case Ok(f) => r == Ok(mathpixResult) && mathpixResult.Fields() == f
  {
    if mathpixResult.error.Some? {
      mathpixResult.error := None;
    }
    var i := 0;
    while i < |trace|
      invariant 0 <= i <= |trace|
      invariant Run(trace[i..], startTime, timeoutS) == Run(trace, startTime, timeoutS)
      invariant mathpixResult.Fields() == old(mathpixResult.Fields()).(error := None)
    {
      var tick := trace[i];
      assert trace[i..][0] == tick;
      if tick.clock - startTime > timeoutS as real {
        mathpixResult.error := Some(TimeoutMessage(timeoutS));
        break;
      }
      match tick.reply {
        case PollNotOk =>
          return Err(HttpError);
        case Status(status) =>
          if status == "error" {
            mathpixResult.error := Some(ServerErrorMessage);
            break;
          }
          if status == "completed" {
            break;
          }
      }
      assert trace[i..][1..] == trace[i + 1..];
      i := i + 1;
    }
    if i == |trace| {
      return Err(PollingNotFinished);
    }
    if mathpixResult.error.Some? && mathpixResult.error.value != "" {
      return Ok(mathpixResult);
    }
    if download.None? {
      return Err(DownloadFailed);
    }
    var content := download.value;
    mathpixResult.zipHash := Some(lib.sha256Hex(content));
    mathpixResult.zipB64 := Some(lib.b64encode(content));
    return Ok(mathpixResult);
  }

  /** Whatever error the result arrives with, `await_result` discards it. */
  lemma AwaitIgnoresIncomingError(before: CoreFields, e: Option<string>, trace: seq<Tick>, startTime: real, timeoutS: int, download: Option<Bytes>, lib: Library)
    ensures Awaited(before.(error := e), trace, startTime, timeoutS, download, lib) ==
      Awaited(before.(error := None), trace, startTime, timeoutS, download, lib)
  {
  }

  /** The loop's three exits: a timeout and a server error are stored as messages
      and skip the download; completion leaves no error and downloads. A non-ok
      reply aborts, and only a completed loop can reach the download. */
  lemma AwaitExits(before: CoreFields, trace: seq<Tick>, startTime: real, timeoutS: int, download: Option<Bytes>, lib: Library)
    ensures var r := Awaited(before, trace, startTime, timeoutS, download, lib);
      && (r.Ok? <==> Run(trace, startTime, timeoutS) in {TimedOut, ServerError} || (Run(trace, startTime, timeoutS) == Completed && download.Some?))
      && (Run(trace, startTime, timeoutS) == TimedOut ==>
           r == Ok(before.(error := Some("Processing has exceeded " + IntToString(timeoutS) + "s limit."))))
      && (Run(trace, startTime, timeoutS) == ServerError ==>
           r == Ok(before.(error := Some("An error occurred during processing on the server side."))))
      && (r.Ok? && r.value.error.None? <==> Run(trace, startTime, timeoutS) == Completed && download.Some?)
      && (r.Ok? && r.value.error.None? ==>
           r.value == before.(error := None, zipHash := Some(lib.sha256Hex(download.value)), zipB64 := Some(lib.b64encode(download.value))))
      && (Run(trace, startTime, timeoutS) == Aborted ==> r == Err(HttpError))
  {
  }

  // ---------------------------------------------------------------------------
  // parse_result

  /** `parse_result`: the stored archive must be present and match its digest;
      then the archive is parsed as in both variants. */
  function ParsedCore(f: CoreFields, models: Models, lib: Library): Result<PdfFields, Failure> {
    match f.zipB64
    case None => Err(AssertionFailed(MissingZipMessage))
    case Some(b64) =>
      match lib.b64decode(b64)
      case None => Err(InvalidBase64)
      case Some(zipBytes) =>
        if Some(lib.sha256Hex(zipBytes)) != f.zipHash then Err(AssertionFailed(BrokenZipMessage))
        else Parsed(zipBytes, f.pdfId, models, lib)
  }

  method ParseResult(mathpixResult: MathpixResult, models: Models, lib: Library) returns (r: Result<PdfResult, Failure>)
    ensures match ParsedCore(mathpixResult.Fields(), models, lib)
      case Err(e) => r == Err(e)
      case Ok(f) => r.Ok? && fresh(r.value) && r.value.Fields() == f
  {
    if mathpixResult.zipB64.None? {
      return Err(AssertionFailed(MissingZipMessage));
    }
    var zipBytes := lib.b64decode(mathpixResult.zipB64.value);
    if zipBytes.None? {
      return Err(InvalidBase64);
    }
    if Some(lib.sha256Hex(zipBytes.value)) != mathpixResult.zipHash {
      return Err(AssertionFailed(BrokenZipMessage));
    }
    r := ParseZip(zipBytes.value, mathpixResult.pdfId, models, lib);
  }

  /** The three assertions of `parse_result`: no stored archive, a stored archive
      whose digest differs, and no ".tex" entry; every other failure comes from
      the archive itself. */
  lemma ParseAssertions(f: CoreFields, models: Models, lib: Library)
    ensures f.zipB64.None? ==>
      ParsedCore(f, models, lib) == Err(AssertionFailed("Missing tex.zip content. Did you call MathpixProcessor.await_result()?"))
    ensures f.zipB64.Some? && lib.b64decode(f.zipB64.value).Some? && Some(lib.sha256Hex(lib.b64decode(f.zipB64.value).value)) != f.zipHash ==>
      ParsedCore(f, models, lib) == Err(AssertionFailed("tex.zip got broken during storage"))
    ensures f.zipB64.Some? && lib.b64decode(f.zipB64.value).Some? ==>
      var zipBytes := lib.b64decode(f.zipB64.value).value;
      Some(lib.sha256Hex(zipBytes)) == f.zipHash &&
      lib.openZip(zipBytes).Some? && FirstTex(Names(lib.openZip(zipBytes).value)).None? ==>
      ParsedCore(f, models, lib) == Err(AssertionFailed("Could not find .tex file in tex.zip"))
    ensures ParsedCore(f, models, lib).Err? ==>
      var e := ParsedCore(f, models, lib).error;
      || e == AssertionFailed("Missing tex.zip content. Did you call MathpixProcessor.await_result()?")
      || e == AssertionFailed("tex.zip got broken during storage")
      || e == AssertionFailed("Could not find .tex file in tex.zip")
      || e in {InvalidBase64, BadZipFile, UnicodeDecodeError}
      || e.MissingFilenameArgument? || e.MissingArchiveEntry?
  {
    if f.zipB64.Some? && lib.b64decode(f.zipB64.value).Some? {
      var zipBytes := lib.b64decode(f.zipB64.value).value;
      if Some(lib.sha256Hex(zipBytes)) == f.zipHash && Parsed(zipBytes, f.pdfId, models, lib).Err? {
        ParsedFailures(zipBytes, f.pdfId, models, lib);
      }
    }
  }

  /** The download stores the digest and the base64 text of the same bytes, so a
      result left untouched after `await_result` passes both checks and parses
      the downloaded archive, provided base64 decodes what it encoded. */
  lemma UntouchedResultPassesChecks(before: CoreFields, trace: seq<Tick>, startTime: real, timeoutS: int, content: Bytes, models: Models, lib: Library)
    requires DecodesBack(lib, content)
    requires Run(trace, startTime, timeoutS) == Completed
    ensures var r := Awaited(before, trace, startTime, timeoutS, Some(content), lib);
      && r.Ok?
      && ParsedCore(r.value, models, lib) == Parsed(content, before.pdfId, models, lib)
  {
  }

  // ---------------------------------------------------------------------------
  // The image step of parse_result

  /** The image step as written: after fetching the image it assigns the
      undeclared field `file_b64` on the chunk, which the chunk model rejects. */
  function ImageStepAsWritten(c: LatexChunk, pdfId: Option<string>, archive: Archive, models: Models): Result<LatexChunk, Failure>
    requires c.kind == Image
  {
    match FetchImg(archive, ImagePath(pdfId, c.filename))
    case Err(e) => Err(e)
    case Ok(_) => Err(UndeclaredField("file_b64"))
  }

  /** Chunk conversion as written: text and tables as in `ProcessChunk`, images
      through `ImageStepAsWritten`. */
  function ProcessChunkAsWritten(c: LatexChunk, pdfId: Option<string>, archive: Archive, models: Models): Result<LatexChunk, Failure> {
    if c.kind == Image then ImageStepAsWritten(c, pdfId, archive, models)
    else ProcessChunk(c, pdfId, archive, models)
  }

  /** The chunk loop as written. */
  function ProcessAllAsWritten(cs: seq<LatexChunk>, pdfId: Option<string>, archive: Archive, models: Models): Result<Converted, Failure>
    decreases |cs|
  {
    if cs == [] then Ok(Converted([], [], [], []))
    else
      match ProcessAllAsWritten(cs[..|cs| - 1], pdfId, archive, models)
      case Err(e) => Err(e)
      case Ok(cv) =>
        match ProcessChunkAsWritten(cs[|cs| - 1], pdfId, archive, models)
        case Err(e) => Err(e)
        case Ok(c) => Ok(Place(cv, c))
  }

  /** As written, the chunk loop fails on every document with an image, even when
      the image is in the archive; on documents without images it agrees with
      the corrected loop. */
  lemma {:induction false} AsWrittenFailsOnEveryImage(cs: seq<LatexChunk>, pdfId: Option<string>, archive: Archive, models: Models)
    ensures ProcessAllAsWritten(cs, pdfId, archive, models).Ok? <==> forall k :: 0 <= k < |cs| ==> cs[k].kind != Image
    ensures (forall k :: 0 <= k < |cs| ==> cs[k].kind != Image) ==>
      ProcessAllAsWritten(cs, pdfId, archive, models) == ProcessAll(cs, pdfId, archive, models)
    decreases |cs|
  {
    if cs != [] {
      var init := cs[..|cs| - 1];
      AsWrittenFailsOnEveryImage(init, pdfId, archive, models);
      assert forall k :: 0 <= k < |init| ==> init[k] == cs[k];
      if cs[|cs| - 1].kind == Image {
        assert ProcessChunkAsWritten(cs[|cs| - 1], pdfId, archive, models).Err?;
      }
    }
  }

  /** A one-image document whose image is in the archive: the corrected step
      converts it, the step as written raises. */
  lemma ImageInArchiveFailsAsWritten(pdfId: Option<string>, filename: string, img: Bytes, models: Models)
    ensures var c := LatexChunk(0, 20, Image, Some(filename), Some("\\includegraphics{x}"), None);
      var archive := Archive([(ImagePath(pdfId, Some(filename)), img)]);
      && ProcessChunk(c, pdfId, archive, models).Ok?
      && ImageStepAsWritten(c, pdfId, archive, models) == Err(UndeclaredField("file_b64"))
  {
    var archive := Archive([(ImagePath(pdfId, Some(filename)), img)]);
    assert Names(archive)[0] == ImagePath(pdfId, Some(filename));
  }

  // ---------------------------------------------------------------------------
  // convert

  /** `convert`: submit, stop on a stored error, await with the default timeout,
      stop on a stored error, parse. */
  function Conversion(pdfPath: string, reply: SubmitReply, trace: seq<Tick>, startTime: real, download: Option<Bytes>, models: Models, lib: Library): Result<PdfFields, Failure> {
    match Submit(pdfPath, reply)
    case Err(e) => Err(e)
    case Ok(submitted) =>
      if Truthy(submitted.error) then Err(ProcessingError(submitted.error.value))
      else
        match Awaited(submitted, trace, startTime, DefaultTimeoutS, download, lib)
        case Err(e) => Err(e)
        case Ok(awaited) =>
          if Truthy(awaited.error) then Err(ProcessingError(awaited.error.value))
          else ParsedCore(awaited, models, lib)
  }

  method Convert(pdfPath: string, reply: SubmitReply, trace: seq<Tick>, startTime: real, download: Option<Bytes>, models: Models, lib: Library)
    returns (r: Result<PdfResult, Failure>)
    ensures match Conversion(pdfPath, reply, trace, startTime, download, models, lib)
      case Err(e) => r == Err(e)
      case Ok(f) => r.Ok? && r.value.Fields() == f
  {
    var submitted := SubmitPdf(pdfPath, reply);
    if submitted.Err? {
      return Err(submitted.error);
    }
    var mathpixResult := submitted.value;
    if mathpixResult.error.Some? && mathpixResult.error.value != "" {
      return Err(ProcessingError(mathpixResult.error.value));
    }
    var awaited := AwaitResult(mathpixResult, trace, startTime, DefaultTimeoutS, download, lib);
    if awaited.Err? {
      return Err(awaited.error);
    }
    mathpixResult := awaited.value;
    if mathpixResult.error.Some? && mathpixResult.error.value != "" {
      return Err(ProcessingError(mathpixResult.error.value));
    }
    r := ParseResult(mathpixResult, models, lib);
  }

  /** `convert` raises `MathpixProcessingError` with the stored message when the
      server reports an error on submission, when polling times out, or when the
      server reports a processing error. */
  lemma ConvertRaisesOnError(pdfPath: string, reply: SubmitReply, trace: seq<Tick>, startTime: real, download: Option<Bytes>, models: Models, lib: Library)
    requires Submitted(reply).Ok?
    ensures Truthy(Submitted(reply).value.error) ==>
      Conversion(pdfPath, reply, trace, startTime, download, models, lib) == Err(ProcessingError(Submitted(reply).value.error.value))
    ensures !Truthy(Submitted(reply).value.error) && Run(trace, startTime, DefaultTimeoutS) == TimedOut ==>
      Conversion(pdfPath, reply, trace, startTime, download, models, lib) == Err(ProcessingError("Processing has exceeded 60s limit."))
    ensures !Truthy(Submitted(reply).value.error) && Run(trace, startTime, DefaultTimeoutS) == ServerError ==>
      Conversion(pdfPath, reply, trace, startTime, download, models, lib) == Err(ProcessingError(ServerErrorMessage))
  {
    DefaultTimeoutMessage();
  }

  /** The timeout message `convert` raises with. */
  lemma DefaultTimeoutMessage()
    ensures TimeoutMessage(DefaultTimeoutS) == "Processing has exceeded 60s limit."
  {
    assert IntToString(60) == "60" by {
      assert NatToString(6) == [DigitChar(6)] == "6";
      assert NatToString(60) == NatToString(6) + [DigitChar(0)];
    }
  }

  /** `convert` returns a result only after a completed poll and a download, and
      then it is the parse of the downloaded archive itself: the digest check
      cannot fail on the way, provided base64 decodes what it encoded. */
  lemma ConvertParsesDownload(pdfPath: string, reply: SubmitReply, trace: seq<Tick>, startTime: real, download: Option<Bytes>, models: Models, lib: Library)
    requires Conversion(pdfPath, reply, trace, startTime, download, models, lib).Ok?
    requires download.Some? ==> DecodesBack(lib, download.value)
    ensures Run(trace, startTime, DefaultTimeoutS) == Completed && download.Some?
    ensures Conversion(pdfPath, reply, trace, startTime, download, models, lib) ==
      Parsed(download.value, Some(Submitted(reply).value.pdfId), models, lib)
  {
  }

  /** Conversely, after a submission with no error, a completed poll and a
      download, `convert` ends as parsing the downloaded archive ends, with its
      result or its exception, provided base64 decodes what it encoded. */
  lemma ConvertReachesParse(pdfPath: string, reply: SubmitReply, trace: seq<Tick>, startTime: real, download: Option<Bytes>, models: Models, lib: Library)
    requires Submitted(reply).Ok? && !Truthy(Submitted(reply).value.error)
    requires Run(trace, startTime, DefaultTimeoutS) == Completed
    requires download.Some? && DecodesBack(lib, download.value)
    ensures Conversion(pdfPath, reply, trace, startTime, download, models, lib) ==
      Parsed(download.value, Some(Submitted(reply).value.pdfId), models, lib)
  {
  }
}
