# Mathpix PDF conversion client, modelled in Dafny

This project models the PDF-to-text client of the Retrieval-Framework. The
client works in three stages:

1. It submits a PDF to the Mathpix OCR service.
2. It polls the service until processing ends, then downloads the LaTeX
   archive (`tex.zip`).
3. It parses the archive. The LaTeX source is cut into text, table and image
   chunks. Tables go to a text model and images to a vision model, and their
   outputs are wrapped in delimiters. All chunks are joined in document order
   and passed through a cleanup step.

The model covers three pieces of the source:

- the LaTeX segmenter, `pdf_processor/latex_helpers.py`;
- the current client, `pdf_processor/core.py`. It stores the archive as base64
  text together with its sha256 digest, clears an incoming error before
  polling, checks the digest before parsing, and `convert` stops when the stored
  error is truthy (neither `None` nor empty; an empty error does not stop it);
- the older client, `pdf_parser/pdf_processor.py`. It stores the raw bytes, has
  no error clearing and no digest check, and its `convert` chains the three
  steps without checks.

Modules:

- `Wrappers`: `Option` and `Result`.
- `Failures`: the exceptions the pipeline can raise, as values.
- `PyText`: the Python string behaviour the code relies on:
  - clamped slicing;
  - `str(None)` inside an f-string;
  - truthiness of an optional string;
  - `str(int)`;
  - `"".join`, which fails on a `None` part.
- `LatexHelpers`: the chunk type and `LatexChunk`, the walker's node tree, the
  archive as a list of named entries, `fetch_tex_filename`, `fetch_img`,
  `extract_chunks` and `get_latex_chunks`.
- `Foreign`: the code the client calls but which is not part of this model,
  passed in as functions:
  - the table and vision models;
  - `zipfile`, UTF-8 decoding, `LatexWalker`;
  - the cleanup pass;
  - base64 and sha256.

  The round trip of base64 is never assumed. Lemmas that need it take
  `DecodesBack(lib, bytes)` as a hypothesis.
- `Polling`: the submission reply and the status-polling loop. Both clients
  share them.
  - The clock and the replies are a finite trace of `Tick(clock, reply)`: one
    tick per loop iteration, with the clock reading and the status reply that
    iteration would see.
  - `Run` gives how the loop ends.
- `Reassembly`: the delimiters, the conversion of one chunk, the chunk loop
  over a mutable `PdfResult`, and `parse_result` from the archive bytes on.
  Both clients use these, with the image step of the older client
  (pdf_parser/pdf_processor.py:200-206). The current client as written
  differs in one line, pdf_processor/core.py:251, which raises on every image
  (see "## Findings"). That line is modelled on its own in `MathpixCore`
  (`ProcessAllAsWritten`), and the rest of `MathpixCore` uses the corrected
  step. The "## Model" rows of the shared chunk loop and parse therefore
  cite pdf_parser/pdf_processor.py, which they match as written.
- `MathpixCore` and `MathpixLegacy`: a `MathpixResult` class per client, with
  `submit_pdf`, `await_result`, `parse_result` and `convert`.

Each imperative operation is modelled twice:

- a `method` that works as the source does (loops with `break`, in-place field
  updates, list appends);
- a specification function (`Segment`, `ProcessAll`, `Parsed`, `Awaited`,
  `ParsedCore`, `Conversion`, …). The method's `ensures` ties it to this
  function.

The properties are lemmas about those functions.

Where the documentation and the code disagree, the model follows the code:

- The delimiters carry an extra line break on each side of the converter's
  output. A table becomes
  `"\n<===TABLE START===>\n\n" + out + "\n\n<===TABLE END===>\n"`, because the
  f-string adds `"\n"` after the start delimiter and before the end delimiter
  (pdf_processor/core.py:244-246).
- The filename of an `\includegraphics` is read from `nodeargs[0]`, as written,
  whatever the walker puts there (pdf_processor/latex_helpers.py:69).
- `pdf_parser/pdf_processor.py` imports `pdf_parser.latex_helpers`, which is
  not part of this model. The older client is modelled with the same segmenter
  as `pdf_processor/latex_helpers.py`.

## Model

| member | source | states |
|---|---|---|
| PyText.Slice | pdf_processor/latex_helpers.py:113 | Python slicing `s[i:j]` clamps both bounds to the string: in range it is the sub-sequence, past the end it runs to the end, and it is empty when `j <= i` or `i` is past the end |
| PyText.Join | pdf_processor/core.py:260 | `"".join` succeeds exactly when no part is `None` |
| PyText.JoinAppend | pdf_processor/core.py:260 | joining a concatenation of parts is the concatenation of the two joins |
| PyText.Str | pdf_processor/core.py:249 | an f-string prints an optional text as itself, and `None` as "None" (used by `ImagePath`, by `ProcessChunk` and by `ImageChunkContent`) |
| PyText.Truthy | pdf_processor/core.py:315-318 | an optional text is truthy when it is neither `None` nor empty (used by `Conversion` and `ConvertRaisesOnError`) |
| PyText.EndsWith | pdf_processor/latex_helpers.py:32 | `s.endswith(suffix)`: the last characters of `s` are `suffix` (used by `FirstTexSpec`) |
| PyText.NatToString | pdf_processor/core.py:157 | the decimal text of a timeout is non-empty and all digits, spells the number in base ten, with no leading zero (zero is "0") |
| PyText.IntToString | pdf_processor/core.py:157 | `str(int)` starts with `-` exactly for negative values; every other character is a digit, the digits spell the magnitude, and there is no leading zero |
| LatexHelpers.Names | pdf_processor/latex_helpers.py:31 | `namelist()` lists the entry names in archive order |
| LatexHelpers.Open | pdf_processor/latex_helpers.py:42-43 | an archive entry can be opened exactly when some entry has that name |
| LatexHelpers.OpenReadsLastEntry | pdf_processor/latex_helpers.py:42-43 | what is read is the bytes of the last entry with that name, the one `zipfile` indexes |
| LatexHelpers.FetchImg | pdf_processor/latex_helpers.py:38-44 | `fetch_img` succeeds exactly when the path is in the archive, with the bytes `Open` reads for it; otherwise it fails with the missing name |
| LatexHelpers.FirstTexIndex | pdf_processor/latex_helpers.py:30-34 | the scan stops at the first name ending in ".tex"; no earlier name does |
| LatexHelpers.FirstTexSpec | pdf_processor/latex_helpers.py:26-35 | `fetch_tex_filename` is `None` exactly when no name ends in ".tex"; otherwise it is the first such name |
| LatexHelpers.FetchTexFilename | pdf_processor/latex_helpers.py:30-35 | the loop with early `break` returns the first ".tex" name, or `None` |
| LatexHelpers.FirstTexIndexIsFirst | pdf_processor/latex_helpers.py:31-34 | any index that is preceded only by non-".tex" names and holds a ".tex" name (or is the end) is the one the scan stops at |
| LatexHelpers.ExtractChunks | pdf_processor/latex_helpers.py:57-80 | the recursive search for table and image nodes; its properties are the lemmas below, from `ExtractAppend` to `ExtractOrdered` |
| LatexHelpers.ImageFilename | pdf_processor/latex_helpers.py:69 | `nodeargs[0].nodelist[0].chars`, failing when a node on the way is missing; stated by `ImageFilenameIsFirstArgumentChars` and `IncludeGraphicsIsOneChunk` |
| LatexHelpers.ExtractAppend | pdf_processor/latex_helpers.py:58-80 | searching two sibling lists in turn yields the chunks of the first, then those of the second; the first exception wins |
| LatexHelpers.TabularIsOneChunk | pdf_processor/latex_helpers.py:60-67 | a `tabular` environment is one table chunk spanning `[pos, pos+len)` and is not descended into |
| LatexHelpers.IncludeGraphicsIsOneChunk | pdf_processor/latex_helpers.py:68-77 | an `\includegraphics` is one image chunk spanning `[pos, pos+len)` with its filename; with no filename argument it raises instead of being skipped |
| LatexHelpers.ImageFilenameIsFirstArgumentChars | pdf_processor/latex_helpers.py:69 | the filename is the chars of the first node of the first argument |
| LatexHelpers.SearchedNodeYieldsChildren | pdf_processor/latex_helpers.py:78-79 | other groups and environments yield exactly the chunks of their children |
| LatexHelpers.OtherNodesAreNotSearched | pdf_processor/latex_helpers.py:59-80 | every other node kind (text, math, comments, other macros with their arguments) yields nothing |
| LatexHelpers.ExtractFindsOnlyTablesAndImages | pdf_processor/latex_helpers.py:57-80 | the search returns only table and image chunks, with no contents yet, and a filename exactly on images |
| LatexHelpers.ExtractFailsOnlyOnMissingFilename | pdf_processor/latex_helpers.py:69 | the only exception the search raises is a missing `\includegraphics` filename |
| LatexHelpers.OrderedWeaken | pdf_processor/latex_helpers.py:88-97 | chunks ordered from a position are ordered from any earlier one |
| LatexHelpers.OrderedAppend | pdf_processor/latex_helpers.py:79 | ordered chunk lists that meet at a position concatenate into an ordered list |
| LatexHelpers.ExtractOrdered | pdf_processor/latex_helpers.py:57-83 | on a well-formed tree the found chunks are in increasing order, disjoint and inside the source |
| LatexHelpers.Gaps | pdf_processor/latex_helpers.py:86-109 | the gap-filling loop as a function; stated by `GapsTextChunks`, `GapsTile` and `GapsKeepsFound`, and `FillGaps` is proved equal to it |
| LatexHelpers.Segment | pdf_processor/latex_helpers.py:83-115 | search, fill gaps, attach raw contents; stated by `SegmentTilesSource`, `SegmentTextChunks`, `SegmentKeepsTablesAndImages` and `SegmentWithoutTablesOrImages` |
| LatexHelpers.FillGaps | pdf_processor/latex_helpers.py:86-109 | the gap-filling loop builds exactly the specified chunk list |
| LatexHelpers.AttachRaw | pdf_processor/latex_helpers.py:112-113 | every chunk gets `raw_content = latex_str[start:end]` and keeps everything else |
| LatexHelpers.AttachRawContents | pdf_processor/latex_helpers.py:112-113 | the loop that assigns raw contents in place produces `AttachRaw` |
| LatexHelpers.GetLatexChunks | pdf_processor/latex_helpers.py:47-115 | `get_latex_chunks` computes `Segment`: search, fill gaps, attach raw contents |
| LatexHelpers.SegmentRawIsSlice | pdf_processor/latex_helpers.py:112-113 | every returned chunk's raw content is its slice of the source |
| LatexHelpers.GapsTextChunks | pdf_processor/latex_helpers.py:89-96 | the gap filler emits a text chunk only for a non-empty gap, and never two text chunks in a row |
| LatexHelpers.SegmentTextChunks | pdf_processor/latex_helpers.py:89-109 | in the result every text chunk is non-empty and no two text chunks are adjacent |
| LatexHelpers.GapsTile | pdf_processor/latex_helpers.py:86-109 | for ordered found chunks, the output tiles the range contiguously, in order |
| LatexHelpers.Raws | pdf_processor/latex_helpers.py:113 | the raw contents of a chunk list, position by position |
| LatexHelpers.TilesJoin | pdf_processor/latex_helpers.py:112-113 | concatenating the raw contents of a tiling of `[lo, hi)` gives `latex[lo:hi]` |
| LatexHelpers.TilesEnd | pdf_processor/latex_helpers.py:97 | a tiling never ends before it starts |
| LatexHelpers.AttachRawTiles | pdf_processor/latex_helpers.py:112-113 | attaching raw contents keeps a tiling |
| LatexHelpers.SegmentTilesSource | pdf_processor/latex_helpers.py:83-113 | on a well-formed tree the chunks tile `[0, len)` and concatenating their raw contents reproduces the source |
| LatexHelpers.SegmentWithoutTablesOrImages | pdf_processor/latex_helpers.py:87-109 | with no table or image, the result is one text chunk `[0, len)` holding the whole source, or nothing for an empty source |
| LatexHelpers.NonTextAppend | pdf_processor/latex_helpers.py:99 | the non-text chunks of a concatenation are those of each part in turn |
| LatexHelpers.GapsKeepsFound | pdf_processor/latex_helpers.py:88-99 | the gap filler keeps every found chunk, in order, and adds only text |
| LatexHelpers.NonTextAttachRaw | pdf_processor/latex_helpers.py:112-113 | attaching raw contents commutes with dropping the text chunks |
| LatexHelpers.SegmentKeepsTablesAndImages | pdf_processor/latex_helpers.py:88-99 | the table and image chunks of the result are the found ones in document order, unchanged apart from their raw content |
| Polling.Submitted | pdf_processor/core.py:119-131 | an ok reply stores `pdf_id` and, when there is an "error" key, the error and its "error_info"; a missing key raises; a non-ok reply raises |
| Polling.Run | pdf_processor/core.py:155-183 | how the polling loop ends on a trace; `RunExits` and `RunStopsAtFirstStop` state it against the independent `StopsAt` |
| Polling.FirstStop | pdf_processor/core.py:155-176 | the first iteration that does not keep the loop polling |
| Polling.RunStopsAtFirstStop | pdf_processor/core.py:155-183 | the loop ends at the first iteration that times out, sees a non-ok reply, or sees status "error" or "completed" |
| Polling.StopsAtIsFirstStop | pdf_processor/core.py:155-176 | that iteration is unique |
| Polling.RunExits | pdf_processor/core.py:155-183 | the loop exits exactly on elapsed time strictly above `timeout_s`, on status "error", or on status "completed"; a non-ok reply aborts it |
| Polling.TimeoutNotEarly | pdf_processor/core.py:156-158 | a timeout is reported only once some clock reading exceeds the limit, and every earlier reading did not |
| Reassembly.ProcessChunk | pdf_parser/pdf_processor.py:191-208 | the conversion of one chunk by type, with the corrected image step; stated by `TextChunkContent`, `TableChunkContent`, `ImageChunkContent` and `ProcessChunkKeeps` |
| Reassembly.ProcessAll | pdf_parser/pdf_processor.py:190-208 | the chunk loop as a function; stated by `ProcessAllPointwise`, `ProcessAllPartition` and `ProcessAllFails`, and `ConvertChunks` is proved equal to it |
| Reassembly.Parsed | pdf_parser/pdf_processor.py:178-217 | `parse_result` from the archive bytes on; stated by `ParsedFailures`, and `ParseZip` is proved equal to it |
| Reassembly.Reassembled | pdf_parser/pdf_processor.py:188-217 | `parse_result` from the decoded LaTeX on; `ReassembleInto` is proved equal to it |
| Reassembly.TextChunkContent | pdf_processor/core.py:240-242 | a text chunk's processed content is its raw content and nothing else changes |
| Reassembly.TableChunkContent | pdf_processor/core.py:243-247 | a table chunk becomes `"\n<===TABLE START===>\n\n" + convert_table(raw) + "\n\n<===TABLE END===>\n"` |
| Reassembly.ImageChunkContent | pdf_parser/pdf_processor.py:200-206 | an image is read from `<pdf_id>/images/<filename>.jpg` and becomes the vision output between the image delimiters; a missing file raises with that path |
| Reassembly.WrapLiteral | pdf_processor/core.py:244-246 | the f-string's line breaks fold into the delimiters |
| Reassembly.ProcessAllPointwise | pdf_parser/pdf_processor.py:190-208 | the loop converts every chunk in place: one converted chunk per chunk, each the conversion of the chunk at its position |
| Reassembly.ProcessAllPartition | pdf_parser/pdf_processor.py:190-208 | each chunk lands in the list of its type, in source order, and the three lengths sum to the number of chunks |
| Reassembly.ProcessAllFails | pdf_parser/pdf_processor.py:200-202 | the loop raises exactly when some image's file is missing from the archive |
| Reassembly.ProcessAllErrors | pdf_parser/pdf_processor.py:202 | the loop raises only for a missing archive entry |
| Reassembly.ProcessAllPrefixFails | pdf_processor/core.py:238-257 | an exception in a prefix of the chunks is the exception of the whole loop |
| Reassembly.ProcessChunkKeeps | pdf_processor/core.py:239-255 | a conversion changes only `processed_content` |
| Reassembly.ConvertedSegment | pdf_processor/core.py:237-257 | converted segmented chunks keep position, type, filename and raw content; a text chunk's processed content is its source slice; none is missing |
| Reassembly.Processed | pdf_processor/core.py:260 | the processed contents of the chunks, in order |
| Reassembly.SegmentJoinSucceeds | pdf_processor/core.py:260 | the join before cleanup never fails on segmented chunks |
| Reassembly.PlainDocumentReassembles | pdf_processor/core.py:237-260 | a document with no table or image reaches cleanup as the source itself, in at most one text chunk |
| Reassembly.ConvertChunk | pdf_parser/pdf_processor.py:191-206 | one pass of the loop sets the chunk's processed content as the conversion says and appends it to the list of its type; on an exception nothing is appended |
| Reassembly.ConvertChunks | pdf_parser/pdf_processor.py:190-208 | the chunk loop on a `PdfResult`: on success each list gains the converted chunks of its type, in order, and the converted chunks are returned in order; raw LaTeX and content are left alone |
| Reassembly.ReassembleInto | pdf_parser/pdf_processor.py:188-217 | from the decoded LaTeX on, the `PdfResult` ends with the raw LaTeX, the cleaned join of the converted chunks and the three lists, or the exception is passed on |
| Reassembly.ParseZip | pdf_parser/pdf_processor.py:178-217 | `parse_result` from the archive bytes on: it yields a fresh `PdfResult` whose fields are those of `Parsed`, or raises what `Parsed` raises |
| Reassembly.ParsedFailures | pdf_parser/pdf_processor.py:178-217 | parsing an archive raises only for an unreadable archive, no ".tex" entry, non-UTF-8 source, a missing filename argument or a missing entry |
| Reassembly.PdfResult.constructor | pdf_processor/core.py:69-74 | a new `PdfResult` has no LaTeX, no content and three empty lists |
| MathpixCore.MathpixResult.constructor | pdf_processor/core.py:60-66 | a new `MathpixResult` holds only its source path |
| MathpixCore.Submit | pdf_processor/core.py:117-133 | the submitted result has the path and `pdf_id`, no archive, and the reply's error and error info |
| MathpixCore.SubmitPdf | pdf_processor/core.py:100-133 | `submit_pdf` returns a fresh result with exactly those fields, or raises |
| MathpixCore.Awaited | pdf_processor/core.py:135-198 | `await_result` as a function; stated by `AwaitIgnoresIncomingError` and `AwaitExits`, and `AwaitResult` is proved equal to it |
| MathpixCore.AwaitResult | pdf_processor/core.py:135-198 | the polling loop with `break`s leaves the result as `Awaited` says; on an exception only the error is cleared |
| MathpixCore.AwaitIgnoresIncomingError | pdf_processor/core.py:149-151 | whatever error the result arrives with, `await_result` behaves as if there were none |
| MathpixCore.AwaitExits | pdf_processor/core.py:153-198 | a timeout or a server error stores its message and skips the download; no error is left exactly when the loop completed and the download succeeded; the download stores the digest and base64 of the same bytes |
| MathpixCore.ParsedCore | pdf_processor/core.py:214-266 | `parse_result` as a function, with the corrected image step; stated by `ParseAssertions` and `UntouchedResultPassesChecks` |
| MathpixCore.ParseResult | pdf_processor/core.py:214-266 | `parse_result` yields what `ParsedCore` gives |
| MathpixCore.ParseAssertions | pdf_processor/core.py:220-230 | the assertions fire on a missing archive, on a digest mismatch, and on a readable archive with no ".tex" entry; every other failure comes from the archive |
| MathpixCore.UntouchedResultPassesChecks | pdf_processor/core.py:192-193 | a result left untouched after download passes both checks and parses the downloaded bytes, if base64 decodes what it encoded |
| MathpixCore.ImageStepAsWritten | pdf_processor/core.py:248-255 | the image step as written: fetch the image, then fail on the undeclared `file_b64`; stated by `ImageInArchiveFailsAsWritten` |
| MathpixCore.ProcessChunkAsWritten | pdf_processor/core.py:239-257 | chunk conversion as written; stated by `AsWrittenFailsOnEveryImage` |
| MathpixCore.ProcessAllAsWritten | pdf_processor/core.py:238-257 | the chunk loop as written; stated by `AsWrittenFailsOnEveryImage` |
| MathpixCore.AsWrittenFailsOnEveryImage | pdf_processor/core.py:248-255 | as written, the chunk loop raises on every document with an image; it agrees with the corrected loop on documents without one |
| MathpixCore.ImageInArchiveFailsAsWritten | pdf_processor/core.py:249-251 | an image that is in the archive converts with the corrected step and raises as written |
| MathpixCore.Conversion | pdf_processor/core.py:308-321 | `convert` as a function; stated by `ConvertRaisesOnError`, `ConvertParsesDownload` and `ConvertReachesParse` |
| MathpixCore.Convert | pdf_processor/core.py:308-321 | `convert` returns what `Conversion` gives |
| MathpixCore.ConvertRaisesOnError | pdf_processor/core.py:314-319 | `convert` raises `MathpixProcessingError` with the message after a submission error, a 60 s timeout or a server error |
| MathpixCore.ConvertParsesDownload | pdf_processor/core.py:314-321 | `convert` returns only after a completed poll and a download, and its result is the parse of the downloaded archive |
| MathpixCore.ConvertReachesParse | pdf_processor/core.py:314-321 | after a submission with no error, a completed poll and a download, `convert` ends as parsing the download ends, result or exception |
| MathpixLegacy.MathpixResult.constructor | pdf_parser/pdf_processor.py:58-63 | a new `MathpixResult` holds only its source path |
| MathpixLegacy.Submit | pdf_parser/pdf_processor.py:103-119 | the submitted result has the path and `pdf_id`, no archive, and the reply's error and error info |
| MathpixLegacy.SubmitPdf | pdf_parser/pdf_processor.py:94-119 | `submit_pdf` returns a fresh result with exactly those fields, or raises |
| MathpixLegacy.Awaited | pdf_parser/pdf_processor.py:121-166 | `await_result` as a function, with no clearing; stated by `SubmitErrorPersists` and `AwaitExits`, and `AwaitResult` is proved equal to it |
| MathpixLegacy.AwaitResult | pdf_parser/pdf_processor.py:121-166 | the polling loop leaves the result as `Awaited` says, with no clearing; on an exception the result is unchanged |
| MathpixLegacy.SubmitErrorPersists | pdf_parser/pdf_processor.py:121-155 | a submit error persists through a completed poll and suppresses the download |
| MathpixLegacy.AwaitExits | pdf_parser/pdf_processor.py:124-161 | the same three exits; a completed poll with no stored error stores the raw downloaded bytes, and nothing else sets them |
| MathpixLegacy.ParsedLegacy | pdf_parser/pdf_processor.py:174-217 | `parse_result` as a function; stated by `ParseAssertions` |
| MathpixLegacy.ParseResult | pdf_parser/pdf_processor.py:174-217 | `parse_result` yields what `ParsedLegacy` gives |
| MathpixLegacy.ParseAssertions | pdf_parser/pdf_processor.py:175-182 | the assertions fire on missing bytes and on a readable archive with no ".tex" entry; stored bytes are parsed with no digest check |
| MathpixLegacy.Conversion | pdf_parser/pdf_processor.py:258-262 | `convert` as a function, with no checks; stated by `FailedResultReachesParse`, `ConvertParsesDownload` and `ConvertReachesParse` |
| MathpixLegacy.Convert | pdf_parser/pdf_processor.py:258-262 | `convert` returns what `Conversion` gives |
| MathpixLegacy.FailedResultReachesParse | pdf_parser/pdf_processor.py:258-262 | a submission error, a timeout or a server error reaches `parse_result` and fails its `zip_bytes` assertion |
| MathpixLegacy.ConvertParsesDownload | pdf_parser/pdf_processor.py:154-161 | a result is returned only after a completed poll with no submission error and a download, and it is the parse of the downloaded bytes |
| MathpixLegacy.ConvertReachesParse | pdf_parser/pdf_processor.py:258-262 | after a submission with no error, a completed poll and a download, `convert` ends as parsing the downloaded bytes ends, result or exception |

## Left out

- Reading the submitted PDF: `pdf_path.open("rb")` (pdf_processor/core.py:114,
  pdf_parser/pdf_processor.py:100) can raise, for example for a missing file.
  This is not modelled; the submission reply stands in for the whole request.
- HTTP, credentials and time:
  - The `requests` calls and `os.environ` credentials are not modelled. Each
    reply is the part of its JSON body the code reads, and the download is
    modelled as the response bytes or `None` when the request raised.
  - `time.time()` readings are the clocks in the trace, and `time.sleep` is not
    modelled.
  - `tqdm`, `pbar` and `percent_done` only drive a progress bar and are not
    modelled.
  - A missing "status" key, or a non-integer `percent_done`, is not modelled.
- Trace exhaustion: the loop runs until the service ends it. A finite trace that
  ends first gives `PollingNotFinished`. This is an artefact of the model, not a
  behaviour of the client.
- Non-ok replies:
  - The `except requests.exceptions` clauses name a module, not an exception
    class. So a non-ok reply, or a download that raises, escapes as an exception
    (`HttpError`, `DownloadFailed`). It is never stored in `error`.
  - A download reply that is not ok is stored like any other; the code does not
    check it.
- Value types:
  - `error` and `error_info` are modelled as text.
  - The service could send other JSON values; only their truthiness and
    presence matter to the code.
  - `Path` normalisation of the image path is not modelled. The path is the
    text `<pdf_id>/images/<filename>.jpg`.
- The walker's grammar: `LatexWalker` is a parameter producing the node tree.
  Well-formedness of that tree is a hypothesis of the tiling lemmas, not a fact
  about the walker.
- Cleanup: `preprocess_regex`, `LatexNodes2Text` and `postprocess_regex` are
  one opaque function applied after the join.
- Models and prompts:
  - `convert_table` and `convert_image` are opaque functions of their input.
  - The prompts, message classes and model calls are not modelled.
- Libraries: `zipfile` reading, UTF-8 decoding, base64 and sha256 are
  parameters. The base64 round trip is a hypothesis of the lemmas that need it.
- Unknown chunk types: the `case _` branch raising `ValueError` cannot be
  reached, since every chunk is a text, table or image chunk.
- Other parts of the repository:
  - `process_inbox.py`, `factory.py`, `rag_factory.py`, `eval.py`,
    `summarize.py` and `config.py` are not part of this model.
  - No content-hash cache is modelled; none exists in the modelled code.

- MathpixCore.ParseResult: parses with the corrected image step of
  pdf_parser/pdf_processor.py:200-206. It does not raise the `ValueError`
  that pdf_processor/core.py:251 raises on every image; that behaviour is
  `ProcessAllAsWritten` (see "## Findings").
- MathpixCore.ParseAssertions: its list of failures is that of the corrected
  image step, so it omits the `ValueError` of pdf_processor/core.py:251.
- MathpixCore.UntouchedResultPassesChecks: the parse it reaches uses the
  corrected image step.
- MathpixCore.Convert: through `ParsedCore` it uses the corrected image step,
  so it returns a result on documents with images where the code as written
  raises.
- MathpixCore.ConvertParsesDownload: the parse it names uses the corrected
  image step.
- MathpixCore.ConvertReachesParse: the parse it names uses the corrected
  image step.
- MathpixCore.ParsedCore: uses the corrected image step of
  pdf_parser/pdf_processor.py:200-206. It does not raise the `ValueError` that
  pdf_processor/core.py:251 raises on every image (see "## Findings").
- MathpixCore.Conversion: through `ParsedCore` it uses the corrected image
  step, so it gives a result on documents with images where the code as
  written raises.
- Reassembly.ParsedFailures: the list of exceptions holds for the model
  only. `convert_table` and `convert_image` are total functions here, but
  their chat calls (pdf_processor/core.py:280 and :287) can raise, and so can
  reading an archive entry. Neither is modelled.
- Reassembly.ProcessAllErrors: the same; a converter exception inside the
  loop is not modelled.
- MathpixLegacy.ParseAssertions: the same holds for its list of failures.
- Clock readings: `time.time()` returns a float; the trace's clocks are exact
  `real` numbers, so float rounding of the elapsed time is not modelled.
- JSON `null`: a reply whose "error" key holds `null` is treated like a reply
  with no "error" key. The code would then read "error_info" and raise
  `KeyError` when it is missing; the model does not.

## Findings

| source | as written | input that shows it | evidently intended | confidence | as-written member | corrected member |
|---|---|---|---|---|---|---|
| pdf_processor/core.py:251 | the image step assigns `chunk.file_b64`, a field the `LatexChunk` model does not declare, so pydantic raises `ValueError` and every document with an image fails | a document with one `\includegraphics{x}` whose image `<pdf_id>/images/x.jpg` is in the archive | convert the image and keep the chunk's declared fields, as pdf_parser/pdf_processor.py:200-206 does | medium, not executed: relies on pydantic's default rejection of undeclared attributes | MathpixCore.AsWrittenFailsOnEveryImage | Reassembly.ImageChunkContent |
