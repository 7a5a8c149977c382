/** The part of `parse_result` that both client variants share: open the archive,
    find the LaTeX source, segment it, convert every chunk by its type, and join
    the converted chunks in order before the cleanup pass. */
module Reassembly {
  import opened Wrappers
  import opened PyText
  import opened Failures
  import opened LatexHelpers
  import opened Foreign

  const ImageStartDelimiter: string := "\n<===IMAGE START===>\n"
  const ImageEndDelimiter: string := "\n<===IMAGE END===>\n"
  const TableStartDelimiter: string := "\n<===TABLE START===>\n"
  const TableEndDelimiter: string := "\n<===TABLE END===>\n"

  /** A converter's output between a start and an end delimiter, each on its own
      line: `f"{start}\n{out}\n{end}"`. */
  function Wrap(start: string, out: string, end: string): string {
    start + "\n" + out + "\n" + end
  }

  /** The archive path of an image: `<pdf_id>/images/<filename>.jpg`. */
  function ImagePath(pdfId: Option<string>, filename: Option<string>): string {
    Str(pdfId) + "/images/" + Str(filename) + ".jpg"
  }

  /** The conversion of one chunk, dispatched on its type. */
  function ProcessChunk(c: LatexChunk, pdfId: Option<string>, archive: Archive, models: Models): Result<LatexChunk, Failure> {
    match c.kind
    case Text => Ok(c.(processedContent := c.rawContent))
    case Table =>
      Ok(c.(processedContent := Some(Wrap(TableStartDelimiter, models.convertTable(Str(c.rawContent)), TableEndDelimiter))))
    case Image =>
      match FetchImg(archive, ImagePath(pdfId, c.filename))
      case Err(e) => Err(e)
      case Ok(img) => Ok(c.(processedContent := Some(Wrap(ImageStartDelimiter, models.convertImage(img), ImageEndDelimiter))))
  }

  /** A table chunk becomes the table converter's output, given the chunk's raw
      LaTeX, between the table delimiters, each followed by an empty line. */
  lemma TableChunkContent(c: LatexChunk, pdfId: Option<string>, archive: Archive, models: Models)
    requires c.kind == Table
    ensures ProcessChunk(c, pdfId, archive, models) ==
      Ok(c.(processedContent := Some("\n<===TABLE START===>\n\n" + models.convertTable(Str(c.rawContent)) + "\n\n<===TABLE END===>\n")))
  {
    DelimiterLiterals();
    WrapLiteral(TableStartDelimiter, models.convertTable(Str(c.rawContent)), TableEndDelimiter,
      "\n<===TABLE START===>\n\n", "\n\n<===TABLE END===>\n");
  }

  /** An image chunk whose file is in the archive becomes the image converter's
      output, given the file's bytes, between the image delimiters; one whose file
      is missing aborts with the missing name. */
  lemma ImageChunkContent(c: LatexChunk, pdfId: Option<string>, archive: Archive, models: Models)
    requires c.kind == Image
    ensures var path := Str(pdfId) + "/images/" + Str(c.filename) + ".jpg";
      && (path !in Names(archive) ==> ProcessChunk(c, pdfId, archive, models) == Err(MissingArchiveEntry(path)))
      && (path in Names(archive) ==>
           ProcessChunk(c, pdfId, archive, models) ==
           Ok(c.(processedContent := Some("\n<===IMAGE START===>\n\n" + models.convertImage(Open(archive.entries, path).value) + "\n\n<===IMAGE END===>\n"))))
  {
    var path := ImagePath(pdfId, c.filename);
    if path in Names(archive) {
      var img := Open(archive.entries, path).value;
      assert FetchImg(archive, path) == Ok(img);
      var out := models.convertImage(img);
      DelimiterLiterals();
      WrapLiteral(ImageStartDelimiter, out, ImageEndDelimiter,
        "\n<===IMAGE START===>\n\n", "\n\n<===IMAGE END===>\n");
      assert ProcessChunk(c, pdfId, archive, models) == Ok(c.(processedContent := Some(Wrap(ImageStartDelimiter, out, ImageEndDelimiter))));
    }
  }

  /** The delimiters with the line break the f-string adds next to the output. */
  lemma DelimiterLiterals()
    ensures TableStartDelimiter + "\n" == "\n<===TABLE START===>\n\n"
    ensures "\n" + TableEndDelimiter == "\n\n<===TABLE END===>\n"
    ensures ImageStartDelimiter + "\n" == "\n<===IMAGE START===>\n\n"
    ensures "\n" + ImageEndDelimiter == "\n\n<===IMAGE END===>\n"
  {
    TableStartLiteral();
    TableEndLiteral();
    ImageStartLiteral();
    ImageEndLiteral();
  }

  lemma TableStartLiteral()
    ensures TableStartDelimiter + "\n" == "\n<===TABLE START===>\n\n"
  {
  }

  lemma TableEndLiteral()
    ensures "\n" + TableEndDelimiter == "\n\n<===TABLE END===>\n"
  {
  }

  lemma ImageStartLiteral()
    ensures ImageStartDelimiter + "\n" == "\n<===IMAGE START===>\n\n"
  {
  }

  lemma ImageEndLiteral()
    ensures "\n" + ImageEndDelimiter == "\n\n<===IMAGE END===>\n"
  {
  }

  /** A text chunk passes through unchanged: its processed content is its raw
      content, and no archive entry or converter is involved. */
  lemma TextChunkContent(c: LatexChunk, pdfId: Option<string>, archive: Archive, models: Models)
    requires c.kind == Text
    ensures ProcessChunk(c, pdfId, archive, models).Ok?
    ensures ProcessChunk(c, pdfId, archive, models).value.processedContent == c.rawContent
    ensures ProcessChunk(c, pdfId, archive, models).value.(processedContent := c.processedContent) == c
  {
  }

  /** Wrapping, with the line breaks around the output folded into the
      delimiters. */
  lemma WrapLiteral(start: string, out: string, end: string, open: string, close: string)
    requires open == start + "\n" && close == "\n" + end
    ensures Wrap(start, out, end) == open + out + close
  {
    calc {
      Wrap(start, out, end);
      start + "\n" + out + "\n" + end;
      { assert start + "\n" + out == (start + "\n") + out; }
      open + out + "\n" + end;
      { assert open + out + "\n" + end == open + out + ("\n" + end); }
      open + out + close;
    }
  }

  /** The converted chunks in source order, and the three lists they are sorted
      into. */
  datatype Converted = Converted(
    chunks: seq<LatexChunk>,
    text: seq<LatexChunk>,
    tables: seq<LatexChunk>,
    images: seq<LatexChunk>)

  /** Appending one converted chunk to the list of its type. */
  function Place(cv: Converted, c: LatexChunk): Converted {
    match c.kind
    case Text => cv.(chunks := cv.chunks + [c], text := cv.text + [c])
    case Table => cv.(chunks := cv.chunks + [c], tables := cv.tables + [c])
    case Image => cv.(chunks := cv.chunks + [c], images := cv.images + [c])
  }

  /** The chunk loop of `parse_result`: the first failing conversion aborts it. */
  function ProcessAll(cs: seq<LatexChunk>, pdfId: Option<string>, archive: Archive, models: Models): Result<Converted, Failure>
    decreases |cs|
  {
    if cs == [] then Ok(Converted([], [], [], []))
    else
      match ProcessAll(cs[..|cs| - 1], pdfId, archive, models)
      case Err(e) => Err(e)
      case Ok(cv) =>
        match ProcessChunk(cs[|cs| - 1], pdfId, archive, models)
        case Err(e) => Err(e)
        case Ok(c) => Ok(Place(cv, c))
  }

  /** The chunks of `g` of type `k`, in order. */
  function OfKind(g: seq<LatexChunk>, k: ChunkType): seq<LatexChunk>
    decreases |g|
  {
    if g == [] then []
    else OfKind(g[..|g| - 1], k) + (if g[|g| - 1].kind == k then [g[|g| - 1]] else [])
  }

  /** The loop converts chunk by chunk: one converted chunk per chunk, each the
      conversion of the chunk at the same position. */
  lemma {:induction false} ProcessAllPointwise(cs: seq<LatexChunk>, pdfId: Option<string>, archive: Archive, models: Models)
    requires ProcessAll(cs, pdfId, archive, models).Ok?
    ensures var cv := ProcessAll(cs, pdfId, archive, models).value;
      && |cv.chunks| == |cs|
      && forall k :: 0 <= k < |cs| ==> ProcessChunk(cs[k], pdfId, archive, models) == Ok(cv.chunks[k])
    decreases |cs|
  {
    if cs != [] {
      var init := cs[..|cs| - 1];
      ProcessAllPointwise(init, pdfId, archive, models);
      var cv := ProcessAll(init, pdfId, archive, models).value;
      var c := ProcessChunk(cs[|cs| - 1], pdfId, archive, models).value;
      assert ProcessAll(cs, pdfId, archive, models).value.chunks == cv.chunks + [c];
      assert forall k :: 0 <= k < |init| ==> cs[k] == init[k];
    }
  }

  /** Every converted chunk lands in the list of its type, in source order, and
      so the three lists together are as long as the chunk sequence. */
  lemma {:induction false} ProcessAllPartition(cs: seq<LatexChunk>, pdfId: Option<string>, archive: Archive, models: Models)
    requires ProcessAll(cs, pdfId, archive, models).Ok?
    ensures var cv := ProcessAll(cs, pdfId, archive, models).value;
      && cv.text == OfKind(cv.chunks, Text)
      && cv.tables == OfKind(cv.chunks, Table)
      && cv.images == OfKind(cv.chunks, Image)
      && |cv.text| + |cv.tables| + |cv.images| == |cs|
    decreases |cs|
  {
    if cs != [] {
      var init := cs[..|cs| - 1];
      ProcessAllPartition(init, pdfId, archive, models);
      ProcessAllPointwise(init, pdfId, archive, models);
      var cv := ProcessAll(init, pdfId, archive, models).value;
      var c := ProcessChunk(cs[|cs| - 1], pdfId, archive, models).value;
      assert ProcessAll(cs, pdfId, archive, models).value == Place(cv, c);
      OfKindSnoc(cv.chunks, c, Text);
      OfKindSnoc(cv.chunks, c, Table);
      OfKindSnoc(cv.chunks, c, Image);
    }
  }

  lemma OfKindSnoc(g: seq<LatexChunk>, c: LatexChunk, k: ChunkType)
    ensures OfKind(g + [c], k) == OfKind(g, k) + (if c.kind == k then [c] else [])
  {
    assert (g + [c])[..|g|] == g;
  }

  /** The loop aborts exactly when some image chunk's file is missing from the
      archive. */
  lemma {:induction false} ProcessAllFails(cs: seq<LatexChunk>, pdfId: Option<string>, archive: Archive, models: Models)
    ensures ProcessAll(cs, pdfId, archive, models).Err? <==>
      exists k :: 0 <= k < |cs| && cs[k].kind == Image && ImagePath(pdfId, cs[k].filename) !in Names(archive)
    decreases |cs|
  {
    if cs != [] {
      var init := cs[..|cs| - 1];
      ProcessAllFails(init, pdfId, archive, models);
      assert forall k :: 0 <= k < |init| ==> cs[k] == init[k];
      var last := cs[|cs| - 1];
      if last.kind == Image && ImagePath(pdfId, last.filename) !in Names(archive) {
        assert ProcessChunk(last, pdfId, archive, models).Err?;
      }
      if exists k :: 0 <= k < |cs| && cs[k].kind == Image && ImagePath(pdfId, cs[k].filename) !in Names(archive) {
        var k :| 0 <= k < |cs| && cs[k].kind == Image && ImagePath(pdfId, cs[k].filename) !in Names(archive);
        if k < |init| {
          assert init[k] == cs[k];
        }
      }
    }
  }

  /** Converting segmented chunks: every converted chunk keeps the position,
      type, filename and raw content of its chunk, a text chunk's processed
      content is its slice of the source, and no processed content is missing. */
  lemma ConvertedSegment(latex: string, nodes: seq<Node>, pdfId: Option<string>, archive: Archive, models: Models)
    requires Segment(latex, nodes).Ok?
    requires ProcessAll(Segment(latex, nodes).value, pdfId, archive, models).Ok?
    ensures var g := Segment(latex, nodes).value;
      var cv := ProcessAll(g, pdfId, archive, models).value;
      && |cv.chunks| == |g|
      && (forall k :: 0 <= k < |g| ==> cv.chunks[k].(processedContent := None) == g[k].(processedContent := None))
      && (forall k :: 0 <= k < |g| && g[k].kind == Text ==> cv.chunks[k].processedContent == Some(Slice(latex, g[k].start, g[k].end)))
      && (forall k :: 0 <= k < |g| ==> cv.chunks[k].processedContent.Some?)
  {
    var g := Segment(latex, nodes).value;
    var cv := ProcessAll(g, pdfId, archive, models).value;
    ProcessAllPointwise(g, pdfId, archive, models);
    SegmentRawIsSlice(latex, nodes);
    forall k | 0 <= k < |g|
      ensures cv.chunks[k].(processedContent := None) == g[k].(processedContent := None)
      ensures g[k].kind == Text ==> cv.chunks[k].processedContent == Some(Slice(latex, g[k].start, g[k].end))
      ensures cv.chunks[k].processedContent.Some?
    {
      assert g[k] in g;
      ProcessChunkKeeps(g[k], pdfId, archive, models);
    }
  }

  /** A conversion changes only `processed_content`, and sets it unless a text
      chunk has no raw content. */
  lemma ProcessChunkKeeps(c: LatexChunk, pdfId: Option<string>, archive: Archive, models: Models)
    requires ProcessChunk(c, pdfId, archive, models).Ok?
    ensures var c' := ProcessChunk(c, pdfId, archive, models).value;
      && c'.(processedContent := None) == c.(processedContent := None)
      && (c.kind == Text ==> c'.processedContent == c.rawContent)
      && (c.kind != Text ==> c'.processedContent.Some?)
  {
  }

  /** The join before cleanup never fails on segmented chunks: it is the
      in-order concatenation of every converted chunk's processed content. */
  lemma SegmentJoinSucceeds(latex: string, nodes: seq<Node>, pdfId: Option<string>, archive: Archive, models: Models)
    requires Segment(latex, nodes).Ok?
    requires ProcessAll(Segment(latex, nodes).value, pdfId, archive, models).Ok?
    ensures Join(Processed(ProcessAll(Segment(latex, nodes).value, pdfId, archive, models).value.chunks)).Some?
  {
    ConvertedSegment(latex, nodes, pdfId, archive, models);
  }

  /** A document without tables and images comes through conversion unchanged:
      the text before cleanup is the source itself, held by at most one text
      chunk. */
  lemma PlainDocumentReassembles(latex: string, nodes: seq<Node>, pdfId: Option<string>, archive: Archive, models: Models)
    requires ExtractChunks(nodes) == Ok([])
    ensures ProcessAll(Segment(latex, nodes).value, pdfId, archive, models).Ok?
    ensures var cv := ProcessAll(Segment(latex, nodes).value, pdfId, archive, models).value;
      && Join(Processed(cv.chunks)) == Some(latex)
      && cv.tables == [] && cv.images == []
      && |cv.text| == if latex == "" then 0 else 1
  {
    SegmentWithoutTablesOrImages(latex, nodes);
    var g := Segment(latex, nodes).value;
    if |latex| > 0 {
      var c := g[0];
      assert g[..0] == [];
      var c' := c.(processedContent := c.rawContent);
      assert ProcessAll(g[..0], pdfId, archive, models) == Ok(Converted([], [], [], []));
      assert ProcessChunk(g[0], pdfId, archive, models) == Ok(c');
      assert [] + [c'] == [c'];
      assert ProcessAll(g, pdfId, archive, models) == Ok(Converted([c'], [c'], [], []));
      assert Processed([c']) == [Some(latex)];
      assert Join([Some(latex)][1..]) == Some("");
      assert latex + "" == latex;
    }
  }

  /** `parse_result` from the archive on raises only these exceptions: an
      unreadable archive, no ".tex" entry, a source that is not UTF-8, an
      `\includegraphics` without a filename, or a missing archive entry. It
      never reaches the join with a missing processed content. */
  lemma ParsedFailures(zipBytes: Bytes, pdfId: Option<string>, models: Models, lib: Library)
    requires Parsed(zipBytes, pdfId, models, lib).Err?
    ensures var e := Parsed(zipBytes, pdfId, models, lib).error;
      || e == BadZipFile
      || e == AssertionFailed("Could not find .tex file in tex.zip")
      || e == UnicodeDecodeError
      || e.MissingFilenameArgument?
      || e.MissingArchiveEntry?
  {
    var archive := lib.openZip(zipBytes);
    if archive.Some? && FirstTex(Names(archive.value)).Some? {
      var name := FirstTex(Names(archive.value)).value;
      if Open(archive.value.entries, name).Some? {
        var bytes := Open(archive.value.entries, name).value;
        if lib.decodeUtf8(bytes).Some? {
          var raw := lib.decodeUtf8(bytes).value;
          var nodes := lib.parseLatex(raw);
          if Segment(raw, nodes).Err? {
            ExtractFailsOnlyOnMissingFilename(nodes);
          } else {
            var chunks := Segment(raw, nodes).value;
            if ProcessAll(chunks, pdfId, archive.value, models).Err? {
              ProcessAllErrors(chunks, pdfId, archive.value, models);
            } else {
              SegmentJoinSucceeds(raw, nodes, pdfId, archive.value, models);
            }
          }
        }
      }
    }
  }

  /** The chunk loop raises only for a missing archive entry. */
  lemma {:induction false} ProcessAllErrors(cs: seq<LatexChunk>, pdfId: Option<string>, archive: Archive, models: Models)
    requires ProcessAll(cs, pdfId, archive, models).Err?
    ensures ProcessAll(cs, pdfId, archive, models).error.MissingArchiveEntry?
    decreases |cs|
  {
    if ProcessAll(cs[..|cs| - 1], pdfId, archive, models).Err? {
      ProcessAllErrors(cs[..|cs| - 1], pdfId, archive, models);
    }
  }

  /** The processed contents of `g`, in order. */
  function Processed(g: seq<LatexChunk>): (r: seq<Option<string>>)
    ensures |r| == |g|
    ensures forall k :: 0 <= k < |g| ==> r[k] == g[k].processedContent
  {
    seq(|g|, k requires 0 <= k < |g| => g[k].processedContent)
  }

  /** The result of `parse_result`, field by field. */
  datatype PdfFields = PdfFields(
    rawLatex: Option<string>,
    content: Option<string>,
    text: seq<LatexChunk>,
    tables: seq<LatexChunk>,
    images: seq<LatexChunk>)

  /** `PdfResult`: created empty, then filled by `parse_result`. */
  class PdfResult {
    var rawLatex: Option<string>
    var content: Option<string>
    var text: seq<LatexChunk>
    var tables: seq<LatexChunk>
    var images: seq<LatexChunk>

    constructor ()
      ensures Fields() == PdfFields(None, None, [], [], [])
    {
      rawLatex := None;
      content := None;
      text := [];
      tables := [];
      images := [];
    }

    function Fields(): PdfFields
      reads this
    {
      PdfFields(rawLatex, content, text, tables, images)
    }
  }

  /** `parse_result` from the archive bytes on: open the archive, read the first
      ".tex" entry, then reassemble its text. */
  function Parsed(zipBytes: Bytes, pdfId: Option<string>, models: Models, lib: Library): Result<PdfFields, Failure> {
    match lib.openZip(zipBytes)
    case None => Err(BadZipFile)
    case Some(archive) =>
      match FirstTex(Names(archive))
      case None => Err(AssertionFailed(NoTexMessage))
      case Some(texFilename) =>
        match Open(archive.entries, texFilename)
        case None => Err(MissingArchiveEntry(texFilename))
        case Some(texBytes) =>
          match lib.decodeUtf8(texBytes)
          case None => Err(UnicodeDecodeError)
          case Some(rawLatex) => Reassembled(rawLatex, pdfId, archive, models, lib)
  }

  /** `parse_result` from the decoded LaTeX on: segment it, convert the chunks,
      join their processed contents in order and clean up. */
  function Reassembled(rawLatex: string, pdfId: Option<string>, archive: Archive, models: Models, lib: Library): Result<PdfFields, Failure> {
    match Segment(rawLatex, lib.parseLatex(rawLatex))
    case Err(e) => Err(e)
    case Ok(chunks) =>
      match ProcessAll(chunks, pdfId, archive, models)
      case Err(e) => Err(e)
      case Ok(cv) =>
        match Join(Processed(cv.chunks))
        case None => Err(JoinTypeError)
        case Some(joined) =>
          Ok(PdfFields(Some(rawLatex), Some(lib.cleanup(joined)), cv.text, cv.tables, cv.images))
  }

  const NoTexMessage: string := "Could not find .tex file in tex.zip"

  /** A `PdfResult` after one converted chunk was appended to the list of its
      type. */
  function Append(f: PdfFields, c: LatexChunk): PdfFields {
    match c.kind
    case Text => f.(text := f.text + [c])
    case Table => f.(tables := f.tables + [c])
    case Image => f.(images := f.images + [c])
  }

  /** A `PdfResult` after the converted chunks `cv` were appended. */
  function Extended(f: PdfFields, cv: Converted): PdfFields {
    f.(text := f.text + cv.text, tables := f.tables + cv.tables, images := f.images + cv.images)
  }

  lemma ExtendedPlace(f: PdfFields, cv: Converted, c: LatexChunk)
    ensures Extended(f, Place(cv, c)) == Append(Extended(f, cv), c)
  {
    assert f.text + (cv.text + [c]) == f.text + cv.text + [c];
    assert f.tables + (cv.tables + [c]) == f.tables + cv.tables + [c];
    assert f.images + (cv.images + [c]) == f.images + cv.images + [c];
  }

  /** One pass of the chunk loop: set the chunk's `processed_content` and append
      it to the list of its type. */
  method ConvertChunk(pdf: PdfResult, chunk: LatexChunk, pdfId: Option<string>, archive: Archive, models: Models)
    returns (r: Result<LatexChunk, Failure>)
    modifies pdf
    ensures r == ProcessChunk(chunk, pdfId, archive, models)
    ensures r.Ok? ==> pdf.Fields() == Append(old(pdf.Fields()), r.value)
    ensures r.Err? ==> pdf.Fields() == old(pdf.Fields())
  {
    var c := chunk;
    match c.kind {
      case Text =>
        c := c.(processedContent := c.rawContent);
        pdf.text := pdf.text + [c];
      case Table =>
        c := c.(processedContent := Some(TableStartDelimiter + "\n" + models.convertTable(Str(c.rawContent)) + "\n" + TableEndDelimiter));
        pdf.tables := pdf.tables + [c];
      case Image =>
        var imgPath := ImagePath(pdfId, c.filename);
        var img := FetchImg(archive, imgPath);
        if img.Err? {
          return Err(img.error);
        }
        c := c.(processedContent := Some(ImageStartDelimiter + "\n" + models.convertImage(img.value) + "\n" + ImageEndDelimiter));
        pdf.images := pdf.images + [c];
    }
    return Ok(c);
  }

  /** The chunk loop of `parse_result` on a `PdfResult` being filled: each chunk
      is converted in place and appended to the list of its type. */
  method ConvertChunks(pdf: PdfResult, chunks: seq<LatexChunk>, pdfId: Option<string>, archive: Archive, models: Models)
    returns (r: Result<seq<LatexChunk>, Failure>)
    modifies pdf
    ensures pdf.rawLatex == old(pdf.rawLatex) && pdf.content == old(pdf.content)
    ensures match ProcessAll(chunks, pdfId, archive, models)
      case Err(e) => r == Err(e)
      case Ok(cv) => r == Ok(cv.chunks) && pdf.Fields() == Extended(old(pdf.Fields()), cv)
  {
    // The source updates each chunk object of its list in place; chunks are
    // values here, so the loop collects the updated chunks in list order.
    var latexChunks: seq<LatexChunk> := [];
    var i := 0;
    ghost var cv := Converted([], [], [], []);
    ghost var f0 := pdf.Fields();
    assert chunks[..0] == [];
    while i < |chunks|
      invariant 0 <= i <= |chunks|
      invariant ProcessAll(chunks[..i], pdfId, archive, models) == Ok(cv)
      invariant latexChunks == cv.chunks
      invariant pdf.Fields() == Extended(f0, cv)
    {
      var chunk := ConvertChunk(pdf, chunks[i], pdfId, archive, models);
      ProcessAllSnoc(chunks, i, pdfId, archive, models);
      if chunk.Err? {
        ProcessAllPrefixFails(chunks, i + 1, pdfId, archive, models);
        return Err(chunk.error);
      }
      ExtendedPlace(f0, cv, chunk.value);
      latexChunks := latexChunks + [chunk.value];
      cv := Place(cv, chunk.value);
      i := i + 1;
    }
    assert chunks[..i] == chunks;
    return Ok(latexChunks);
  }

  /** The loop after one more chunk. */
  lemma ProcessAllSnoc(cs: seq<LatexChunk>, i: nat, pdfId: Option<string>, archive: Archive, models: Models)
    requires i < |cs|
    requires ProcessAll(cs[..i], pdfId, archive, models).Ok?
    ensures ProcessAll(cs[..i + 1], pdfId, archive, models) ==
      match ProcessChunk(cs[i], pdfId, archive, models)
      case Err(e) => Err(e)
      case Ok(c) => Ok(Place(ProcessAll(cs[..i], pdfId, archive, models).value, c))
  {
    assert cs[..i + 1][..i] == cs[..i];
  }


  /** A failure in a prefix of the chunks is the failure of the whole loop. */
  lemma {:induction false} ProcessAllPrefixFails(cs: seq<LatexChunk>, n: nat, pdfId: Option<string>, archive: Archive, models: Models)
    requires n <= |cs|
    requires ProcessAll(cs[..n], pdfId, archive, models).Err?
    ensures ProcessAll(cs, pdfId, archive, models) == ProcessAll(cs[..n], pdfId, archive, models)
    decreases |cs| - n
  {
    if n < |cs| {
      assert cs[..n + 1][..n] == cs[..n];
      ProcessAllPrefixFails(cs, n + 1, pdfId, archive, models);
    } else {
      assert cs[..n] == cs;
    }
  }

  /** `parse_result` from the archive bytes on. */
  method ParseZip(zipBytes: Bytes, pdfId: Option<string>, models: Models, lib: Library) returns (r: Result<PdfResult, Failure>)
    ensures match Parsed(zipBytes, pdfId, models, lib)
      case Err(e) => r == Err(e)
      case Ok(f) => r.Ok? && fresh(r.value) && r.value.Fields() == f
  {
    var zipRef := lib.openZip(zipBytes);
    if zipRef.None? {
      return Err(BadZipFile);
    }
    var archive := zipRef.value;
    var texFilename := FetchTexFilename(Names(archive));
    if texFilename.None? {
      return Err(AssertionFailed(NoTexMessage));
    }
    var pdfResult := new PdfResult();
    var texFile := Open(archive.entries, texFilename.value);
    if texFile.None? {
      return Err(MissingArchiveEntry(texFilename.value));
    }
    var decoded := lib.decodeUtf8(texFile.value);
    if decoded.None? {
      return Err(UnicodeDecodeError);
    }
    pdfResult.rawLatex := decoded;
    r := ReassembleInto(pdfResult, decoded.value, pdfId, archive, models, lib);
  }

  /** `parse_result` from the decoded LaTeX on, filling a new `PdfResult` that
      so far holds only that LaTeX. */
  method ReassembleInto(pdfResult: PdfResult, rawLatex: string, pdfId: Option<string>, archive: Archive, models: Models, lib: Library)
    returns (r: Result<PdfResult, Failure>)
    requires pdfResult.Fields() == PdfFields(Some(rawLatex), None, [], [], [])
    modifies pdfResult
    ensures match Reassembled(rawLatex, pdfId, archive, models, lib)
      case Err(e) => r == Err(e)
      case Ok(f) => r == Ok(pdfResult) && pdfResult.Fields() == f
  {
    var latexChunks := GetLatexChunks(rawLatex, lib.parseLatex(rawLatex));
    if latexChunks.Err? {
      return Err(latexChunks.error);
    }
    var converted := ConvertChunks(pdfResult, latexChunks.value, pdfId, archive, models);
    if converted.Err? {
      return Err(converted.error);
    }
    var latexStr := Join(Processed(converted.value));
    if latexStr.None? {
      return Err(JoinTypeError);
    }
    pdfResult.content := Some(lib.cleanup(latexStr.value));
    return Ok(pdfResult);
  }
}
