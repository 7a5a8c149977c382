/** The LaTeX segmenter: splits the LaTeX source returned by the OCR service into
    text, table and image chunks that tile the source. The parse tree produced by
    the LaTeX walker is an input of the model; the LaTeX grammar is not modelled. */
module LatexHelpers {
  import opened Wrappers
  import opened PyText
  import opened Failures

  datatype ChunkType = Table | Text | Image

  /** A span `[start, end)` of the LaTeX source. `filename` is set only on image
      chunks; `rawContent` is attached by `GetLatexChunks`; `processedContent` is
      filled in later by the chunk conversion. */
  datatype LatexChunk = LatexChunk(
    start: nat,
    end: nat,
    kind: ChunkType,
    filename: Option<string>,
    rawContent: Option<string>,
    processedContent: Option<string>)

  function TextChunk(start: nat, end: nat): LatexChunk {
    LatexChunk(start, end, Text, None, None, None)
  }

  /** The nodes of the walker's parse tree that the segmenter tells apart. Every
      node covers `[pos, pos + len)` of the source. A macro's arguments are
      optional nodes, since the walker leaves an absent optional argument empty. */
  datatype Node =
    | EnvironmentNode(environmentName: string, pos: nat, len: nat, nodelist: seq<Node>)
    | GroupNode(pos: nat, len: nat, nodelist: seq<Node>)
    | MathNode(pos: nat, len: nat, nodelist: seq<Node>)
    | MacroNode(macroName: string, pos: nat, len: nat, nodeargs: seq<Option<Node>>)
    | CharsNode(pos: nat, len: nat, chars: string)
    | OtherNode(pos: nat, len: nat)
  {
    function End(): nat {
      pos + len
    }

    predicate HasChildren() {
      EnvironmentNode? || GroupNode? || MathNode?
    }
  }

  /** A zip archive as its list of entries, in `namelist()` order. */
  datatype Archive = Archive(entries: seq<(string, Bytes)>)

  function Names(a: Archive): (names: seq<string>)
    ensures |names| == |a.entries|
    ensures forall k :: 0 <= k < |names| ==> names[k] == a.entries[k].0
  {
    seq(|a.entries|, k requires 0 <= k < |a.entries| => a.entries[k].0)
  }

  /** `ZipFile.open(name).read()`: the last entry carrying that name (the one
      `zipfile` indexes), or `None` for the `KeyError` of an unknown name. */
  function Open(entries: seq<(string, Bytes)>, name: string): (r: Option<Bytes>)
    ensures r.Some? <==> exists k :: 0 <= k < |entries| && entries[k].0 == name
    decreases |entries|
  {
    if entries == [] then None
    else if entries[|entries| - 1].0 == name then Some(entries[|entries| - 1].1)
    else
      var r := Open(entries[..|entries| - 1], name);
      assert forall k :: 0 <= k < |entries| - 1 ==> entries[..|entries| - 1][k] == entries[k];
      r
  }

  /** What `Open` reads is the last entry carrying the name. */
  lemma {:induction false} OpenReadsLastEntry(entries: seq<(string, Bytes)>, name: string)
    requires Open(entries, name).Some?
    ensures exists k ::
      && 0 <= k < |entries| && entries[k] == (name, Open(entries, name).value)
      && forall j :: k < j < |entries| ==> entries[j].0 != name
    decreases |entries|
  {
    var n := |entries| - 1;
    if entries[n].0 == name {
      assert entries[n] == (name, Open(entries, name).value);
    } else {
      var init := entries[..n];
      OpenReadsLastEntry(init, name);
      var k :| 0 <= k < |init| && init[k] == (name, Open(init, name).value)
        && forall j :: k < j < |init| ==> init[j].0 != name;
      assert entries[k] == init[k];
      assert forall j :: k < j < n ==> entries[j] == init[j];
    }
  }

  /** `fetch_img`: read one entry of the archive. */
  function FetchImg(a: Archive, path: string): (r: Result<Bytes, Failure>)
    ensures r.Ok? <==> path in Names(a)
    ensures r.Err? ==> r.error == MissingArchiveEntry(path)
    ensures r.Ok? ==> Open(a.entries, path) == Some(r.value)
  {
    match Open(a.entries, path)
    case Some(b) => Ok(b)
    case None => Err(MissingArchiveEntry(path))
  }

  // ---------------------------------------------------------------------------
  // fetch_tex_filename

  /** Index of the first name ending in ".tex", or `|names|` when there is none. */
  function FirstTexIndex(names: seq<string>): (k: nat)
    ensures k <= |names|
    ensures forall j :: 0 <= j < k ==> !EndsWith(names[j], ".tex")
    ensures k < |names| ==> EndsWith(names[k], ".tex")
    decreases |names|
  {
    if names == [] then 0
    else if EndsWith(names[0], ".tex") then 0
    else 1 + FirstTexIndex(names[1..])
  }

  /** The name `fetch_tex_filename` returns. */
  function FirstTex(names: seq<string>): Option<string> {
    var k := FirstTexIndex(names);
    if k < |names| then Some(names[k]) else None
  }

  /** `fetch_tex_filename`: `None` exactly when no name ends in ".tex", otherwise
      the first such name. */
  lemma FirstTexSpec(names: seq<string>)
    ensures FirstTex(names).None? <==> forall j :: 0 <= j < |names| ==> !EndsWith(names[j], ".tex")
    ensures FirstTex(names).Some? ==>
      exists k :: 0 <= k < |names| && names[k] == FirstTex(names).value
        && EndsWith(names[k], ".tex")
        && forall j :: 0 <= j < k ==> !EndsWith(names[j], ".tex")
  {
    var k := FirstTexIndex(names);
    if k < |names| {
      assert names[k] == FirstTex(names).value;
    }
  }

  /** The loop of `fetch_tex_filename`, with its early `break`. */
  method FetchTexFilename(names: seq<string>) returns (texFilename: Option<string>)
    ensures texFilename == FirstTex(names)
  {
    texFilename := None;
    var i := 0;
    while i < |names|
      invariant 0 <= i <= |names|
      invariant texFilename == None
      invariant forall j :: 0 <= j < i ==> !EndsWith(names[j], ".tex")
    {
      if EndsWith(names[i], ".tex") {
        texFilename := Some(names[i]);
        break;
      }
      i := i + 1;
    }
    assert FirstTexIndex(names) == i by {
      FirstTexIndexIsFirst(names, i);
    }
  }

  lemma {:induction false} FirstTexIndexIsFirst(names: seq<string>, i: nat)
    requires i <= |names|
    requires forall j :: 0 <= j < i ==> !EndsWith(names[j], ".tex")
    requires i < |names| ==> EndsWith(names[i], ".tex")
    ensures FirstTexIndex(names) == i
    decreases i
  {
    if i > 0 {
      assert !EndsWith(names[0], ".tex");
      assert forall j :: 0 <= j < i - 1 ==> names[1..][j] == names[j + 1];
      FirstTexIndexIsFirst(names[1..], i - 1);
    }
  }

  // ---------------------------------------------------------------------------
  // extract_chunks

  /** The filename of an `\includegraphics`: the characters of the first node of
      its first argument. Any missing piece (no argument, an empty argument, an
      argument that has no node list, a first node that is not characters) is
      the exception the Python indexing raises. */
  function ImageFilename(nodeargs: seq<Option<Node>>): Option<string> {
    if |nodeargs| == 0 then None
    else match nodeargs[0]
      case None => None
      case Some(arg) =>
        if !arg.HasChildren() || |arg.nodelist| == 0 then None
        else match arg.nodelist[0]
          case CharsNode(_, _, chars) => Some(chars)
          case _ => None
  }

  function TableChunk(n: Node): LatexChunk {
    LatexChunk(n.pos, n.End(), Table, None, None, None)
  }

  function ImageChunk(n: Node, filename: string): LatexChunk {
    LatexChunk(n.pos, n.End(), Image, Some(filename), None, None)
  }

  predicate IsTabular(n: Node) {
    n.EnvironmentNode? && n.environmentName == "tabular"
  }

  predicate IsIncludeGraphics(n: Node) {
    n.MacroNode? && n.macroName == "includegraphics"
  }

  /** Whether the search descends into `n`: groups and environments other than
      `tabular`. */
  predicate IsSearched(n: Node) {
    !IsTabular(n) && (n.GroupNode? || n.EnvironmentNode?)
  }

  /** `extract_chunks`: the table and image chunks of `nodes`, in document order. */
  function ExtractChunks(nodes: seq<Node>): Result<seq<LatexChunk>, Failure>
    decreases nodes
  {
    if nodes == [] then Ok([])
    else
      var n := nodes[0];
      var here: Result<seq<LatexChunk>, Failure> :=
        if IsTabular(n) then Ok([TableChunk(n)])
        else if IsIncludeGraphics(n) then
          match ImageFilename(n.nodeargs)
          case None => Err(MissingFilenameArgument(n.pos))
          case Some(f) => Ok([ImageChunk(n, f)])
        else if IsSearched(n) then ExtractChunks(n.nodelist)
        else Ok([]);
      match here
      case Err(e) => Err(e)
      case Ok(h) =>
        match ExtractChunks(nodes[1..])
        case Err(e) => Err(e)
        case Ok(t) => Ok(h + t)
  }

  /** Searching a concatenation of sibling lists: the chunks of the first list
      followed by the chunks of the second, and the first exception wins. */
  lemma {:induction false} ExtractAppend(a: seq<Node>, b: seq<Node>)
    ensures ExtractChunks(a + b) ==
      match ExtractChunks(a)
      case Err(e) => Err(e)
      case Ok(ca) =>
        match ExtractChunks(b)
        case Err(e) => Err(e)
        case Ok(cb) => Ok(ca + cb)
    decreases |a|
  {
    if a == [] {
      assert a + b == b;
      match ExtractChunks(b) {
        case Err(_) =>
        case Ok(cb) => assert [] + cb == cb;
      }
    } else {
      assert (a + b)[0] == a[0];
      assert (a + b)[1..] == a[1..] + b;
      ExtractAppend(a[1..], b);
      match ExtractChunks(a[1..]) {
        case Err(_) =>
        case Ok(t) =>
          match ExtractChunks(b) {
            case Err(_) =>
            case Ok(cb) =>
              forall h: seq<LatexChunk> ensures h + (t + cb) == (h + t) + cb { }
          }
      }
    }
  }

  /** A `tabular` environment becomes one table chunk spanning the node, and is
      not descended into: whatever its children are. */
  lemma TabularIsOneChunk(n: Node)
    requires IsTabular(n)
    ensures ExtractChunks([n]) == Ok([LatexChunk(n.pos, n.pos + n.len, Table, None, None, None)])
  {
    assert [n][1..] == [];
    assert [TableChunk(n)] + [] == [TableChunk(n)];
  }

  /** An `\includegraphics` becomes one image chunk spanning the node, named by the
      characters of the first node of its first argument; when that argument is
      missing the search fails instead of skipping the macro. */
  lemma IncludeGraphicsIsOneChunk(n: Node)
    requires IsIncludeGraphics(n)
    ensures ImageFilename(n.nodeargs).Some? ==>
      ExtractChunks([n]) == Ok([LatexChunk(n.pos, n.pos + n.len, Image, ImageFilename(n.nodeargs), None, None)])
    ensures ImageFilename(n.nodeargs).None? ==> ExtractChunks([n]) == Err(MissingFilenameArgument(n.pos))
    ensures |n.nodeargs| == 0 ==> ExtractChunks([n]).Err?
  {
    assert [n][1..] == [];
    if ImageFilename(n.nodeargs).Some? {
      var c := ImageChunk(n, ImageFilename(n.nodeargs).value);
      assert [c] + [] == [c];
    }
  }

  /** The filename is read from `nodeargs[0].nodelist[0].chars`. */
  lemma ImageFilenameIsFirstArgumentChars(arg: Node, chars: string, cpos: nat, clen: nat, rest: seq<Node>, more: seq<Option<Node>>)
    requires arg.GroupNode? && arg.nodelist == [CharsNode(cpos, clen, chars)] + rest
    ensures ImageFilename([Some(arg)] + more) == Some(chars)
  {
  }

  /** Groups and environments other than `tabular` are searched recursively. */
  lemma SearchedNodeYieldsChildren(n: Node)
    requires IsSearched(n)
    ensures ExtractChunks([n]) == ExtractChunks(n.nodelist)
  {
    assert [n][1..] == [];
    match ExtractChunks(n.nodelist) {
      case Err(_) =>
      case Ok(h) => assert h + [] == h;
    }
  }

  /** Every other node kind (characters, math, comments, other macros) yields no
      chunk and is not searched, not even the arguments of other macros. */
  lemma OtherNodesAreNotSearched(n: Node)
    requires !IsTabular(n) && !IsIncludeGraphics(n) && !IsSearched(n)
    ensures ExtractChunks([n]) == Ok([])
  {
    assert [n][1..] == [];
    var none: seq<LatexChunk> := [];
    assert none + none == none;
  }

  /** Every chunk found by the search is a table or image chunk with nothing
      attached yet; image chunks carry a filename and table chunks none. */
  ghost predicate FoundChunks(cs: seq<LatexChunk>) {
    forall k :: 0 <= k < |cs| ==>
      && cs[k].kind != Text
      && cs[k].rawContent.None? && cs[k].processedContent.None?
      && (cs[k].kind == Image <==> cs[k].filename.Some?)
  }

  lemma {:induction false} ExtractFindsOnlyTablesAndImages(nodes: seq<Node>)
    requires ExtractChunks(nodes).Ok?
    ensures FoundChunks(ExtractChunks(nodes).value)
    decreases nodes
  {
    if nodes != [] {
      var n := nodes[0];
      if IsSearched(n) && !IsIncludeGraphics(n) {
        ExtractFindsOnlyTablesAndImages(n.nodelist);
      }
      ExtractFindsOnlyTablesAndImages(nodes[1..]);
    }
  }

  /** The search raises only on an `\includegraphics` without a filename
      argument. */
  lemma {:induction false} ExtractFailsOnlyOnMissingFilename(nodes: seq<Node>)
    requires ExtractChunks(nodes).Err?
    ensures ExtractChunks(nodes).error.MissingFilenameArgument?
    decreases nodes
  {
    var n := nodes[0];
    if !IsTabular(n) && !IsIncludeGraphics(n) && IsSearched(n) && ExtractChunks(n.nodelist).Err? {
      ExtractFailsOnlyOnMissingFilename(n.nodelist);
    } else if ExtractChunks(nodes[1..]).Err? {
      ExtractFailsOnlyOnMissingFilename(nodes[1..]);
    }
  }

  // ---------------------------------------------------------------------------
  // Well-formed trees give ordered, disjoint chunks

  /** The walker's tree is well formed within `[lo, hi]`: siblings are in order and
      do not overlap, and children lie inside their parent. */
  ghost predicate WellFormed(nodes: seq<Node>, lo: nat, hi: nat)
    decreases nodes
  {
    if nodes == [] then lo <= hi
    else
      var n := nodes[0];
      && lo <= n.pos
      && (n.HasChildren() ==> WellFormed(n.nodelist, n.pos, n.End()))
      && WellFormed(nodes[1..], n.End(), hi)
  }

  /** The chunks are in increasing order, disjoint and inside `[lo, hi]`. */
  ghost predicate Ordered(cs: seq<LatexChunk>, lo: nat, hi: nat)
    decreases |cs|
  {
    if cs == [] then lo <= hi
    else lo <= cs[0].start <= cs[0].end && Ordered(cs[1..], cs[0].end, hi)
  }

  lemma {:induction false} OrderedWeaken(cs: seq<LatexChunk>, lo': nat, lo: nat, hi: nat)
    requires lo' <= lo && Ordered(cs, lo, hi)
    ensures Ordered(cs, lo', hi)
  {
  }

  lemma {:induction false} OrderedAppend(a: seq<LatexChunk>, b: seq<LatexChunk>, lo: nat, mid: nat, hi: nat)
    requires Ordered(a, lo, mid) && Ordered(b, mid, hi)
    ensures Ordered(a + b, lo, hi)
    decreases |a|
  {
    if a == [] {
      assert a + b == b;
      OrderedWeaken(b, lo, mid, hi);
    } else {
      assert (a + b)[1..] == a[1..] + b;
      OrderedAppend(a[1..], b, a[0].end, mid, hi);
    }
  }

  /** On a well-formed tree the table and image chunks are in increasing order,
      disjoint and inside the tree's range. */
  lemma {:induction false} ExtractOrdered(nodes: seq<Node>, lo: nat, hi: nat)
    requires WellFormed(nodes, lo, hi)
    requires ExtractChunks(nodes).Ok?
    ensures Ordered(ExtractChunks(nodes).value, lo, hi)
    decreases nodes
  {
    if nodes != [] {
      var n := nodes[0];
      var rest := ExtractChunks(nodes[1..]).value;
      ExtractOrdered(nodes[1..], n.End(), hi);
      var h: seq<LatexChunk>;
      if IsTabular(n) {
        h := [TableChunk(n)];
      } else if IsIncludeGraphics(n) {
        h := [ImageChunk(n, ImageFilename(n.nodeargs).value)];
      } else if IsSearched(n) {
        h := ExtractChunks(n.nodelist).value;
        ExtractOrdered(n.nodelist, n.pos, n.End());
        OrderedWeaken(h, lo, n.pos, n.End());
      } else {
        h := [];
      }
      assert Ordered(h, lo, n.End());
      assert ExtractChunks(nodes).value == h + rest;
      OrderedAppend(h, rest, lo, n.End(), hi);
    }
  }

  // ---------------------------------------------------------------------------
  // get_latex_chunks

  /** The gap-filling pass, as the loop of `get_latex_chunks` runs it from
      `last_pos` onwards: a text chunk for every non-empty gap before a found
      chunk, the found chunk itself, and a final text chunk up to `n`. */
  function Gaps(cs: seq<LatexChunk>, last: nat, n: nat): seq<LatexChunk>
    decreases |cs|
  {
    if cs == [] then (if last < n then [TextChunk(last, n)] else [])
    else
      (if last < cs[0].start then [TextChunk(last, cs[0].start)] else [])
      + [cs[0]] + Gaps(cs[1..], cs[0].end, n)
  }

  /** A chunk with its piece of the source attached: `latex_str[start:end]`. */
  function WithRaw(latex: string, c: LatexChunk): LatexChunk {
    c.(rawContent := Some(Slice(latex, c.start, c.end)))
  }

  function AttachRaw(latex: string, g: seq<LatexChunk>): (r: seq<LatexChunk>)
    ensures |r| == |g|
    ensures forall k :: 0 <= k < |g| ==> r[k] == WithRaw(latex, g[k])
  {
    seq(|g|, k requires 0 <= k < |g| => WithRaw(latex, g[k]))
  }

  /** What `get_latex_chunks` returns for the source `latex` whose parse tree is
      `nodes`. */
  function Segment(latex: string, nodes: seq<Node>): Result<seq<LatexChunk>, Failure> {
    match ExtractChunks(nodes)
    case Err(e) => Err(e)
    case Ok(cs) => Ok(AttachRaw(latex, Gaps(cs, 0, |latex|)))
  }

  /** `get_latex_chunks`: search the tree, fill the gaps, attach raw contents. */
  method GetLatexChunks(latex: string, nodes: seq<Node>) returns (r: Result<seq<LatexChunk>, Failure>)
    ensures r == Segment(latex, nodes)
  {
    var found := ExtractChunks(nodes);
    if found.Err? {
      return Err(found.error);
    }
    var allChunks := FillGaps(found.value, |latex|);
    allChunks := AttachRawContents(latex, allChunks);
    return Ok(allChunks);
  }

  /** Step 2 of `get_latex_chunks`: the loop over the table and image chunks that
      inserts a text chunk before each one that leaves a gap, then the last one. */
  method FillGaps(tableImageChunks: seq<LatexChunk>, len: nat) returns (allChunks: seq<LatexChunk>)
    ensures allChunks == Gaps(tableImageChunks, 0, len)
  {
    allChunks := [];
    var lastPos: nat := 0;
    var i := 0;
    while i < |tableImageChunks|
      invariant 0 <= i <= |tableImageChunks|
      invariant allChunks + Gaps(tableImageChunks[i..], lastPos, len) == Gaps(tableImageChunks, 0, len)
    {
      var chunk := tableImageChunks[i];
      ghost var done := allChunks;
      ghost var pre := if lastPos < chunk.start then [TextChunk(lastPos, chunk.start)] else [];
      GapsStep(done, tableImageChunks, i, lastPos, len);
      if lastPos < chunk.start {
        allChunks := allChunks + [TextChunk(lastPos, chunk.start)];
      } else {
        assert done + pre == done;
      }
      lastPos := chunk.end;
      allChunks := allChunks + [chunk];
      assert allChunks == done + pre + [chunk];
      i := i + 1;
    }
    if lastPos < len {
      allChunks := allChunks + [TextChunk(lastPos, len)];
    }
  }

  /** One pass of the gap-filling loop: emit the gap before the next chunk, if
      any, then the chunk. */
  lemma GapsStep(done: seq<LatexChunk>, cs: seq<LatexChunk>, i: nat, lastPos: nat, len: nat)
    requires i < |cs|
    ensures var pre := if lastPos < cs[i].start then [TextChunk(lastPos, cs[i].start)] else [];
      done + Gaps(cs[i..], lastPos, len) == (done + pre + [cs[i]]) + Gaps(cs[i + 1..], cs[i].end, len)
  {
    assert cs[i..][1..] == cs[i + 1..];
    var pre := if lastPos < cs[i].start then [TextChunk(lastPos, cs[i].start)] else [];
    var tail := Gaps(cs[i + 1..], cs[i].end, len);
    assert Gaps(cs[i..], lastPos, len) == pre + [cs[i]] + tail;
    assert done + (pre + [cs[i]] + tail) == (done + pre + [cs[i]]) + tail;
  }

  /** Step 3 of `get_latex_chunks`: every chunk gets `latex_str[start:end]`. */
  method AttachRawContents(latex: string, chunks: seq<LatexChunk>) returns (r: seq<LatexChunk>)
    ensures r == AttachRaw(latex, chunks)
  {
    r := chunks;
    var j := 0;
    while j < |r|
      invariant 0 <= j <= |r| == |chunks|
      invariant forall k :: 0 <= k < j ==> r[k] == WithRaw(latex, chunks[k])
      invariant forall k :: j <= k < |chunks| ==> r[k] == chunks[k]
    {
      var chunk := r[j];
      r := r[j := chunk.(rawContent := Some(Slice(latex, chunk.start, chunk.end)))];
      j := j + 1;
    }
  }

  // ---------------------------------------------------------------------------
  // Properties of the segmentation

  /** Every returned chunk carries `latex_str[start:end]` as its raw content. */
  lemma SegmentRawIsSlice(latex: string, nodes: seq<Node>)
    requires Segment(latex, nodes).Ok?
    ensures forall c :: c in Segment(latex, nodes).value ==>
      c.rawContent == Some(Slice(latex, c.start, c.end))
  {
  }

  /** Text chunks cover non-empty gaps only, and two text chunks are never
      adjacent. */
  ghost predicate TextChunksSeparate(g: seq<LatexChunk>) {
    && (forall k :: 0 <= k < |g| && g[k].kind == Text ==> g[k].start < g[k].end)
    && (forall k :: 0 <= k < |g| - 1 ==> g[k].kind != Text || g[k + 1].kind != Text)
  }

  /** The gap filler emits text chunks only for non-empty gaps and never two in a
      row, provided the found chunks contain no text chunk. */
  lemma {:induction false} GapsTextChunks(cs: seq<LatexChunk>, last: nat, n: nat)
    requires forall k :: 0 <= k < |cs| ==> cs[k].kind != Text
    ensures TextChunksSeparate(Gaps(cs, last, n))
    decreases |cs|
  {
    if cs == [] {
      if last < n {
        ConsSeparate(TextChunk(last, n), []);
      }
    } else {
      GapsTextChunks(cs[1..], cs[0].end, n);
      var tail := Gaps(cs[1..], cs[0].end, n);
      ConsSeparate(cs[0], tail);
      if last < cs[0].start {
        ConsSeparate(TextChunk(last, cs[0].start), [cs[0]] + tail);
        assert Gaps(cs, last, n) == [TextChunk(last, cs[0].start)] + ([cs[0]] + tail);
      } else {
        assert Gaps(cs, last, n) == [cs[0]] + tail;
      }
    }
  }

  lemma ConsSeparate(c: LatexChunk, g: seq<LatexChunk>)
    requires TextChunksSeparate(g)
    requires c.kind == Text ==> c.start < c.end && (g != [] ==> g[0].kind != Text)
    ensures TextChunksSeparate([c] + g)
  {
    var r := [c] + g;
    assert forall k :: 0 < k < |r| ==> r[k] == g[k - 1];
  }

  lemma SegmentTextChunks(latex: string, nodes: seq<Node>)
    requires Segment(latex, nodes).Ok?
    ensures TextChunksSeparate(Segment(latex, nodes).value)
  {
    var cs := ExtractChunks(nodes).value;
    ExtractFindsOnlyTablesAndImages(nodes);
    GapsTextChunks(cs, 0, |latex|);
  }

  /** The chunks are contiguous, in order, and together cover `[lo, hi)`. */
  ghost predicate Tiles(g: seq<LatexChunk>, lo: nat, hi: nat)
    decreases |g|
  {
    if g == [] then lo == hi
    else g[0].start == lo && lo <= g[0].end && Tiles(g[1..], g[0].end, hi)
  }

  lemma {:induction false} GapsTile(cs: seq<LatexChunk>, last: nat, n: nat)
    requires Ordered(cs, last, n)
    ensures Tiles(Gaps(cs, last, n), last, n)
    decreases |cs|
  {
    if cs != [] {
      GapsTile(cs[1..], cs[0].end, n);
      var tail := [cs[0]] + Gaps(cs[1..], cs[0].end, n);
      assert tail[1..] == Gaps(cs[1..], cs[0].end, n);
      if last < cs[0].start {
        var g := [TextChunk(last, cs[0].start)] + tail;
        assert g[1..] == tail;
      }
    }
  }

  function Raws(g: seq<LatexChunk>): (r: seq<Option<string>>)
    ensures |r| == |g|
    ensures forall k :: 0 <= k < |g| ==> r[k] == g[k].rawContent
  {
    seq(|g|, k requires 0 <= k < |g| => g[k].rawContent)
  }

  /** Chunks that tile `[lo, hi)` reproduce `latex[lo..hi]` once their raw content
      is attached. */
  lemma {:induction false} TilesJoin(latex: string, g: seq<LatexChunk>, lo: nat, hi: nat)
    requires Tiles(g, lo, hi) && lo <= hi <= |latex|
    ensures Join(Raws(AttachRaw(latex, g))) == Some(latex[lo..hi])
    decreases |g|
  {
    if g != [] {
      TilesEnd(g[1..], g[0].end, hi);
      TilesJoin(latex, g[1..], g[0].end, hi);
      var parts := Raws(AttachRaw(latex, g));
      assert parts[1..] == Raws(AttachRaw(latex, g[1..]));
      assert parts[0] == Some(latex[lo..g[0].end]);
      assert latex[lo..hi] == latex[lo..g[0].end] + latex[g[0].end..hi];
    } else {
      assert Raws(AttachRaw(latex, g)) == [];
      assert latex[lo..hi] == "";
    }
  }

  lemma {:induction false} TilesEnd(g: seq<LatexChunk>, lo: nat, hi: nat)
    requires Tiles(g, lo, hi)
    ensures lo <= hi
    decreases |g|
  {
    if g != [] {
      TilesEnd(g[1..], g[0].end, hi);
    }
  }

  /** On a well-formed tree the chunks tile the whole source, and concatenating
      their raw contents gives back the source. */
  lemma SegmentTilesSource(latex: string, nodes: seq<Node>)
    requires WellFormed(nodes, 0, |latex|)
    requires Segment(latex, nodes).Ok?
    ensures Tiles(Segment(latex, nodes).value, 0, |latex|)
    ensures Join(Raws(Segment(latex, nodes).value)) == Some(latex)
  {
    var cs := ExtractChunks(nodes).value;
    ExtractOrdered(nodes, 0, |latex|);
    var g := Gaps(cs, 0, |latex|);
    GapsTile(cs, 0, |latex|);
    AttachRawTiles(latex, g, 0, |latex|);
    TilesJoin(latex, g, 0, |latex|);
    assert latex[0..|latex|] == latex;
  }

  lemma {:induction false} AttachRawTiles(latex: string, g: seq<LatexChunk>, lo: nat, hi: nat)
    requires Tiles(g, lo, hi)
    ensures Tiles(AttachRaw(latex, g), lo, hi)
    decreases |g|
  {
    if g != [] {
      AttachRawTiles(latex, g[1..], g[0].end, hi);
      assert AttachRaw(latex, g)[1..] == AttachRaw(latex, g[1..]);
    }
  }

  /** With no `tabular` and no `\includegraphics` found, the result is one text
      chunk spanning the source, or nothing for an empty source. */
  lemma SegmentWithoutTablesOrImages(latex: string, nodes: seq<Node>)
    requires ExtractChunks(nodes) == Ok([])
    ensures |latex| > 0 ==> Segment(latex, nodes) == Ok([LatexChunk(0, |latex|, Text, None, Some(latex), None)])
    ensures |latex| == 0 ==> Segment(latex, nodes) == Ok([])
  {
    assert latex[0..|latex|] == latex;
    if |latex| > 0 {
      var g := AttachRaw(latex, [TextChunk(0, |latex|)]);
      assert g[0] == LatexChunk(0, |latex|, Text, None, Some(latex), None);
      assert g == [g[0]];
    }
  }

  /** The chunks of `g` that are not text, in order. */
  function NonText(g: seq<LatexChunk>): seq<LatexChunk>
    decreases |g|
  {
    if g == [] then []
    else (if g[0].kind == Text then [] else [g[0]]) + NonText(g[1..])
  }

  lemma {:induction false} NonTextAppend(a: seq<LatexChunk>, b: seq<LatexChunk>)
    ensures NonText(a + b) == NonText(a) + NonText(b)
    decreases |a|
  {
    if a == [] {
      assert a + b == b;
    } else {
      assert (a + b)[1..] == a[1..] + b;
      NonTextAppend(a[1..], b);
    }
  }

  lemma {:induction false} GapsKeepsFound(cs: seq<LatexChunk>, last: nat, n: nat)
    requires forall k :: 0 <= k < |cs| ==> cs[k].kind != Text
    ensures NonText(Gaps(cs, last, n)) == cs
    decreases |cs|
  {
    if cs == [] {
      if last < n {
        assert NonText([TextChunk(last, n)]) == [] + NonText([]);
      }
    } else {
      GapsKeepsFound(cs[1..], cs[0].end, n);
      var pre := if last < cs[0].start then [TextChunk(last, cs[0].start)] else [];
      var tail := Gaps(cs[1..], cs[0].end, n);
      NonTextAppend(pre + [cs[0]], tail);
      NonTextAppend(pre, [cs[0]]);
      assert NonText([cs[0]]) == [cs[0]] + NonText([]);
      if pre != [] {
        assert NonText(pre) == [] + NonText([]);
      }
      assert cs == [cs[0]] + cs[1..];
    }
  }

  lemma {:induction false} NonTextAttachRaw(latex: string, g: seq<LatexChunk>)
    ensures NonText(AttachRaw(latex, g)) == AttachRaw(latex, NonText(g))
    decreases |g|
  {
    if g != [] {
      assert AttachRaw(latex, g)[1..] == AttachRaw(latex, g[1..]);
      NonTextAttachRaw(latex, g[1..]);
      var head := if g[0].kind == Text then [] else [g[0]];
      assert AttachRaw(latex, head + NonText(g[1..])) == AttachRaw(latex, head) + AttachRaw(latex, NonText(g[1..]));
    }
  }

  /** The table and image chunks keep the walker's document order in the result
      and are otherwise unchanged, apart from their attached raw content. */
  lemma SegmentKeepsTablesAndImages(latex: string, nodes: seq<Node>)
    requires ExtractChunks(nodes).Ok?
    ensures Segment(latex, nodes).Ok?
    ensures NonText(Segment(latex, nodes).value) == AttachRaw(latex, ExtractChunks(nodes).value)
  {
    var cs := ExtractChunks(nodes).value;
    ExtractFindsOnlyTablesAndImages(nodes);
    GapsKeepsFound(cs, 0, |latex|);
    NonTextAttachRaw(latex, Gaps(cs, 0, |latex|));
  }
}
