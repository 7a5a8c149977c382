/** Code the pipeline calls but that is not part of the model, passed in as
    functions: the language models, and the library routines for zip archives,
    UTF-8, base64, SHA-256, LaTeX parsing and the final cleanup pass. */
module Foreign {
  import opened Wrappers
  import opened PyText
  import opened LatexHelpers

  /** The table converter (a text model) and the image converter (a vision model). */
  datatype Models = Models(convertTable: string -> string, convertImage: Bytes -> string)

  datatype Library = Library(
    /** `zipfile.ZipFile(io.BytesIO(b))`; `None` when it raises `BadZipFile`. */
    openZip: Bytes -> Option<Archive>,
    /** `b.decode('utf-8')`; `None` when it raises. */
    decodeUtf8: Bytes -> Option<string>,
    /** `LatexWalker(s).get_latex_nodes()`: the parse tree of the source. */
    parseLatex: string -> seq<Node>,
    /** `preprocess_regex`, `LatexNodes2Text().latex_to_text` and
        `postprocess_regex`, applied in that order. */
    cleanup: string -> string,
    /** `base64.b64encode(b).decode("utf-8")`. */
    b64encode: Bytes -> string,
    /** `base64.b64decode(s.encode("utf-8"))`; `None` when it raises. */
    b64decode: string -> Option<Bytes>,
    /** `hashlib.sha256(b).hexdigest()`. */
    sha256Hex: Bytes -> string)

  /** Base64 decoding undoes encoding on `b`: the one property of the codec the
      model relies on. */
  predicate DecodesBack(lib: Library, b: Bytes) {
    lib.b64decode(lib.b64encode(b)) == Some(b)
  }
}
