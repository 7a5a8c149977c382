/** The exceptions the conversion pipeline can raise, as values. */
module Failures {

  datatype Failure =
      /** `node.nodeargs[0].nodelist[0].chars` fails on an `\includegraphics` at `pos`. */
    | MissingFilenameArgument(pos: nat)
      /** A non-ok HTTP reply: the `except requests.exceptions` clause names a module,
          so the exception escapes instead of being stored. */
    | HttpError
      /** A `KeyError` while reading a reply body. */
    | MissingKey(key: string)
      /** The input trace ended while the polling loop would still be running. */
    | PollingNotFinished
      /** The download request itself raised. */
    | DownloadFailed
      /** An `assert` in `parse_result` failed. */
    | AssertionFailed(message: string)
      /** `base64.b64decode` rejected the stored text. */
    | InvalidBase64
      /** `zipfile.ZipFile` could not open the bytes. */
    | BadZipFile
      /** `ZipFile.open` was asked for a name the archive does not hold. */
    | MissingArchiveEntry(name: string)
      /** `.decode('utf-8')` of the LaTeX source failed. */
    | UnicodeDecodeError
      /** `"".join` met a chunk whose `processed_content` is `None`. */
    | JoinTypeError
      /** Assigning an attribute the pydantic model does not declare. */
    | UndeclaredField(name: string)
      /** `MathpixProcessingError(error)` raised by `convert`. */
    | ProcessingError(message: string)
}
