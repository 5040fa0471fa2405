/** The world the pipeline acts on, kept abstract: lines of text, paths, a file
    system mapping each existing file to its lines, and the errors that escape an
    invocation as Python exceptions. */
module Environment {

  /** One line as the pipeline reads and writes it, newline included. */
  type Line = string

  /** A path as its sequence of components below some root. */
  type Path = seq<string>

  /** pathlib's `dir / name` for a name that is empty or one plain component: joining
      the empty string leaves the path unchanged. A name containing `/`, the name `.`
      and an absolute name get no special treatment here. */
  function Join(dir: Path, name: string): Path
  {
    if name == "" then dir else dir + [name]
  }

  /** Every existing file and its contents: the lines of a text file, or the
      decompressed lines of a compressed archive. */
  type FileSystem = map<Path, seq<Line>>

  /** The exceptions that leave an invocation. */
  datatype Error =
    | MalformedLine(line: Line)         // a line that does not decode as UTF-8 or parse as JSON
    | MissingField(field: string)       // a record without the key (KeyError) or with a value of the wrong type
    | TimestampOutOfRange(stamp: int)   // `utcfromtimestamp` rejects the timestamp (ValueError)
    | BadChecksumLine(line: string)     // a checksum line that is not exactly two fields (ValueError)
    | FileMissing(path: Path)           // a file operation on a path that no longer exists (FileNotFoundError)
}
