/** The failures a packaging run can end with, and the result types that
    carry them. */
module Outcomes {
  import opened Paths

  datatype Option<T> = None | Some(value: T)

  datatype Error =
    | MissingArg(name: string)          // a required option was not given
    | DirectoryNotFound(dir: string)    // the directory to archive does not exist
    | NoEntry(path: Path)               // ENOENT: a file or parent directory is missing
    | IsDirectory(path: Path)           // EISDIR: a file operation met a directory
    | NotDirectory(path: Path)          // ENOTDIR: a path runs through a file
    | AlreadyExists(path: Path)         // EEXIST: mkdir on an existing file
    | SyntaxError(path: Path)           // JSON.parse rejected the file's text
    | TypeError                         // a property was set on a non-object JSON value

  /** The text of the errors the packaging script raises itself. */
  function Message(e: Error): string
  {
    match e
    case MissingArg(name) => "Missing " + name
    case DirectoryNotFound(dir) => "Directory not found: " + dir
    case _ => ""
  }

  /** Completion of an operation that changes state: it succeeded, or it threw. */
  datatype Outcome = Pass | Fail(error: Error)

  /** Completion of an operation that yields a value. */
  datatype Result<T> = Ok(value: T) | Err(error: Error)
}
