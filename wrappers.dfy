/** Option and Result, and the errors that the scan can end with. */
module Wrappers {

  datatype Option<+T> = None | Some(value: T)

  datatype Result<+T, +E> = Ok(value: T) | Err(error: E)

  /** The failures of a run; `anyhow` carries them as messages. */
  datatype Error =
    | NotADirectory        // "input is not a directory"
    | LsFilesNotUtf8       // the output of `git ls-files` is not valid UTF-8
    | NoDataToRender       // the chart was asked for an empty mapping
}
