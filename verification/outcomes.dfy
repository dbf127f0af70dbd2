/** Option and Result wrappers, and the failures that end a run of the scraper.
    The scraper catches nothing: every failure below propagates out of `main`
    and stops the run where it happened. */
module Outcomes {

  datatype Option<+T> = None | Some(value: T)

  datatype Result<+T> = Ok(value: T) | Err(failure: Failure)

  datatype Failure =
    /** A page request that did not succeed (HTTP error status or transport error). */
    | FetchFailed(url: string)
    /** Subscripting a located tag with an attribute it does not carry (a `KeyError`). */
    | MissingAttribute(tag: string, attribute: string)
    /** An image request that raised (transport error; an error status is not checked). */
    | DownloadFailed(url: string)
    /** Opening for writing a path whose last segment is empty, `.` or `..`,
        so that it names a directory (an `IsADirectoryError`). */
    | NotAFile(path: seq<string>)
}
