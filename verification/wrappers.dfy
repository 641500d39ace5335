/** Failure-compatible result types shared by every module of the journal model. */
module Wrappers {

  /** An optional value: `None` where the Python code would find no match. */
  datatype Option<+T> = None | Some(value: T) {
    predicate IsFailure() {
      None?
    }

    function PropagateFailure<U>(): Option<U>
      requires None?
    {
      None
    }

    function Extract(): T
      requires Some?
    {
      value
    }
  }

  /** The outcome of an operation that the Python code aborts with `RuntimeError`. */
  datatype Result<+T, +E> = Success(value: T) | Failure(error: E) {
    predicate IsFailure() {
      Failure?
    }

    function PropagateFailure<U>(): Result<U, E>
      requires Failure?
    {
      Failure(error)
    }

    function Extract(): T
      requires Success?
    {
      value
    }
  }

  /** The error conditions the publisher reports before exiting non-zero. */
  datatype JournalError =
    | MissingMarkerPair(start: string, end: string)   // ensure_markers_exist, first check
    | MissingLatestMeta                               // ensure_markers_exist, second check
    | MissingTitleHeading                             // no <h3>...</h3> in the entry
    | MalformedTitleLine                              // <h3> text does not start with a date
    | MissingArticle                                  // no <article>...</article> block
    | MarkerRegionNotFound(start: string, end: string) // replace_between_markers found 0 matches
    | LatestMetaNotFound                              // update_latest_meta found 0 matches
}
