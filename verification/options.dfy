/** Optional cells and step results.
    - Option<T>: a value that may be missing (a pandas NaN cell).
    - Result<T, E>: a whole-table step that either produces a value or stops with an error.
 */
module Options {

  /** A cell that is either present or missing. */
  datatype Option<+T> = None | Some(value: T)

  /** The outcome of a whole-table step: a value or an error that aborts the step. */
  datatype Result<+T, +E> = Success(value: T) | Failure(error: E)
}
