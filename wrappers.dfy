/** Option and Result, the two failure-carrying wrappers the model needs. */
module Wrappers {

  /** A value that may be missing: an empty spreadsheet cell, or "no match". */
  datatype Option<+T> = None | Some(value: T)

  /** The outcome of a run that can stop early with an error. */
  datatype Result<+R, +E> = Success(value: R) | Failure(error: E)
}
