/** Optional values and results shared by the decoder's modules. */
module Wrappers {

  /** A value that may be missing; `None` marks an undetermined byte of the flag. */
  datatype Option<+T> = None | Some(value: T)

  /** The outcome of a run: the decoded value, or the reason the run stopped. */
  datatype Result<+T, +E> = Ok(value: T) | Err(error: E)
}
