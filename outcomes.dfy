/** Optional values, the Python exceptions the engine lets escape, and results carrying them. */
module Outcomes {

  datatype Option<T> = None | Some(value: T)

  /** The exceptions the source raises (rather than reports) on inputs it does not reject. */
  datatype Exception =
    | KeyError(key: string)   // a missing dictionary key or DataFrame column label
    | FrameKeyError           // a KeyError for an integer column label a data frame does not have
    | ValueError              // list.index of a missing element, or a frame relabelled with the wrong count
    | IndexError              // position 0 of an empty selection
    | TypeError               // functools.reduce over an empty sequence of tables

  datatype Result<T> = Ok(value: T) | Err(error: Exception)
}
