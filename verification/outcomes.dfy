/** Optional values and success/failure results, used wherever the extension
    either catches an exception or stops a command early. */
module Outcomes {

  /** A value that may be missing: a failed `stat`, `readdir` or `readFile`,
      an absent command argument, a workspace lookup that finds nothing. */
  datatype Option<+T> = None | Some(value: T)

  /** The outcome of a whole command: a value, or the reason it stopped. */
  datatype Result<+T, +E> = Ok(value: T) | Err(error: E)
}
