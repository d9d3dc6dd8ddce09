/** Optional values and results, for the source's `Option` and `Result`, and label sets. */
module Common {
  datatype Option<+T> = None | Some(value: T)

  /** A series' or stream's label set. */
  type Labels = map<string, string>

  datatype Result<+T, +E> = Ok(value: T) | Err(error: E)
}
