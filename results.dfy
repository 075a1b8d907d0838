/** Optional values and error returns shared by the components. */
module Results {

  /** A value that may be absent: the poller publishes at most one result per iteration. */
  datatype Option<+T> = None | Some(value: T)

  /** Go's `(value, error)` pair: exactly one of the two is meaningful. */
  datatype Result<+T> = Ok(value: T) | Err(error: string)
}
