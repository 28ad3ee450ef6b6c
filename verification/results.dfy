/** Failure-carrying values used in place of the framework's `Maybe<...>` returns. */
module Results {

  /** An optional value, e.g. an attribute default that may be absent. */
  datatype Option<+T> = None | Some(value: T)

  /** Either a computed value or the error that stopped the computation. */
  datatype Result<+T, +E> = Ok(value: T) | Err(error: E)
}
