/** Shared vocabulary of the visualiser: optional values, failing results,
    the highlight classification of a drawn element and the sort direction. */
module Types {

  /** A value that may be absent; stands for JavaScript's `null`/`undefined`. */
  datatype Option<T> = None | Some(value: T)

  /** The only error the structures raise: a push or enqueue past capacity. */
  datatype Error = CapacityExceeded

  /** The outcome of an operation that may throw. */
  datatype Result<T> = Ok(value: T) | Err(error: Error)

  /** The highlight phase of an element (`ElementStates`). */
  datatype ElementState = Default | Changing | Modified

  /** The order requested from a sorting driver (`Direction`). */
  datatype Direction = Ascending | Descending
}
