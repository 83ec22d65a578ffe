/** Failure-carrying values shared by every module of the model. */
module Results {

  datatype Option<T> = None | Some(value: T)

  /** The Python exceptions the core raises on malformed input. */
  datatype Fault = IndexError | ValueError | AttributeError | OverflowError

  /** A computation that either yields a value or raises a Python exception. */
  datatype Result<T> = Ok(value: T) | Err(fault: Fault)
}
