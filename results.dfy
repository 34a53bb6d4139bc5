/** Failure-carrying return values shared by the digest modules. */
module Results {

  /** An optional value. */
  datatype Option<+T> = None | Some(value: T)

  /** The value of a fallible operation: `Ok` or an error. */
  datatype Result<+T, +E> = Ok(value: T) | Err(error: E)
}
