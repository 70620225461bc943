/** Failure-carrying wrappers shared by the parsing modules. */
module Results {

  /** An optional value: a C++ variable that may still be uninitialised,
      or an attribute that may be absent. */
  datatype Option<+T> = None | Some(value: T)

  /** The outcome of an operation that can throw in the original program. */
  datatype Result<+T, +E> = Ok(value: T) | Err(error: E)
}
