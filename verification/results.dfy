/** Failure-carrying values shared by the models of the dashboard and of the user controller. */
module Results {

  /** A value that may be missing, in place of JavaScript's `null` / "not found". */
  datatype Option<+T> = None | Some(value: T)

  /** The outcome of a step that either produces a value or raises an error with a message. */
  datatype Result<+T, +E> = Ok(value: T) | Err(error: E)
}
