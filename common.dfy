/** Failure-carrying results shared by the services and stores. */
module Common {

  /** A value that may be absent (`null` / `undefined` on the TypeScript side). */
  datatype Option<+T> = None | Some(value: T)

  /** The outcome of an operation that either returns a value or throws an `Error` with a message. */
  datatype Result<+T> = Ok(value: T) | Err(error: string)

  /** The outcome of an operation that returns nothing or throws an `Error` with a message. */
  datatype Outcome = Pass | Fail(error: string)
}
