/** Option and failure datatypes shared by the whole model. */
module Wrappers {

  /** A value that may be absent: the source's `null` / `undefined`. */
  datatype Option<+T> = None | Some(value: T)

  /** The two ways the source fails: a `throw Error(message)` it raises itself,
      and the TypeError JavaScript raises on reading a property of `null` or `undefined`. */
  datatype Fault = Thrown(message: string) | TypeError(message: string)

  /** The result of an operation that either returns a value or fails with a fault. */
  datatype Result<+T> = Ok(value: T) | Err(fault: Fault)

  /** The result of an operation that returns nothing or fails with a fault. */
  datatype Outcome = Pass | Fail(fault: Fault)
}
