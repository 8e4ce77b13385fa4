/** Outcome types shared by every module of the model. */
module Wrappers {

  /** A value that may be absent: Go's nil pointer, a missing map entry. */
  datatype Option<+T> = None | Some(value: T)

  /**
   * The three ways a Go call in this system can end:
   * - Ok: it returned a value and a nil error;
   * - Err: it returned a non-nil error to its caller;
   * - Fatal: it called log.Fatal (or dereferenced nil), ending the process.
   */
  datatype Result<+T> = Ok(value: T) | Err(msg: string) | Fatal(reason: string)
}
