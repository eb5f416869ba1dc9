/** Failure-carrying results shared by the framing layer and the server. */
module Outcomes {

  datatype Option<+T> = None | Some(value: T)

  /** The failures that the connection operations report to their callers. */
  datatype Failure =
    | Protocol(msg: string)   // a frame error from `Frame::check` or `Frame::parse`
    | Io                      // the transport reported an I/O error
    | ConnectionReset         // "connection reset by peer": end-of-stream inside a frame
    | WriteZero               // the scratch buffer of `write_decimal` was too small

  /** Rust's `Result<T>`: a value or an error returned to the caller. */
  datatype Res<+T> = Ok(value: T) | Err(failure: Failure)

  /** A call that either returns or panics (`unwrap` on an error, `unimplemented!`, `panic!`). */
  datatype Outcome<+T> = Returned(result: T) | Panicked(message: string)

  /** The message of the panic of `unwrap` on an `Err`. */
  const UNWRAP_PANIC: string := "called `Result::unwrap()` on an `Err` value"
}
