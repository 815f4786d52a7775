/** The errors a parse can report (error.go), and the Result and Option
    wrappers the model uses for Go's `(value, error)` pairs and nil pointers. */
module Errors {

  /** The three sentinel errors of error.go, plus the error a value parser
      (strconv.ParseInt, time.Parse) returns, carried through unchanged. */
  datatype Error =
    | ParseTooShortErr
    | OpenClosedFlagErr
    | ValueStrErr
    | ValueParseErr(cause: string)

  /** A Go `(value, err)` return where exactly one side is meaningful. */
  datatype Result<T, E> = Ok(value: T) | Err(error: E)

  /** A Go pointer that may be nil. */
  datatype Option<T> = None | Some(value: T)
}
