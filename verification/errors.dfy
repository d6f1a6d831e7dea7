/**
 * Errors as the Go code builds them with github.com/pkg/errors: a root cause,
 * possibly wrapped in context messages by `errors.Wrap`.
 */
module Errors {

  /** The root causes the framing layer tells apart. */
  datatype Cause =
    | DeadlineExceeded  // os.ErrDeadlineExceeded: the read deadline passed first
    | EndOfStream       // io.EOF or io.ErrUnexpectedEOF: the peer closed before enough bytes came
    | Broken            // any other transport failure (reset, closed socket, refused write)

  datatype Error = Plain(cause: Cause) | Wrapped(context: string, inner: Error)

  /** The context both connection types wrap a failed stream close in. */
  const CloseContext := "connection close error"

  /** `errors.Is(e, c)`: does the wrapping chain of `e` end in the cause `c`? */
  predicate Is(e: Error, c: Cause) {
    match e
    case Plain(k) => k == c
    case Wrapped(_, inner) => Is(inner, c)
  }
}
