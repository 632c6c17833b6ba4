/** Go errors as wrap chains, so that `errors.Is` is a function over the chain.
    A message built with %w is a `Wrap`; one that only prints its cause with %v keeps
    nothing of that cause. Message texts are not modelled. */
module Errors {

  datatype Option<+T> = None | Some(value: T)

  /** The stable Reason strings of a PumpError. */
  datatype Reason = ReadTunFailed | WriteTunFailed | SendFrameFailed | RecvFrameFailed

  datatype Error =
    | EOF                 // io.EOF
    | UnexpectedEOF       // io.ErrUnexpectedEOF
    | ShortRead           // tunnelpb.ErrShortRead
    | UnknownTag          // tunnelpb.ErrUnknownTag
    | LengthInvalid       // tunnelpb.ErrLengthInvalid
    | FieldTooLong        // tunnelpb.ErrFieldTooLong
    | TransportClosed     // transport.ErrClosed
    | DeviceClosed        // tun.ErrClosed
    | Canceled            // context.Canceled
    | DeadlineExceeded    // context.DeadlineExceeded
    | Plain(code: nat)    // every other error without a cause: errors.New, OS errors
    | Wrap(inner: Error)
    | PumpError(reason: Reason, cause: Error)

  /** errors.Is: walks the chain. */
  predicate Is(e: Error, target: Error) {
    || e == target
    || (e.Wrap? && Is(e.inner, target))
    || (e.PumpError? && Is(e.cause, target))
  }

  /** An error and what it wraps, outermost first. */
  function Chain(e: Error): seq<Error> {
    match e
    case Wrap(inner) => [e] + Chain(inner)
    case PumpError(_, cause) => [e] + Chain(cause)
    case _ => [e]
  }

  /** errors.Is finds exactly the errors of the chain. */
  lemma {:induction false} IsExactly(e: Error, target: Error)
    ensures Is(e, target) <==> target in Chain(e)
  {
    match e
    case Wrap(inner) => IsExactly(inner, target);
    case PumpError(_, cause) => IsExactly(cause, target);
    case _ =>
  }
}
