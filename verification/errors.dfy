/**
 This module models Go's `error` values as far as the sidecar inspects them:
 an error is either nil or non-nil, and the only question ever asked of a
 non-nil error is whether `errors.Is(err, context.Canceled)` holds.
 */
module Errors {

  /** A non-nil Go error. `Wrapped` is an error produced with `%w`, which
      `errors.Is` looks through. */
  datatype Error =
    | Canceled
    | Wrapped(context: string, inner: Error)
    | Failure(message: string)

  /** Go's `error` result: nil (`Ok`) or a non-nil error. */
  datatype Outcome = Ok | Err(error: Error)

  /** The errors `errors.Is` visits: `e`, then what `e` wraps, and so on
      until an error that wraps nothing. */
  function UnwrapChain(e: Error): (chain: seq<Error>)
    ensures |chain| >= 1 && chain[0] == e
    ensures forall i :: 0 <= i < |chain| - 1 ==> chain[i].Wrapped? && chain[i + 1] == chain[i].inner
    ensures !chain[|chain| - 1].Wrapped?
  {
    match e
    case Wrapped(_, inner) => [e] + UnwrapChain(inner)
    case _ => [e]
  }

  /** `errors.Is(e, context.Canceled)`: some error on the unwrap chain of `e`
      is `Canceled`. */
  predicate IsCanceled(e: Error): (b: bool)
    ensures b <==> Canceled in UnwrapChain(e)
  {
    match e
    case Canceled => true
    case Wrapped(_, inner) => IsCanceled(inner)
    case Failure(_) => false
  }

  /** The outcome is a non-nil error other than a cancellation. */
  predicate IsHardError(o: Outcome)
  {
    o.Err? && !IsCanceled(o.error)
  }

}
