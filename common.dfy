/** Definitions shared by both simulations: the error outcomes, the
    percentage checks that guard each simulation, and the conversion of
    percentages to fractions. */
module Common {

  /** The ways a simulation can stop without a result.
      - InvalidParameter: one of the argument checks failed before any step ran.
      - EmptyLadder: the firing loop read the front of an exhausted list.
      - ZeroDivision: the initial portfolio value is zero, so no relative
        change can be computed. */
  datatype Error = InvalidParameter | EmptyLadder | ZeroDivision

  datatype Result<T> = Ok(value: T) | Fail(error: Error)

  /** A configuration percentage must lie strictly between 0 and 100. */
  predicate InOpenPercent(x: real) {
    0.0 < x < 100.0
  }

  predicate AllPercent(xs: seq<real>) {
    forall i | 0 <= i < |xs| :: InOpenPercent(xs[i])
  }

  /** Every entry is a proper fraction, strictly between 0 and 1. */
  predicate AllFractions(xs: seq<real>) {
    forall i | 0 <= i < |xs| :: 0.0 < xs[i] < 1.0
  }

  /** Every price of a series is strictly positive. */
  predicate AllPositive(xs: seq<real>) {
    forall i | 0 <= i < |xs| :: xs[i] > 0.0
  }

  /** Percentages divided by 100, position by position. */
  function Normalize(xs: seq<real>): (r: seq<real>)
    ensures |r| == |xs|
    ensures forall i | 0 <= i < |xs| :: r[i] * 100.0 == xs[i]
    ensures AllPercent(xs) ==> AllFractions(r)
  {
    seq(|xs|, i requires 0 <= i < |xs| => xs[i] / 100.0)
  }
}
