/**
  The double-precision values the TS estimator stores in its images: a finite
  number, or not-a-number (the marker of a failed fit and the fill value of
  every output image). Infinities are not distinguished from finite values.
 */
module Floats {

  datatype Float = NaN | Fin(v: real)

  function Abs(x: real): (r: real)
    ensures r >= 0.0
    ensures r == x || r == -x
  {
    if x < 0.0 then -x else x
  }

  /** Python's built-in max on two floats: the first argument unless the second is larger. */
  function Max(a: real, b: real): (r: real)
    ensures r >= a && r >= b
    ensures r == a || r == b
  {
    if b > a then b else a
  }

  /** numpy.sign: -1, 0 or 1 with the sign of its argument; NaN stays NaN. */
  function Sign(x: Float): (r: Float)
    ensures r.NaN? <==> x.NaN?
    ensures x.Fin? ==> (r.v == 1.0 <==> x.v > 0.0)
    ensures x.Fin? ==> (r.v == -1.0 <==> x.v < 0.0)
    ensures x.Fin? ==> (r.v == 0.0 <==> x.v == 0.0)
  {
    match x
    case NaN => NaN
    case Fin(v) => Fin(if v > 0.0 then 1.0 else if v < 0.0 then -1.0 else 0.0)
  }

  /** Product of two image values; NaN is absorbing. */
  function Mul(a: Float, b: Float): (r: Float)
    ensures r.NaN? <==> a.NaN? || b.NaN?
    ensures r.Fin? ==> r.v == a.v * b.v
  {
    if a.NaN? || b.NaN? then NaN else Fin(a.v * b.v)
  }

  /** Difference of two image values; NaN is absorbing. */
  function Sub(a: Float, b: Float): (r: Float)
    ensures r.NaN? <==> a.NaN? || b.NaN?
    ensures r.Fin? ==> r.v + b.v == a.v
  {
    if a.NaN? || b.NaN? then NaN else Fin(a.v - b.v)
  }

  /** numpy's `==` on floats: NaN equals nothing, not even NaN. */
  predicate Eq(a: Float, b: Float) {
    a.Fin? && b.Fin? && a.v == b.v
  }

  /** The larger of two image values under numpy.max: NaN as soon as either is NaN. */
  function MaxF(a: Float, b: Float): (r: Float)
    ensures r.NaN? <==> a.NaN? || b.NaN?
    ensures r.Fin? ==> r.v >= a.v && r.v >= b.v && (r.v == a.v || r.v == b.v)
  {
    if a.NaN? || b.NaN? then NaN else Fin(if b.v > a.v then b.v else a.v)
  }
}
