/** JavaScript numbers as far as the progress bar needs them: a finite value,
    NaN, or one of the two infinities. Finite values are exact reals; rounding
    to double precision is not modelled. */
module JsNumber {

  datatype Num = Finite(v: real) | NaN | PosInf | NegInf

  /** `a / b` on two finite numbers. A zero divisor gives NaN for a zero
      dividend and an infinity of the dividend's sign otherwise. */
  function Divide(a: real, b: real): (r: Num)
    ensures b != 0.0 ==> r.Finite? && r.v * b == a
    ensures b == 0.0 ==> (r == NaN <==> a == 0.0)
    ensures b == 0.0 ==> (r == PosInf <==> a > 0.0)
    ensures b == 0.0 ==> (r == NegInf <==> a < 0.0)
  {
    if b != 0.0 then Finite(a / b)
    else if a == 0.0 then NaN
    else if a > 0.0 then PosInf
    else NegInf
  }

  /** `x * c` for a positive finite factor `c`: NaN and the infinities
      are kept, a finite value is scaled. */
  function Times(x: Num, c: real): (r: Num)
    requires c > 0.0
    ensures r.Finite? <==> x.Finite?
    ensures x.Finite? ==> r.v == x.v * c
    ensures !x.Finite? ==> r == x
  {
    match x
    case Finite(v) => Finite(v * c)
    case _ => x
  }

  /** `Math.max(a, x)`: NaN if either argument is NaN, otherwise the larger. */
  function MaxWith(a: real, x: Num): (r: Num)
    ensures r == NaN <==> x == NaN
    ensures r == PosInf <==> x == PosInf
    ensures r.Finite? ==> r.v >= a && (x.Finite? ==> r.v >= x.v)
    ensures r.Finite? ==> r.v == a || x == r
    ensures r != NegInf
  {
    match x
    case NaN => NaN
    case PosInf => PosInf
    case NegInf => Finite(a)
    case Finite(v) => if v >= a then Finite(v) else Finite(a)
  }

  /** `Math.min(a, x)`: NaN if either argument is NaN, otherwise the smaller. */
  function MinWith(a: real, x: Num): (r: Num)
    ensures r == NaN <==> x == NaN
    ensures r == NegInf <==> x == NegInf
    ensures r.Finite? ==> r.v <= a && (x.Finite? ==> r.v <= x.v)
    ensures r.Finite? ==> r.v == a || x == r
    ensures r != PosInf
  {
    match x
    case NaN => NaN
    case NegInf => NegInf
    case PosInf => Finite(a)
    case Finite(v) => if v <= a then Finite(v) else Finite(a)
  }
}
