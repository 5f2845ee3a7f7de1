/**
 * C#'s `double` as the value it denotes: a finite real, an infinity or NaN.
 * Rounding to 53 significant bits, overflow to infinity and the sign of zero are not modelled;
 * a zero divisor is taken to be +0.
 */
module Doubles {

  datatype Double = Finite(value: real) | PositiveInfinity | NegativeInfinity | NaN {
    predicate IsInfinite() {
      PositiveInfinity? || NegativeInfinity?
    }
  }

  function Infinity(negative: bool): Double {
    if negative then NegativeInfinity else PositiveInfinity
  }

  function Negate(x: Double): Double {
    match x
    case Finite(v) => Finite(-v)
    case PositiveInfinity => NegativeInfinity
    case NegativeInfinity => PositiveInfinity
    case NaN => NaN
  }

  function Add(x: Double, y: Double): Double {
    if x.NaN? || y.NaN? then NaN
    else if x.IsInfinite() && y.IsInfinite() then (if x == y then x else NaN)
    else if x.IsInfinite() then x
    else if y.IsInfinite() then y
    else Finite(x.value + y.value)
  }

  function Subtract(x: Double, y: Double): Double {
    if x.NaN? || y.NaN? then NaN
    else if x.IsInfinite() && y.IsInfinite() then (if x != y then x else NaN)
    else if x.IsInfinite() then x
    else if y.IsInfinite() then Negate(y)
    else Finite(x.value - y.value)
  }

  function Multiply(x: Double, y: Double): Double {
    if x.NaN? || y.NaN? then NaN
    else if x.IsInfinite() && y.IsInfinite() then Infinity(x != y)
    else if x.IsInfinite() then
      (if y.value == 0.0 then NaN else Infinity(x.NegativeInfinity? != (y.value < 0.0)))
    else if y.IsInfinite() then
      (if x.value == 0.0 then NaN else Infinity(y.NegativeInfinity? != (x.value < 0.0)))
    else Finite(x.value * y.value)
  }

  function Divide(x: Double, y: Double): Double {
    if x.NaN? || y.NaN? then NaN
    else if x.IsInfinite() && y.IsInfinite() then NaN
    else if x.IsInfinite() then Infinity(x.NegativeInfinity? != (y.value < 0.0))
    else if y.IsInfinite() then Finite(0.0)
    else if y.value == 0.0 then (if x.value == 0.0 then NaN else Infinity(x.value < 0.0))
    else Finite(x.value / y.value)
  }

  /** Subtraction is addition of the negation, on every input. */
  lemma SubtractIsAddNegated(x: Double, y: Double)
    ensures Subtract(x, y) == Add(x, Negate(y))
  {
  }

  /** Division by zero does not throw: it gives an infinity, or NaN for 0/0. */
  lemma DivideByZeroIsNotFinite(x: Double)
    ensures !Divide(x, Finite(0.0)).Finite?
    ensures x.Finite? && x.value != 0.0 ==> Divide(x, Finite(0.0)).IsInfinite()
  {
  }

  /** On finite operands with a non-zero divisor the four operations are exact real arithmetic. */
  lemma FiniteArithmetic(a: real, b: real)
    ensures Add(Finite(a), Finite(b)) == Finite(a + b)
    ensures Subtract(Finite(a), Finite(b)) == Finite(a - b)
    ensures Multiply(Finite(a), Finite(b)) == Finite(a * b)
    ensures b != 0.0 ==> Divide(Finite(a), Finite(b)) == Finite(a / b)
  {
  }
}
