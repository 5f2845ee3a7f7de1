/** RacketLite's `NaturalOperand`: a 64-bit integer with an inexactness flag. */
module NaturalOperands {
  import opened RacketTypes
  import opened Strings
  import opened Wrappers

  /** C#'s `long`. */
  type Long = x: int | -0x8000_0000_0000_0000 <= x < 0x8000_0000_0000_0000

  /** The value and the flag are stored as given; the tag is always `Natural`. */
  datatype NaturalOperand = NaturalOperand(operandValue: Long, inexact: bool) {
    function Type(): RacketOperandType {
      Natural
    }
  }

  /** `Equals`: the values alone decide; the inexactness flag is ignored. */
  predicate Equals(a: NaturalOperand, b: NaturalOperand) {
    a.operandValue == b.operandValue
  }

  /** Two naturals that differ only in their flag are equal. */
  lemma EqualsIgnoresInexact(v: Long)
    ensures Equals(NaturalOperand(v, true), NaturalOperand(v, false))
  {
  }

  /** -1, 0 or 1 as `x` is negative, zero or positive. */
  function Sign(x: int): int {
    if x < 0 then -1 else if x > 0 then 1 else 0
  }

  /** 2 to the 53rd: below it every integer is exactly a `double`. */
  const TwoTo53: int := 0x20_0000_0000_0000

  /** The spacing of the `double`s around a magnitude `m`: 1 below 2^53, then doubling per binade. */
  function Ulp(m: nat): (u: nat)
    ensures u >= 1
    decreases m
  {
    if m < TwoTo53 then 1 else 2 * Ulp(m / 2)
  }

  /**
   * `m` rounded to the nearest multiple of `u`, a tie going to the even multiple: `m` rounded
   * down or up, at most half of `u` away.
   */
  function RoundToMultiple(m: nat, u: nat): (r: nat)
    requires u > 0
    ensures 2 * (r - m) <= u && 2 * (m - r) <= u
  {
    var rem := m % u;
    if 2 * rem < u || (2 * rem == u && (m / u) % 2 == 0) then m - rem else m - rem + u
  }

  /** The `double` nearest to `m`, ties to the one with an even significand: at most half a ulp away. */
  function RoundMagnitude(m: nat): (r: nat)
    ensures 2 * (r - m) <= Ulp(m) && 2 * (m - r) <= Ulp(m)
  {
    RoundToMultiple(m, Ulp(m))
  }

  /** The conversion `(double)v` of a `long`, as the integer the resulting `double` denotes: at most half a ulp from `v`. */
  function ToDouble(v: Long): (d: int)
    ensures var m: int := if v < 0 then -(v as int) else v as int;
      2 * (d - v) <= Ulp(m) && 2 * (v - d) <= Ulp(m)
    ensures v >= 0 ==> d >= 0
    ensures v <= 0 ==> d <= 0
  {
    var x: int := v;
    if x < 0 then -(RoundMagnitude(-x) as int) else RoundMagnitude(x)
  }

  /** A product of a positive factor and a positive `u` is at least `u`. */
  lemma {:induction false} ProductAtLeast(k: int, u: int)
    requires k >= 1 && u > 0
    ensures k * u >= u
    decreases k
  {
    if k > 1 {
      ProductAtLeast(k - 1, u);
      assert k * u == (k - 1) * u + u;
    }
  }

  /** Division and remainder are determined by the quotient and remainder equation. */
  lemma DivModUnique(n: int, u: int, q: int, rem: int)
    requires u > 0 && n == q * u + rem && 0 <= rem < u
    ensures n / u == q && n % u == rem
  {
    var q', rem' := n / u, n % u;
    assert n == q' * u + rem';
    var d := q - q';
    assert d * u == rem' - rem by {
      assert d * u == q * u - q' * u;
    }
    if d >= 1 {
      ProductAtLeast(d, u);
    } else if d <= -1 {
      ProductAtLeast(-d, u);
    }
  }

  /** The remainder and quotient of `m + 1` follow from those of `m`. */
  lemma DivModSuccessor(m: nat, u: nat)
    requires u > 0
    ensures m % u + 1 < u ==> (m + 1) % u == m % u + 1 && (m + 1) / u == m / u
    ensures m % u + 1 == u ==> (m + 1) % u == 0 && (m + 1) / u == m / u + 1
  {
    var q, rem := m / u, m % u;
    assert m == q * u + rem;
    if rem + 1 < u {
      DivModUnique(m + 1, u, q, rem + 1);
    } else {
      assert m + 1 == (q + 1) * u;
      DivModUnique(m + 1, u, q + 1, 0);
    }
  }

  /** A multiple of `v` doubled is a multiple of `2 * v`. */
  lemma DoubleMultiple(k: nat, v: nat)
    requires v > 0 && k % v == 0
    ensures (2 * k) % (2 * v) == 0
  {
    var q := k / v;
    assert k == q * v;
    assert 2 * k == q * (2 * v);
    DivModUnique(2 * k, 2 * v, q, 0);
  }

  /**
   * From `m` to `m + 1` the ulp either stays or doubles, and it doubles only at a power of two,
   * which is then a multiple of the new ulp.
   */
  lemma {:induction false} UlpStep(m: nat)
    ensures Ulp(m + 1) == Ulp(m) || (Ulp(m + 1) == 2 * Ulp(m) && (m + 1) % Ulp(m + 1) == 0)
    decreases m
  {
    if m + 1 == TwoTo53 {
      assert Ulp(TwoTo53 / 2) == 1;
    } else if m >= TwoTo53 {
      if m % 2 == 1 {
        var h := m / 2;
        assert (m + 1) / 2 == h + 1;
        UlpStep(h);
        if Ulp(h + 1) != Ulp(h) {
          DoubleMultiple(h + 1, Ulp(h + 1));
          assert m + 1 == 2 * (h + 1);
        }
      } else {
        assert (m + 1) / 2 == m / 2;
      }
    }
  }

  /** Within one spacing, rounding never decreases from one integer to the next. */
  lemma RoundToMultipleStep(m: nat, u: nat)
    requires u > 0
    ensures RoundToMultiple(m, u) <= RoundToMultiple(m + 1, u)
  {
    DivModSuccessor(m, u);
  }

  /** An integer just below a multiple of `u` rounds to at most that multiple. */
  lemma RoundBelowMultiple(m: nat, u: nat)
    requires u > 0 && (m + 1) % u == 0
    ensures RoundToMultiple(m, u) <= m + 1
  {
    DivModSuccessor(m, u);
  }

  /** A multiple of `2 * u` is a multiple of `u`. */
  lemma HalfMultiple(n: nat, u: nat)
    requires u > 0 && n % (2 * u) == 0
    ensures n % u == 0
  {
    var k := n / (2 * u);
    assert n == k * (2 * u);
    assert n == (2 * k) * u;
    DivModUnique(n, u, 2 * k, 0);
  }

  /** Rounding never decreases from one integer to the next. */
  lemma RoundStep(m: nat)
    ensures RoundMagnitude(m) <= RoundMagnitude(m + 1)
  {
    UlpStep(m);
    var u, u' := Ulp(m), Ulp(m + 1);
    if u' == u {
      RoundToMultipleStep(m, u);
    } else {
      HalfMultiple(m + 1, u);
      RoundBelowMultiple(m, u);
    }
  }

  /** Rounding is monotone. */
  lemma {:induction false} RoundMonotone(m1: nat, m2: nat)
    requires m1 <= m2
    ensures RoundMagnitude(m1) <= RoundMagnitude(m2)
    decreases m2 - m1
  {
    if m1 < m2 {
      RoundStep(m1);
      RoundMonotone(m1 + 1, m2);
    }
  }

  /** The conversion to `double` never inverts the order of two values. */
  lemma ToDoubleIsMonotone(x: Long, y: Long)
    requires x <= y
    ensures ToDouble(x) <= ToDouble(y)
  {
    var a: int, b: int := x, y;
    if 0 <= a {
      RoundMonotone(a, b);
    } else if b < 0 {
      RoundMonotone(-b, -a);
    }
  }

  /** Up to 2^53 in magnitude the conversion to `double` is exact. */
  lemma ToDoubleIsExactUpTo2To53(v: Long)
    requires -TwoTo53 <= v <= TwoTo53
    ensures ToDouble(v) == v
  {
    var m: int := if v < 0 then -v else v;
    if m == TwoTo53 {
      assert Ulp(m / 2) == 1;
    }
  }

  /**
   * `CompareTo` as written: both values are converted to `double` and the doubles compared,
   * so distinct values above 2^53 can compare equal.
   */
  function CompareToAsWritten(a: NaturalOperand, b: NaturalOperand): (c: int)
    ensures -1 <= c <= 1
  {
    Sign(ToDouble(a.operandValue) - ToDouble(b.operandValue))
  }

  /**
   * What the comparison through `double` does guarantee: it is antisymmetric, compares equal
   * values 0, and never inverts the order, since rounding is monotone; it may only report 0 for
   * distinct values.
   */
  lemma CompareToAsWrittenIsConsistent(a: NaturalOperand, b: NaturalOperand)
    ensures CompareToAsWritten(a, b) == -CompareToAsWritten(b, a)
    ensures Equals(a, b) ==> CompareToAsWritten(a, b) == 0
    ensures a.operandValue < b.operandValue ==> CompareToAsWritten(a, b) <= 0
    ensures a.operandValue > b.operandValue ==> CompareToAsWritten(a, b) >= 0
  {
    if a.operandValue < b.operandValue {
      ToDoubleIsMonotone(a.operandValue, b.operandValue);
    } else if a.operandValue > b.operandValue {
      ToDoubleIsMonotone(b.operandValue, a.operandValue);
    }
  }

  /** 2^53 and 2^53 + 1 are not `Equals`, yet `CompareTo` as written reports them equal. */
  lemma CompareToAsWrittenDisagreesWithEquals()
    ensures var a, b := NaturalOperand(TwoTo53, false), NaturalOperand(TwoTo53 + 1, false);
      !Equals(a, b) && CompareToAsWritten(a, b) == 0
  {
    var m := TwoTo53 + 1;
    assert Ulp(m / 2) == 1;
    assert Ulp(m) == 2;
    assert Ulp(TwoTo53) == 2;
  }

  /** Where the values are at most 2^53 in magnitude, the two comparisons agree. */
  lemma CompareToAsWrittenAgreesUpTo2To53(a: NaturalOperand, b: NaturalOperand)
    requires -TwoTo53 <= a.operandValue <= TwoTo53 && -TwoTo53 <= b.operandValue <= TwoTo53
    ensures CompareToAsWritten(a, b) == CompareTo(a, b)
  {
    ToDoubleIsExactUpTo2To53(a.operandValue);
    ToDoubleIsExactUpTo2To53(b.operandValue);
  }

  /** `CompareTo` on the `long` values themselves: its sign is the integer order, and 0 is `Equals`. */
  function CompareTo(a: NaturalOperand, b: NaturalOperand): (c: int)
    ensures c < 0 <==> a.operandValue < b.operandValue
    ensures c == 0 <==> Equals(a, b)
    ensures c > 0 <==> a.operandValue > b.operandValue
    ensures -1 <= c <= 1
  {
    if a.operandValue < b.operandValue then -1
    else if a.operandValue > b.operandValue then 1
    else 0
  }

  /** The comparison is antisymmetric and every natural compares 0 with itself. */
  lemma CompareToIsAntisymmetric(a: NaturalOperand, b: NaturalOperand)
    ensures CompareTo(a, b) == -CompareTo(b, a)
    ensures CompareTo(a, a) == 0
  {
  }

  /** `GetHashCode`: `HashCode.Combine(Type, OperandValue)`; `combine` is the process's hash combiner. */
  function GetHashCode(n: NaturalOperand, combine: (RacketOperandType, Long) -> int): int {
    combine(n.Type(), n.operandValue)
  }

  /** The hash ignores the flag just as `Equals` does, so equal naturals hash alike. */
  lemma EqualsImpliesEqualHashCodes(a: NaturalOperand, b: NaturalOperand, combine: (RacketOperandType, Long) -> int)
    requires Equals(a, b)
    ensures GetHashCode(a, combine) == GetHashCode(b, combine)
  {
  }

  /**
   * `ToString`: the upper-cased decimal text of the value, after `inexactPrefix` when the flag is set.
   * The `:0.0` format in the source applies to a string and so has no effect.
   */
  function ToString(n: NaturalOperand, inexactPrefix: string): (s: string)
    ensures !n.inexact ==> s == DecimalText(n.operandValue)
    ensures n.inexact ==> s == inexactPrefix + DecimalText(n.operandValue)
  {
    var operandValueString := ToUpper(DecimalText(n.operandValue));
    ToUpperKeepsDecimalText(n.operandValue);
    if n.inexact then inexactPrefix + operandValueString else operandValueString
  }

  /** Dropping the prefix from an inexact natural's text gives the exact rendering, which reads back as the value. */
  lemma ToStringRoundTrip(n: NaturalOperand, inexactPrefix: string)
    ensures var s := ToString(n, inexactPrefix);
      var exact := ToString(NaturalOperand(n.operandValue, false), inexactPrefix);
      && (n.inexact ==> |s| >= |inexactPrefix| && s[..|inexactPrefix|] == inexactPrefix && s[|inexactPrefix|..] == exact)
      && (!n.inexact ==> s == exact)
      && ParseInteger(exact) == Some(n.operandValue as int)
  {
    DecimalTextRoundTrip(n.operandValue);
  }
}
