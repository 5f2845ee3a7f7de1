/**
 * RacketVM's `StringOperand` (namespace `RacketVM.Operands`): a string value tagged with
 * RacketVM's own `OperandType`. It is a different type from the string operand that RacketLite's
 * `DynamicOperand` wraps.
 */
module VmStringOperands {

  /** The member of RacketVM's `OperandType` this operand uses; the enum's other members are not part of this model. */
  datatype OperandType = String

  /** The string is stored as given; the tag is always `String`. */
  datatype StringOperand = StringOperand(operandValue: string) {
    function Type(): OperandType {
      String
    }
  }

  /** `Equals`: the two strings are identical (ordinal equality). */
  predicate Equals(a: StringOperand, b: StringOperand) {
    a.operandValue == b.operandValue
  }

  /** `Equals` is an equivalence, and it holds exactly for operands that are the same value. */
  lemma EqualsIsIdentity(a: StringOperand, b: StringOperand, c: StringOperand)
    ensures Equals(a, a)
    ensures Equals(a, b) == Equals(b, a)
    ensures Equals(a, b) && Equals(b, c) ==> Equals(a, c)
    ensures Equals(a, b) <==> a == b
  {
  }

  /**
   * `CompareTo`: `string.CompareTo`, a culture-sensitive collation given here as `collate`.
   * Identical strings compare 0 under every culture; how other strings are ordered is the
   * culture's business (some distinct strings may also compare 0).
   */
  function CompareTo(a: StringOperand, b: StringOperand, collate: (string, string) -> int): (c: int)
    ensures Equals(a, b) ==> c == 0
    ensures !Equals(a, b) ==> c == collate(a.operandValue, b.operandValue)
  {
    if a.operandValue == b.operandValue then 0 else collate(a.operandValue, b.operandValue)
  }

  /** `GetHashCode`: `HashCode.Combine(Type, OperandValue)`; `combine` is the process's hash combiner. */
  function GetHashCode(a: StringOperand, combine: (OperandType, string) -> int): int {
    combine(a.Type(), a.operandValue)
  }

  /** Equal operands have equal hash codes. */
  lemma EqualsImpliesEqualHashCodes(a: StringOperand, b: StringOperand, combine: (OperandType, string) -> int)
    requires Equals(a, b)
    ensures GetHashCode(a, combine) == GetHashCode(b, combine)
  {
  }

  /** `ToString`: the value between double quotes, with nothing inside escaped. */
  function ToString(a: StringOperand): (s: string)
    ensures |s| == |a.operandValue| + 2
    ensures s[0] == '"' && s[|s| - 1] == '"'
    ensures forall i :: 0 <= i < |a.operandValue| ==> s[i + 1] == a.operandValue[i]
  {
    "\"" + a.operandValue + "\""
  }

  /** Removes the first and the last character. */
  function Unquote(s: string): string
    requires |s| >= 2
  {
    s[1..|s| - 1]
  }

  /** Dropping the quotes gives the value back, so distinct values render distinctly. */
  lemma ToStringRoundTrip(a: StringOperand, b: StringOperand)
    ensures Unquote(ToString(a)) == a.operandValue
    ensures ToString(a) == ToString(b) ==> a == b
  {
    assert Unquote(ToString(a)) == a.operandValue;
    assert Unquote(ToString(b)) == b.operandValue;
  }

  /** A quote inside the value is not escaped: the rendering of `a"b` holds three quotes in a row of five. */
  lemma ToStringDoesNotEscape()
    ensures ToString(StringOperand("a\"b")) == ['"', 'a', '"', 'b', '"']
  {
  }
}
