/** `CosineExpression`: `(cos x)`. */
module CosineExpressions {
  import opened Wrappers
  import opened RacketTypes
  import opened RacketValues

  /** A node built by `Parse`; it holds exactly one argument. */
  datatype CosineExpression<Arg> = CosineExpression(arguments: seq<Arg>)

  /** `Parse`: `parseNumbers` is `RacketParsingHelper.ParseRacketNumbers`; a node needs exactly one argument. */
  function Parse<Arg>(str: string, parseNumbers: string -> Option<seq<Arg>>): (r: Option<CosineExpression<Arg>>)
    ensures r.Some? <==> parseNumbers(str).Some? && |parseNumbers(str).value| == 1
    ensures r.Some? ==> r.value.arguments == parseNumbers(str).value
  {
    var arguments := parseNumbers(str);
    if arguments.Some? && |arguments.value| == 1 then Some(CosineExpression(arguments.value)) else None
  }

  /** `Evaluate`: `cos` of the argument (`MathF.Cos`, given as `cos`), always inexact, rationality kept. */
  function Evaluate<Arg>(e: CosineExpression<Arg>, evaluate: Arg -> Result<RacketValue, Error>, cos: real -> real)
    : (r: Result<RacketValue, Error>)
    requires |e.arguments| == 1
    ensures r.Success? <==> EvaluateNumber(e.arguments[0], evaluate).Success?
    ensures r.Failure? ==> r.error == EvaluateNumber(e.arguments[0], evaluate).error
    ensures r.Success? ==>
      var n := EvaluateNumber(e.arguments[0], evaluate).value;
      r.value.RacketNumber? && !r.value.isExact && r.value.isRational == n.isRational && r.value.value == cos(n.value)
  {
    var currentNumber :- EvaluateNumber(e.arguments[0], evaluate);
    Success(RacketNumber(cos(currentNumber.value), false, currentNumber.isRational))
  }

  /** The argument's exactness never reaches the result: inputs that differ only in it give the same result. */
  lemma CosineIgnoresExactness<Arg>(
    e: CosineExpression<Arg>, cos: real -> real,
    evaluate1: Arg -> Result<RacketValue, Error>, evaluate2: Arg -> Result<RacketValue, Error>,
    x: real, exact1: bool, exact2: bool, rational: bool)
    requires |e.arguments| == 1
    requires evaluate1(e.arguments[0]) == Success(RacketNumber(x, exact1, rational))
    requires evaluate2(e.arguments[0]) == Success(RacketNumber(x, exact2, rational))
    ensures Evaluate(e, evaluate1, cos) == Evaluate(e, evaluate2, cos)
  {
  }
}
