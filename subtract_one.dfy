/** `SubtractOneExpression`: `(sub1 x)`. */
module SubtractOneExpressions {
  import opened Wrappers
  import opened RacketTypes
  import opened RacketValues

  /** A node built by `Parse`; it holds exactly one parameter. */
  datatype SubtractOneExpression<Arg> = SubtractOneExpression(parameters: seq<Arg>)

  /**
   * `Parse`: `validateParamTypes` (`RacketParsingHelper.ValidateParamTypes` for numbers) runs first,
   * on any list, and its exception propagates; then a node is built only for exactly one parameter.
   */
  function Parse<Arg>(parameters: Option<seq<Arg>>, validateParamTypes: Option<seq<Arg>> -> Result<(), Error>)
    : (r: Result<Option<SubtractOneExpression<Arg>>, Error>)
    ensures validateParamTypes(parameters).Failure? ==> r == Failure(validateParamTypes(parameters).error)
    ensures validateParamTypes(parameters).Success? ==>
      r.Success? && (r.value.Some? <==> parameters.Some? && |parameters.value| == 1)
    ensures r.Success? && r.value.Some? ==> r.value.value.parameters == parameters.value
  {
    var validated :- validateParamTypes(parameters);
    if parameters.Some? && |parameters.value| == 1 then Success(Some(SubtractOneExpression(parameters.value)))
    else Success(None)
  }

  /** `Evaluate`: the parameter's number less one, with its exactness and rationality flags kept. */
  function Evaluate<Arg>(e: SubtractOneExpression<Arg>, evaluate: Arg -> Result<RacketValue, Error>): (r: Result<RacketValue, Error>)
    requires |e.parameters| == 1
    ensures r.Success? <==> EvaluateNumber(e.parameters[0], evaluate).Success?
    ensures r.Failure? ==> r.error == EvaluateNumber(e.parameters[0], evaluate).error
    ensures r.Success? ==>
      var n := EvaluateNumber(e.parameters[0], evaluate).value;
      && r.value.RacketNumber?
      && r.value.value + 1.0 == n.value
      && r.value.isExact == n.isExact
      && r.value.isRational == n.isRational
  {
    var currentNumber :- EvaluateNumber(e.parameters[0], evaluate);
    Success(RacketNumber(currentNumber.value - 1.0, currentNumber.isExact, currentNumber.isRational))
  }

  /**
   * An integer gives the integer one less, with both flags kept: an exact input an exact result,
   * an inexact input an inexact one, and the rationality flag unchanged.
   */
  lemma SubtractOneOfInteger<Arg>(e: SubtractOneExpression<Arg>, evaluate: Arg -> Result<RacketValue, Error>, k: int, exact: bool, rational: bool)
    requires |e.parameters| == 1
    requires evaluate(e.parameters[0]) == Success(RacketNumber(k as real, exact, rational))
    ensures Evaluate(e, evaluate) == Success(RacketNumber((k - 1) as real, exact, rational))
  {
  }
}
