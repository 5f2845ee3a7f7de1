/** RacketLite's value types, and reading an argument's value as one of them. */
module RacketValues {
  import opened Wrappers
  import opened RacketTypes

  /**
   * `RacketNumber` (a `float` with exactness and rationality flags), `RacketBoolean` and
   * `RacketString`. `RacketNumber.Parse(value, isExact, isRational)` is taken to store its three
   * arguments as given.
   */
  datatype RacketValue =
    | RacketNumber(value: real, isExact: bool, isRational: bool)
    | RacketBoolean(truth: bool)
    | RacketString(text: string)

  /**
   * `(RacketNumber)argument.Evaluate()`: the argument's value, which must be a number.
   * `evaluate` is the argument's own `Evaluate`; an exception it throws propagates.
   */
  function EvaluateNumber<Arg>(argument: Arg, evaluate: Arg -> Result<RacketValue, Error>): (r: Result<RacketValue, Error>)
    ensures r.Success? <==> evaluate(argument).Success? && evaluate(argument).value.RacketNumber?
    ensures r.Success? ==> r.value == evaluate(argument).value
    ensures evaluate(argument).Failure? ==> r == evaluate(argument)
    ensures evaluate(argument).Success? && !evaluate(argument).value.RacketNumber? ==> r == Failure(InvalidCast)
  {
    var v :- evaluate(argument);
    if v.RacketNumber? then Success(v) else Failure(InvalidCast)
  }

  /** `(RacketBoolean)argument.Evaluate()`: the argument's value, which must be a boolean. */
  function EvaluateBoolean<Arg>(argument: Arg, evaluate: Arg -> Result<RacketValue, Error>): (r: Result<RacketValue, Error>)
    ensures r.Success? <==> evaluate(argument).Success? && evaluate(argument).value.RacketBoolean?
    ensures r.Success? ==> r.value == evaluate(argument).value
    ensures evaluate(argument).Failure? ==> r == evaluate(argument)
    ensures evaluate(argument).Success? && !evaluate(argument).value.RacketBoolean? ==> r == Failure(InvalidCast)
  {
    var v :- evaluate(argument);
    if v.RacketBoolean? then Success(v) else Failure(InvalidCast)
  }
}
