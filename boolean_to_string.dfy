/** `BooleanToStringExpression`: `(boolean->string b)`. */
module BooleanToStringExpressions {
  import opened Wrappers
  import opened RacketTypes
  import opened RacketValues
  import opened Strings

  /** A node built by `Parse`; it holds exactly one argument. */
  datatype BooleanToStringExpression<Arg> = BooleanToStringExpression(arguments: seq<Arg>)

  /** `Parse`: `parseBooleans` is `RacketParsingHelper.ParseRacketBooleans`; a node needs exactly one argument. */
  function Parse<Arg>(str: string, parseBooleans: string -> Option<seq<Arg>>): (r: Option<BooleanToStringExpression<Arg>>)
    ensures r.Some? <==> parseBooleans(str).Some? && |parseBooleans(str).value| == 1
    ensures r.Some? ==> r.value.arguments == parseBooleans(str).value
  {
    var arguments := parseBooleans(str);
    if arguments.Some? && |arguments.value| == 1 then Some(BooleanToStringExpression(arguments.value)) else None
  }

  /** `bool.ToString()`. */
  function BooleanText(b: bool): string {
    if b then "True" else "False"
  }

  /** `Evaluate`: the argument's boolean as lower-case text, `"true"` or `"false"`. */
  function Evaluate<Arg>(e: BooleanToStringExpression<Arg>, evaluate: Arg -> Result<RacketValue, Error>)
    : (r: Result<RacketValue, Error>)
    requires |e.arguments| == 1
    ensures r.Success? <==> EvaluateBoolean(e.arguments[0], evaluate).Success?
    ensures r.Failure? ==> r.error == EvaluateBoolean(e.arguments[0], evaluate).error
    ensures r.Success? ==>
      r.value == RacketString(if EvaluateBoolean(e.arguments[0], evaluate).value.truth then "true" else "false")
  {
    var booleanValue :- EvaluateBoolean(e.arguments[0], evaluate);
    var text := ToLower(BooleanText(booleanValue.truth));
    assert text == if booleanValue.truth then "true" else "false";
    Success(RacketString(text))
  }

  /** Reads `"true"` or `"false"` back. */
  function ParseBooleanText(s: string): Option<bool> {
    if s == "true" then Some(true) else if s == "false" then Some(false) else None
  }

  /** The text reads back as the boolean it came from, so distinct booleans give distinct texts. */
  lemma EvaluateRoundTrip<Arg>(e: BooleanToStringExpression<Arg>, evaluate: Arg -> Result<RacketValue, Error>, b: bool)
    requires |e.arguments| == 1
    requires evaluate(e.arguments[0]) == Success(RacketBoolean(b))
    ensures Evaluate(e, evaluate).Success?
    ensures ParseBooleanText(Evaluate(e, evaluate).value.text) == Some(b)
  {
  }
}
