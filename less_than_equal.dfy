/** `LessThanEqualExpression`: `(<= x y ...)`. */
module LessThanEqualExpressions {
  import opened Wrappers
  import opened RacketTypes
  import opened RacketValues

  /** A node built by `Parse`; it holds at least two arguments. */
  datatype LessThanEqualExpression<Arg> = LessThanEqualExpression(arguments: seq<Arg>)

  /** `Parse`: `parseNumbers` is `RacketParsingHelper.ParseRacketNumbers`; a node needs at least two arguments. */
  function Parse<Arg>(str: string, parseNumbers: string -> Option<seq<Arg>>): (r: Option<LessThanEqualExpression<Arg>>)
    ensures r.Some? <==> parseNumbers(str).Some? && |parseNumbers(str).value| >= 2
    ensures r.Some? ==> r.value.arguments == parseNumbers(str).value
  {
    var arguments := parseNumbers(str);
    if arguments.Some? && |arguments.value| > 1 then Some(LessThanEqualExpression(arguments.value)) else None
  }

  /** Every argument evaluates to a number. */
  predicate AllNumbers<Arg>(arguments: seq<Arg>, evaluate: Arg -> Result<RacketValue, Error>) {
    forall j :: 0 <= j < |arguments| ==> EvaluateNumber(arguments[j], evaluate).Success?
  }

  /** The arguments' numbers, in order. */
  function Values<Arg>(arguments: seq<Arg>, evaluate: Arg -> Result<RacketValue, Error>): (vs: seq<real>)
    requires AllNumbers(arguments, evaluate)
    ensures |vs| == |arguments|
    ensures forall j :: 0 <= j < |arguments| ==> vs[j] == EvaluateNumber(arguments[j], evaluate).value.value
  {
    seq(|arguments|, j requires 0 <= j < |arguments| => EvaluateNumber(arguments[j], evaluate).value.value)
  }

  /** Every number after the first is at least the first: what `Evaluate` computes. */
  predicate AtLeastFirst(vs: seq<real>) {
    forall j :: 0 < j < |vs| ==> vs[0] <= vs[j]
  }

  /** Each number is at least its predecessor: Racket's meaning of `<=`. */
  predicate Nondecreasing(vs: seq<real>) {
    forall j :: 0 < j < |vs| ==> vs[j - 1] <= vs[j]
  }

  /**
   * `Evaluate`: evaluates every argument once, left to right, even after the answer is known to be
   * false (`evaluated` lists the indices in the order they were evaluated); the first failure
   * propagates, and otherwise the result says whether every later number is at least the first.
   */
  method Evaluate<Arg>(e: LessThanEqualExpression<Arg>, evaluate: Arg -> Result<RacketValue, Error>)
    returns (r: Result<RacketValue, Error>, evaluated: seq<nat>)
    requires |e.arguments| >= 2
    ensures 1 <= |evaluated| <= |e.arguments|
    ensures forall j :: 0 <= j < |evaluated| ==> evaluated[j] == j
    ensures forall j :: 0 <= j < |evaluated| - 1 ==> EvaluateNumber(e.arguments[j], evaluate).Success?
    ensures r.Success? <==> AllNumbers(e.arguments, evaluate)
    ensures r.Success? ==> |evaluated| == |e.arguments|
    ensures r.Success? ==> r.value == RacketBoolean(AtLeastFirst(Values(e.arguments, evaluate)))
    ensures r.Failure? ==>
      var last := EvaluateNumber(e.arguments[|evaluated| - 1], evaluate);
      last.Failure? && r.error == last.error
  {
    var arguments := e.arguments;
    var firstNumber := EvaluateNumber(arguments[0], evaluate);
    evaluated := [0];
    if firstNumber.Failure? {
      return firstNumber.PropagateFailure(), evaluated;
    }
    var retValue := true;
    var i: nat := 1;
    while i < |arguments|
      invariant 1 <= i <= |arguments|
      invariant |evaluated| == i && forall j :: 0 <= j < i ==> evaluated[j] == j
      invariant forall j :: 0 <= j < i ==> EvaluateNumber(arguments[j], evaluate).Success?
      invariant retValue == forall j :: 0 < j < i ==>
        firstNumber.value.value <= EvaluateNumber(arguments[j], evaluate).value.value
    {
      var currentNumber := EvaluateNumber(arguments[i], evaluate);
      evaluated := evaluated + [i];
      if currentNumber.Failure? {
        return currentNumber.PropagateFailure(), evaluated;
      }
      retValue := retValue && firstNumber.value.value <= currentNumber.value.value;
      i := i + 1;
    }
    r := Success(RacketBoolean(retValue));
  }

  /**
   * `Evaluate` as Racket defines `<=`: each number is compared with its predecessor. Evaluation
   * order, totality and failures are as in `Evaluate`.
   */
  method EvaluateChained<Arg>(e: LessThanEqualExpression<Arg>, evaluate: Arg -> Result<RacketValue, Error>)
    returns (r: Result<RacketValue, Error>, evaluated: seq<nat>)
    requires |e.arguments| >= 2
    ensures 1 <= |evaluated| <= |e.arguments|
    ensures forall j :: 0 <= j < |evaluated| ==> evaluated[j] == j
    ensures forall j :: 0 <= j < |evaluated| - 1 ==> EvaluateNumber(e.arguments[j], evaluate).Success?
    ensures r.Success? <==> AllNumbers(e.arguments, evaluate)
    ensures r.Success? ==> |evaluated| == |e.arguments|
    ensures r.Success? ==> r.value == RacketBoolean(Nondecreasing(Values(e.arguments, evaluate)))
    ensures r.Failure? ==>
      var last := EvaluateNumber(e.arguments[|evaluated| - 1], evaluate);
      last.Failure? && r.error == last.error
  {
    var arguments := e.arguments;
    var previousNumber := EvaluateNumber(arguments[0], evaluate);
    evaluated := [0];
    if previousNumber.Failure? {
      return previousNumber.PropagateFailure(), evaluated;
    }
    var retValue := true;
    var i: nat := 1;
    while i < |arguments|
      invariant 1 <= i <= |arguments|
      invariant |evaluated| == i && forall j :: 0 <= j < i ==> evaluated[j] == j
      invariant forall j :: 0 <= j < i ==> EvaluateNumber(arguments[j], evaluate).Success?
      invariant previousNumber == EvaluateNumber(arguments[i - 1], evaluate)
      invariant retValue == forall j :: 0 < j < i ==>
        EvaluateNumber(arguments[j - 1], evaluate).value.value <= EvaluateNumber(arguments[j], evaluate).value.value
    {
      var currentNumber := EvaluateNumber(arguments[i], evaluate);
      evaluated := evaluated + [i];
      if currentNumber.Failure? {
        return currentNumber.PropagateFailure(), evaluated;
      }
      retValue := retValue && previousNumber.value.value <= currentNumber.value.value;
      previousNumber := currentNumber;
      i := i + 1;
    }
    r := Success(RacketBoolean(retValue));
  }

  /** With two numbers both readings are the single comparison of the first with the second. */
  lemma TwoArguments(x: real, y: real)
    ensures AtLeastFirst([x, y]) <==> x <= y
    ensures Nondecreasing([x, y]) <==> x <= y
  {
    assert [x, y][0] == x && [x, y][1] == y;
  }

  /** Racket's reading implies the one computed: a nondecreasing sequence has no number below its first. */
  lemma {:induction false} NondecreasingImpliesAtLeastFirst(vs: seq<real>)
    requires Nondecreasing(vs)
    ensures AtLeastFirst(vs)
    decreases |vs|
  {
    if |vs| > 1 {
      var front := vs[..|vs| - 1];
      assert Nondecreasing(front) by {
        forall j | 0 < j < |front| ensures front[j - 1] <= front[j] {
          assert front[j - 1] == vs[j - 1] && front[j] == vs[j];
        }
      }
      NondecreasingImpliesAtLeastFirst(front);
      forall j | 0 < j < |vs| ensures vs[0] <= vs[j] {
        if j < |vs| - 1 {
          assert front[j] == vs[j];
        } else {
          assert vs[0] <= vs[j - 1] by {
            if j - 1 > 0 {
              assert front[j - 1] == vs[j - 1];
            }
          }
        }
      }
    }
  }

  /** Only the first number and the multiset of the others matter to the computed result. */
  lemma {:induction false} LaterOrderIsIrrelevant(vs: seq<real>, ws: seq<real>)
    requires |vs| >= 1 && |ws| >= 1 && vs[0] == ws[0]
    requires multiset(vs[1..]) == multiset(ws[1..])
    ensures AtLeastFirst(vs) <==> AtLeastFirst(ws)
  {
    if AtLeastFirst(vs) {
      forall j | 0 < j < |ws| ensures ws[0] <= ws[j] {
        assert ws[j] == ws[1..][j - 1];
        assert ws[j] in multiset(vs[1..]);
        var k :| 0 <= k < |vs[1..]| && vs[1..][k] == ws[j];
        assert vs[k + 1] == ws[j];
      }
    }
    if AtLeastFirst(ws) {
      forall j | 0 < j < |vs| ensures vs[0] <= vs[j] {
        assert vs[j] == vs[1..][j - 1];
        assert vs[j] in multiset(ws[1..]);
        var k :| 0 <= k < |ws[1..]| && ws[1..][k] == vs[j];
        assert ws[k + 1] == vs[j];
      }
    }
  }

  /** `(<= 1 3 2)`: the computed result is true, while in Racket the numbers are not nondecreasing. */
  lemma OneThreeTwo()
    ensures AtLeastFirst([1.0, 3.0, 2.0])
    ensures !Nondecreasing([1.0, 3.0, 2.0])
  {
    assert [1.0, 3.0, 2.0][1] > [1.0, 3.0, 2.0][2];
  }
}
