/**
 * RacketLite's `DynamicOperand`: a wrapper around any operand that takes its tag from the wrapped
 * value, coerces it to a concrete kind on request (resolving an unevaluated expression first), and
 * builds the arithmetic, comparison and logical operators from those coercions and from
 * `CompareTo`/`Equals`. Every mismatch of tags is a `TypeConversion` failure; nothing is coerced
 * silently.
 */
module DynamicOperands {
  import opened Wrappers
  import opened RacketTypes
  import D = Doubles
  import N = NaturalOperands

  /** The operands a `DynamicOperand` can wrap, each with its payload. */
  datatype Operand =
    | NumericOperand(number: D.Double)
    | BooleanOperand(truth: bool)
    | StringOperand(text: string)
    | NaturalOperand(natural: N.NaturalOperand)
    | UnknownOperand(payload: nat)  // an opaque object, by reference
    | ExpressionOperand(expression: RacketExpression)
  {
    /** The tag each operand class passes to its base constructor. */
    function Type(): RacketOperandType {
      match this
      case NumericOperand(_) => Number
      case BooleanOperand(_) => Boolean
      case StringOperand(_) => String
      case NaturalOperand(_) => Natural
      case UnknownOperand(_) => Unknown
      case ExpressionOperand(_) => Expression
    }
  }

  /** Whether an expression's operator is a user-defined function (the other kinds are not told apart here). */
  datatype RacketOporatorType = UserDefinedFunction | BuiltIn(name: string)

  /** An unevaluated expression: its operator, the operator's signature and its two operand lists. */
  datatype RacketExpression = RacketExpression(
    oporatorType: RacketOporatorType,
    racketOporatorSignature: string,
    operands: seq<Operand>,
    udeOperands: Option<seq<Operand>>)

  /** A registered user-defined function; its body is not part of this model. */
  datatype UserDefinedExpression = UserDefinedExpression(signature: string, parameterNames: seq<string>)

  /** A `DynamicOperand`; its tag is, by definition, the wrapped operand's tag. */
  datatype DynamicOperand = DynamicOperand(operableValue: Operand) {
    function Type(): RacketOperandType {
      operableValue.Type()
    }
  }

  /**
   * What the operand code calls but that is not part of this model: expression evaluation, the
   * process-wide registry of user-defined functions and their evaluation, `CompareTo`/`Equals` of
   * the operand classes other than `NaturalOperand`, and the text of doubles and booleans.
   */
  datatype Host = Host(
    evaluate: RacketExpression -> Result<DynamicOperand, Error>,
    userDefinedExpressions: map<string, UserDefinedExpression>,
    evaluateUserDefined: (UserDefinedExpression, seq<Operand>) -> Result<DynamicOperand, Error>,
    compareTo: (Operand, Operand) -> Result<int, Error>,
    equals: (Operand, Operand) -> Result<bool, Error>,
    formatNumber: D.Double -> string,
    formatBoolean: bool -> string)

  /** The constructor: reading the tag of a `null` operand throws, anything else is wrapped with its own tag. */
  function NewDynamicOperand(operableValue: Option<Operand>): (r: Result<DynamicOperand, Error>)
    ensures r.Success? <==> operableValue.Some?
    ensures operableValue.None? ==> r == Failure(NullReference)
    ensures r.Success? ==> r.value.operableValue == operableValue.value && r.value.Type() == operableValue.value.Type()
  {
    match operableValue
    case None => Failure(NullReference)
    case Some(o) => Success(DynamicOperand(o))
  }

  /**
   * `GetExpressionValue`: evaluates an Expression-tagged operand. A user-defined function is looked
   * up by signature and applied to `UDEOperands` when present, else to `Operands`; any other
   * expression evaluates itself.
   */
  function GetExpressionValue(d: DynamicOperand, host: Host): (r: Result<DynamicOperand, Error>)
    ensures d.Type() != Expression ==> r == Failure(TypeConversion(d.Type(), Expression))
    ensures d.Type() == Expression && d.operableValue.expression.oporatorType.BuiltIn? ==>
      r == host.evaluate(d.operableValue.expression)
    ensures d.Type() == Expression && d.operableValue.expression.oporatorType.UserDefinedFunction? ==>
      var e := d.operableValue.expression;
      var arguments := if e.udeOperands.Some? then e.udeOperands.value else e.operands;
      if e.racketOporatorSignature in host.userDefinedExpressions
      then r == host.evaluateUserDefined(host.userDefinedExpressions[e.racketOporatorSignature], arguments)
      else r == Failure(KeyNotFound(e.racketOporatorSignature))
  {
    if d.Type() != Expression then
      Failure(TypeConversion(d.Type(), Expression))
    else
      var racketExpression := d.operableValue.expression;
      if racketExpression.oporatorType == UserDefinedFunction then
        var signature := racketExpression.racketOporatorSignature;
        if signature !in host.userDefinedExpressions then
          Failure(KeyNotFound(signature))
        else
          var userDefinedExpression := host.userDefinedExpressions[signature];
          if racketExpression.udeOperands.Some? then
            host.evaluateUserDefined(userDefinedExpression, racketExpression.udeOperands.value)
          else
            host.evaluateUserDefined(userDefinedExpression, racketExpression.operands)
      else
        host.evaluate(racketExpression)
  }

  /**
   * The rule `GetBooleanValue`, `GetDoubleValue` and `GetStringValue` share: an operand of the
   * required kind gives itself; an Expression-tagged one is evaluated and its result must have the
   * required tag; any other tag fails with `TypeConversion(tag, required)`.
   */
  function Coerce(d: DynamicOperand, required: RacketOperandType, host: Host): (r: Result<Operand, Error>)
    requires required == Number || required == Boolean || required == String
    ensures r.Success? ==> r.value.Type() == required
    ensures d.Type() == required ==> r == Success(d.operableValue)
    ensures d.Type() != required && d.Type() != Expression ==> r == Failure(TypeConversion(d.Type(), required))
    ensures d.Type() == Expression ==>
      match GetExpressionValue(d, host)
      case Failure(e) => r == Failure(e)
      case Success(v) => r == if v.Type() == required then Success(v.operableValue) else Failure(TypeConversion(v.Type(), required))
  {
    if d.Type() == required then
      Success(d.operableValue)
    else if d.Type() == Expression then
      var expressionValue :- GetExpressionValue(d, host);
      if expressionValue.Type() == required then Success(expressionValue.operableValue)
      else Failure(TypeConversion(expressionValue.Type(), required))
    else
      Failure(TypeConversion(d.Type(), required))
  }

  /** `GetBooleanValue`: the Boolean payload under the shared coercion rule. */
  function GetBooleanValue(d: DynamicOperand, host: Host): (r: Result<bool, Error>)
    ensures d.operableValue.BooleanOperand? ==> r == Success(d.operableValue.truth)
    ensures d.Type() != Boolean && d.Type() != Expression ==> r == Failure(TypeConversion(d.Type(), Boolean))
    ensures r.Success? <==> Coerce(d, Boolean, host).Success?
    ensures r.Success? ==> r.value == Coerce(d, Boolean, host).value.truth
    ensures r.Failure? ==> r.error == Coerce(d, Boolean, host).error
  {
    var o :- Coerce(d, Boolean, host);
    Success(o.truth)
  }

  /** `GetDoubleValue`: the Number payload under the shared coercion rule. */
  function GetDoubleValue(d: DynamicOperand, host: Host): (r: Result<D.Double, Error>)
    ensures d.operableValue.NumericOperand? ==> r == Success(d.operableValue.number)
    ensures d.Type() != Number && d.Type() != Expression ==> r == Failure(TypeConversion(d.Type(), Number))
    ensures r.Success? <==> Coerce(d, Number, host).Success?
    ensures r.Success? ==> r.value == Coerce(d, Number, host).value.number
    ensures r.Failure? ==> r.error == Coerce(d, Number, host).error
  {
    var o :- Coerce(d, Number, host);
    Success(o.number)
  }

  /** `GetStringValue`: the String payload under the shared coercion rule. */
  function GetStringValue(d: DynamicOperand, host: Host): (r: Result<string, Error>)
    ensures d.operableValue.StringOperand? ==> r == Success(d.operableValue.text)
    ensures d.Type() != String && d.Type() != Expression ==> r == Failure(TypeConversion(d.Type(), String))
    ensures r.Success? <==> Coerce(d, String, host).Success?
    ensures r.Success? ==> r.value == Coerce(d, String, host).value.text
    ensures r.Failure? ==> r.error == Coerce(d, String, host).error
  {
    var o :- Coerce(d, String, host);
    Success(o.text)
  }

  /** `GetUnknownValue`: only an Unknown-tagged operand gives its payload; an expression is not evaluated. */
  function GetUnknownValue(d: DynamicOperand): (r: Result<nat, Error>)
    ensures r.Success? <==> d.Type() == Unknown
    ensures r.Success? ==> r.value == d.operableValue.payload
    ensures r.Failure? ==> r.error == TypeConversion(d.Type(), Unknown)
  {
    match d.operableValue
    case UnknownOperand(payload) => Success(payload)
    case _ => Failure(TypeConversion(d.Type(), Unknown))
  }

  /**
   * The wrapped operands' own `CompareTo`, for two operands of one kind: for naturals the
   * comparison through `double` of `NaturalOperand.CompareTo`; any other class's may throw.
   */
  function PayloadCompareTo(a: Operand, b: Operand, host: Host): Result<int, Error>
    requires a.Type() == b.Type()
  {
    if a.NaturalOperand? then Success(N.CompareToAsWritten(a.natural, b.natural)) else host.compareTo(a, b)
  }

  /** The wrapped operands' own `Equals`, for two operands of one kind; any class's but `NaturalOperand`'s may throw. */
  function PayloadEquals(a: Operand, b: Operand, host: Host): Result<bool, Error>
    requires a.Type() == b.Type()
  {
    if a.NaturalOperand? then Success(N.Equals(a.natural, b.natural)) else host.equals(a, b)
  }

  /** Both operands wrap naturals. */
  predicate BothNatural(a: DynamicOperand, b: DynamicOperand) {
    a.operableValue.NaturalOperand? && b.operableValue.NaturalOperand?
  }

  /**
   * `CompareTo`: `null` throws `ArgumentNull`, operands of different kinds throw
   * `TypeConversion(this kind, other kind)`, and operands of one kind give their payloads'
   * comparison, or its exception. Two naturals are compared through `double`.
   */
  function CompareTo(d: DynamicOperand, other: Option<DynamicOperand>, host: Host): (r: Result<int, Error>)
    ensures other.None? ==> r == Failure(ArgumentNull)
    ensures other.Some? && other.value.Type() != d.Type() ==> r == Failure(TypeConversion(d.Type(), other.value.Type()))
    ensures other.Some? && other.value.Type() == d.Type() && !BothNatural(d, other.value) ==>
      r == host.compareTo(d.operableValue, other.value.operableValue)
    ensures other.Some? && BothNatural(d, other.value) ==>
      r == Success(N.CompareToAsWritten(d.operableValue.natural, other.value.operableValue.natural))
  {
    match other
    case None => Failure(ArgumentNull)
    case Some(otherDynOperand) =>
      if otherDynOperand.Type() != d.Type() then Failure(TypeConversion(d.Type(), otherDynOperand.Type()))
      else PayloadCompareTo(d.operableValue, otherDynOperand.operableValue, host)
  }

  /**
   * `Equals`: `null` is simply unequal, but operands of different kinds throw
   * `TypeConversion(this kind, other kind)` rather than being unequal; operands of one kind give
   * their payloads' equality, or its exception.
   */
  function Equals(d: DynamicOperand, other: Option<DynamicOperand>, host: Host): (r: Result<bool, Error>)
    ensures other.None? ==> r == Success(false)
    ensures other.Some? && other.value.Type() != d.Type() ==> r == Failure(TypeConversion(d.Type(), other.value.Type()))
    ensures other.Some? && other.value.Type() == d.Type() && !BothNatural(d, other.value) ==>
      r == host.equals(d.operableValue, other.value.operableValue)
    ensures other.Some? && BothNatural(d, other.value) ==>
      r == Success(d.operableValue.natural.operandValue == other.value.operableValue.natural.operandValue)
  {
    match other
    case None => Success(false)
    case Some(otherDynOperand) =>
      if otherDynOperand.Type() != d.Type() then Failure(TypeConversion(d.Type(), otherDynOperand.Type()))
      else PayloadEquals(d.operableValue, otherDynOperand.operableValue, host)
  }

  /** On naturals `CompareTo` and `Equals` never throw, and up to 2^53 in magnitude `CompareTo` is the integer order. */
  lemma CompareToOfSmallNaturals(a: DynamicOperand, b: DynamicOperand, host: Host)
    requires BothNatural(a, b)
    requires -N.TwoTo53 <= a.operableValue.natural.operandValue <= N.TwoTo53
    requires -N.TwoTo53 <= b.operableValue.natural.operandValue <= N.TwoTo53
    ensures var x, y := a.operableValue.natural.operandValue, b.operableValue.natural.operandValue;
      var r := CompareTo(a, Some(b), host);
      r.Success? && (r.value < 0 <==> x < y) && (r.value == 0 <==> x == y) && (r.value > 0 <==> x > y)
  {
    N.CompareToAsWrittenAgreesUpTo2To53(a.operableValue.natural, b.operableValue.natural);
  }

  function Bool(b: bool): DynamicOperand {
    DynamicOperand(BooleanOperand(b))
  }

  /**
   * The operators' operands may be `null`: calling `GetDoubleValue` or `GetBooleanValue` on one
   * throws `NullReference`, and otherwise the coercion decides.
   */
  function DoubleOf(o: Option<DynamicOperand>, host: Host): (r: Result<D.Double, Error>)
    ensures o.None? ==> r == Failure(NullReference)
    ensures o.Some? ==> r == GetDoubleValue(o.value, host)
  {
    match o
    case None => Failure(NullReference)
    case Some(d) => GetDoubleValue(d, host)
  }

  function BooleanOf(o: Option<DynamicOperand>, host: Host): (r: Result<bool, Error>)
    ensures o.None? ==> r == Failure(NullReference)
    ensures o.Some? ==> r == GetBooleanValue(o.value, host)
  {
    match o
    case None => Failure(NullReference)
    case Some(d) => GetBooleanValue(d, host)
  }

  datatype ArithmeticOperator = Multiply | Divide | Add | Subtract

  function Apply(op: ArithmeticOperator, x: D.Double, y: D.Double): D.Double {
    match op
    case Multiply => D.Multiply(x, y)
    case Divide => D.Divide(x, y)
    case Add => D.Add(x, y)
    case Subtract => D.Subtract(x, y)
  }

  /**
   * The operators `*`, `/`, `+` and `-`: both operands must coerce to numbers, the left one first
   * (a `null` one throws `NullReference`), and the result is a Number operand holding the `double`
   * result (division by zero does not throw).
   */
  function Arithmetic(op: ArithmeticOperator, a: Option<DynamicOperand>, b: Option<DynamicOperand>, host: Host)
    : (r: Result<DynamicOperand, Error>)
    ensures a.None? ==> r == Failure(NullReference)
    ensures a.Some? && DoubleOf(a, host).Success? && b.None? ==> r == Failure(NullReference)
    ensures r.Success? <==> DoubleOf(a, host).Success? && DoubleOf(b, host).Success?
    ensures r.Success? ==>
      r.value.Type() == Number && r.value.operableValue.number == Apply(op, DoubleOf(a, host).value, DoubleOf(b, host).value)
    ensures DoubleOf(a, host).Failure? ==> r == Failure(DoubleOf(a, host).error)
    ensures DoubleOf(a, host).Success? && DoubleOf(b, host).Failure? ==> r == Failure(DoubleOf(b, host).error)
  {
    var x :- DoubleOf(a, host);
    var y :- DoubleOf(b, host);
    Success(DynamicOperand(NumericOperand(Apply(op, x, y))))
  }

  /** The operator `!`: the negated Boolean value of the coerced operand; `null` throws `NullReference`. */
  function Not(a: Option<DynamicOperand>, host: Host): (r: Result<DynamicOperand, Error>)
    ensures a.None? ==> r == Failure(NullReference)
    ensures r.Success? <==> BooleanOf(a, host).Success?
    ensures r.Success? ==> r.value.Type() == Boolean && r.value.operableValue.truth == !BooleanOf(a, host).value
    ensures r.Failure? ==> r.error == BooleanOf(a, host).error
  {
    var value1 :- BooleanOf(a, host);
    Success(Bool(!value1))
  }

  datatype LogicalOperator = Or | And

  /**
   * The operators `|` and `&`: both operands are always coerced to booleans, the right one first
   * (so a `null` right operand throws before the left is looked at), and neither operator
   * short-circuits.
   */
  function Logical(op: LogicalOperator, a: Option<DynamicOperand>, b: Option<DynamicOperand>, host: Host)
    : (r: Result<DynamicOperand, Error>)
    ensures b.None? ==> r == Failure(NullReference)
    ensures BooleanOf(b, host).Success? && a.None? ==> r == Failure(NullReference)
    ensures r.Success? <==> BooleanOf(a, host).Success? && BooleanOf(b, host).Success?
    ensures BooleanOf(b, host).Failure? ==> r == Failure(BooleanOf(b, host).error)
    ensures BooleanOf(b, host).Success? && BooleanOf(a, host).Failure? ==> r == Failure(BooleanOf(a, host).error)
    ensures r.Success? ==> r.value.Type() == Boolean
    ensures r.Success? ==>
      var x, y := BooleanOf(a, host).value, BooleanOf(b, host).value;
      r.value.operableValue.truth == if op == Or then x || y else x && y
  {
    var value1 :- BooleanOf(b, host);
    var value2 :- BooleanOf(a, host);
    Success(Bool(if op == Or then value1 || value2 else value1 && value2))
  }

  datatype ComparisonOperator = Greater | Less | GreaterOrEqual | LessOrEqual

  /**
   * The operators `>`, `<`, `>=` and `<=`, built from the left operand's `CompareTo` and (for the
   * last two) `Equals`: a `null` left operand throws `NullReference`, a `null` right one reaches
   * `CompareTo` and throws `ArgumentNull`; a failure of `CompareTo`, then of `Equals`, propagates;
   * otherwise the result is a Boolean operand.
   */
  function Comparison(op: ComparisonOperator, a: Option<DynamicOperand>, b: Option<DynamicOperand>, host: Host)
    : (r: Result<DynamicOperand, Error>)
    ensures a.None? ==> r == Failure(NullReference)
    ensures a.Some? && b.None? ==> r == Failure(ArgumentNull)
    ensures a.Some? && b.Some? && a.value.Type() != b.value.Type() ==>
      r == Failure(TypeConversion(a.value.Type(), b.value.Type()))
    ensures a.Some? && CompareTo(a.value, b, host).Failure? ==> r == Failure(CompareTo(a.value, b, host).error)
    ensures a.Some? && (op == Greater || op == Less) ==> (r.Success? <==> CompareTo(a.value, b, host).Success?)
    ensures a.Some? && (op == GreaterOrEqual || op == LessOrEqual) ==>
      (r.Success? <==> CompareTo(a.value, b, host).Success? && Equals(a.value, b, host).Success?)
    ensures a.Some? && (op == GreaterOrEqual || op == LessOrEqual) ==>
      CompareTo(a.value, b, host).Success? && Equals(a.value, b, host).Failure? ==>
      r == Failure(Equals(a.value, b, host).error)
    ensures r.Success? ==> a.Some? && r.value.Type() == Boolean
    ensures r.Success? ==>
      var c := CompareTo(a.value, b, host).value;
      r.value.operableValue.truth == match op
        case Greater => c > 0
        case Less => c < 0
        case GreaterOrEqual => c > 0 || Equals(a.value, b, host).value
        case LessOrEqual => c < 0 || Equals(a.value, b, host).value
  {
    if a.None? then Failure(NullReference)
    else
      var c :- CompareTo(a.value, b, host);
      match op
      case Greater => Success(Bool(c > 0))
      case Less => Success(Bool(c < 0))
      case GreaterOrEqual =>
        var equal :- Equals(a.value, b, host);
        Success(Bool(c > 0 || equal))
      case LessOrEqual =>
        var equal :- Equals(a.value, b, host);
        Success(Bool(c < 0 || equal))
  }

  /**
   * On two naturals the comparisons never fail: `>` and `<` are the sign of the comparison through
   * `double`, and `>=` and `<=` also accept equal `long` values.
   */
  lemma ComparisonOfNaturals(op: ComparisonOperator, a: DynamicOperand, b: DynamicOperand, host: Host)
    requires BothNatural(a, b)
    ensures var x, y := a.operableValue.natural.operandValue, b.operableValue.natural.operandValue;
      var c := N.CompareToAsWritten(a.operableValue.natural, b.operableValue.natural);
      Comparison(op, Some(a), Some(b), host) == Success(Bool(match op
        case Greater => c > 0
        case Less => c < 0
        case GreaterOrEqual => c > 0 || x == y
        case LessOrEqual => c < 0 || x == y))
  {
  }

  /** Up to 2^53 in magnitude the four comparisons of naturals are the integer order. */
  lemma ComparisonOfSmallNaturals(op: ComparisonOperator, a: DynamicOperand, b: DynamicOperand, host: Host)
    requires BothNatural(a, b)
    requires -N.TwoTo53 <= a.operableValue.natural.operandValue <= N.TwoTo53
    requires -N.TwoTo53 <= b.operableValue.natural.operandValue <= N.TwoTo53
    ensures var x, y := a.operableValue.natural.operandValue, b.operableValue.natural.operandValue;
      Comparison(op, Some(a), Some(b), host) == Success(Bool(match op
        case Greater => x > y
        case Less => x < y
        case GreaterOrEqual => x >= y
        case LessOrEqual => x <= y))
  {
    ComparisonOfNaturals(op, a, b, host);
    N.CompareToAsWrittenAgreesUpTo2To53(a.operableValue.natural, b.operableValue.natural);
  }

  /**
   * The naturals 2^53 and 2^53 + 1 are incomparable: `>`, `<`, `>=` and `<=` are all false, in
   * both orders, because the comparison through `double` finds them equal and `Equals` does not.
   */
  lemma NaturalsAbove2To53AreIncomparable(op: ComparisonOperator, host: Host)
    ensures var a := DynamicOperand(NaturalOperand(N.NaturalOperand(N.TwoTo53, false)));
      var b := DynamicOperand(NaturalOperand(N.NaturalOperand(N.TwoTo53 + 1, false)));
      Comparison(op, Some(a), Some(b), host) == Success(Bool(false)) &&
      Comparison(op, Some(b), Some(a), host) == Success(Bool(false))
  {
    var a := N.NaturalOperand(N.TwoTo53, false);
    var b := N.NaturalOperand(N.TwoTo53 + 1, false);
    N.CompareToAsWrittenDisagreesWithEquals();
    assert N.CompareToAsWritten(b, a) == 0;
    ComparisonOfNaturals(op, DynamicOperand(NaturalOperand(a)), DynamicOperand(NaturalOperand(b)), host);
    ComparisonOfNaturals(op, DynamicOperand(NaturalOperand(b)), DynamicOperand(NaturalOperand(a)), host);
  }

  /**
   * `ToString`: a number or boolean in its own text, a string as its bare text (no quotes), and any
   * other kind throws `NotImplemented`.
   */
  function ToString(d: DynamicOperand, host: Host): (r: Result<string, Error>)
    ensures r.Success? <==> d.Type() == Number || d.Type() == Boolean || d.Type() == String
    ensures r.Failure? ==> r.error == NotImplemented
    ensures d.operableValue.StringOperand? ==> r == Success(d.operableValue.text)
    ensures d.operableValue.NumericOperand? ==> r == Success(host.formatNumber(d.operableValue.number))
    ensures d.operableValue.BooleanOperand? ==> r == Success(host.formatBoolean(d.operableValue.truth))
  {
    match d.operableValue
    case NumericOperand(x) => Success(host.formatNumber(x))
    case BooleanOperand(b) => Success(host.formatBoolean(b))
    case StringOperand(s) => Success(s)
    case _ => Failure(NotImplemented)
  }
}
