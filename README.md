# RacketVM / RacketLite core, modelled in Dafny

RacketLite is a small Racket interpreter written in C#. This project models its core:

- the dynamically typed operand `DynamicOperand`: its constructor, the coercions
  `GetBooleanValue`, `GetDoubleValue`, `GetStringValue` and `GetUnknownValue`, the evaluation of
  an expression operand (including user-defined functions looked up by signature), `CompareTo`,
  `Equals`, `ToString`, and the operators `* / + - ! > < >= <= | &`;
- `NaturalOperand` (a 64-bit integer with an inexactness flag) and RacketVM's `StringOperand`,
  with `Equals`, `CompareTo`, `GetHashCode` and `ToString`;
- four expression nodes, `(sub1 x)`, `(cos x)`, `(boolean->string b)` and `(<= x y ...)`, each
  with its `Parse` arity check and its `Evaluate`;
- the text handling of the interpreter shell: the parenthesis count `parenthesisBalance`, the
  loop of `ParseAndPrintMultiLine` that groups the lines of a file into expressions, and the
  command recognition `ParseInterpreterCommand`.

C# exceptions become the `Failure` case of a `Result` (`RacketTypes.Error` names the exception);
`null` arguments of `DynamicOperand`'s constructor, `CompareTo`, `Equals` and operators become
`Option`; the `Equals` and `CompareTo` of `NaturalOperand` and of RacketVM's `StringOperand` take
an operand of their own class (see Left out). Code that the core calls but that is not part of
this model is passed in as a function parameter: the evaluation of child expressions (`evaluate`), the
registry of user-defined functions and their evaluation, the `CompareTo`/`Equals` of the operand
classes other than `NaturalOperand`, the culture's string collation, `HashCode.Combine`,
`MathF.Cos`, `RacketParsingHelper`'s argument parsers, the text of doubles and booleans, and the
per-expression work `ParseAndPrintLine` of the shell (`DynamicOperands.Host` gathers the ones the
operand needs).

`double` is modelled as `Doubles.Double`: a finite real, an infinity or NaN. `long` is the
subset type `NaturalOperands.Long`. Strings are `seq<char>`; `Strings` models the .NET string
functions the core uses (`Trim`, `IsNullOrWhiteSpace` with .NET's white-space set, `ToLower`,
`ToUpper`, `Split`, `long.ToString`).

In Racket, `(<= x y ...)` holds when its arguments are in non-decreasing order, each compared
with its predecessor; the code compares every number with the first. The model follows the
code (`LessThanEqualExpressions.Evaluate`) and gives the chained reading as the correction
(`LessThanEqualExpressions.EvaluateChained`); see Findings.

## Model

| member | source | states |
|---|---|---|
| DynamicOperands.NewDynamicOperand | RacketLite/RacketLite/Operands/DynamicOperand.cs:10-41 | a `null` operand fails with `NullReference` (its tag is read first); any other operand is wrapped unchanged and the wrapper takes its tag |
| DynamicOperands.GetExpressionValue | RacketLite/RacketLite/Operands/DynamicOperand.cs:232-253 | a non-expression fails with `TypeConversion(tag, Expression)`; a user-defined call is looked up by signature (`KeyNotFound` when absent) and applied to `UDEOperands` when present, else to `Operands`; a built-in expression evaluates itself |
| DynamicOperands.Coerce | RacketLite/RacketLite/Operands/DynamicOperand.cs:172-230 | the shared coercion rule: success always has the required tag; an operand of the required kind gives itself; an expression's result must have the required tag, else `TypeConversion(result tag, required)`; any other tag fails with `TypeConversion(tag, required)` |
| DynamicOperands.GetBooleanValue | RacketLite/RacketLite/Operands/DynamicOperand.cs:172-190 | a Boolean operand gives its truth value; other non-expression tags fail with `TypeConversion(tag, Boolean)`; success and error agree with the coercion rule |
| DynamicOperands.GetDoubleValue | RacketLite/RacketLite/Operands/DynamicOperand.cs:192-210 | a Number operand gives its double; other non-expression tags fail with `TypeConversion(tag, Number)`; success and error agree with the coercion rule |
| DynamicOperands.GetStringValue | RacketLite/RacketLite/Operands/DynamicOperand.cs:212-230 | a String operand gives its text; other non-expression tags fail with `TypeConversion(tag, String)`; success and error agree with the coercion rule |
| DynamicOperands.GetUnknownValue | RacketLite/RacketLite/Operands/DynamicOperand.cs:255-262 | succeeds exactly on an Unknown operand, giving its payload; otherwise `TypeConversion(tag, Unknown)`, with no evaluation of expressions |
| DynamicOperands.CompareTo | RacketLite/RacketLite/Operands/DynamicOperand.cs:120-135 | `null` fails with `ArgumentNull`; different kinds fail with `TypeConversion(this kind, other kind)`; operands of one kind give their payloads' comparison or its failure, which for two naturals never fails and is the comparison through `double` |
| DynamicOperands.CompareToOfSmallNaturals | RacketLite/RacketLite/Operands/DynamicOperand.cs:120-135 | on naturals of magnitude at most 2^53 the comparison succeeds and its sign is the integer order |
| DynamicOperands.Equals | RacketLite/RacketLite/Operands/DynamicOperand.cs:148-163 | `null` is unequal (`false`); different kinds fail with `TypeConversion(this kind, other kind)` rather than being unequal; operands of one kind give their payloads' equality or its failure; two naturals are equal exactly when their values are |
| DynamicOperands.Arithmetic | RacketLite/RacketLite/Operands/DynamicOperand.cs:48-67 | a `null` left operand, or a `null` right operand once the left one has coerced, fails with `NullReference`; it succeeds exactly when both operands coerce to numbers; the left operand's error wins over the right's; the result is a Number holding the double operation of the two values |
| DynamicOperands.Not | RacketLite/RacketLite/Operands/DynamicOperand.cs:70-74 | a `null` operand fails with `NullReference`; otherwise it succeeds exactly when the operand coerces to a boolean, and then gives the Boolean operand of its negation; otherwise the coercion's error |
| DynamicOperands.Logical | RacketLite/RacketLite/Operands/DynamicOperand.cs:102-114 | both operands are coerced (no short-circuit), the right one first so its error wins: a `null` right operand, or a `null` left operand once the right one has coerced, fails with `NullReference`; the result is the Boolean `or`/`and` of the two values |
| DynamicOperands.Comparison | RacketLite/RacketLite/Operands/DynamicOperand.cs:76-100 | a `null` left operand fails with `NullReference` and a `null` right operand with `ArgumentNull`; operands of different kinds fail with `TypeConversion(left kind, right kind)`; a failure of `CompareTo`, then (for `>=` and `<=`) of `Equals`, propagates, and otherwise they succeed; the Boolean result is the sign of `CompareTo`, with `Equals` also accepted for `>=` and `<=` |
| DynamicOperands.ComparisonOfNaturals | RacketLite/RacketLite/Operands/DynamicOperand.cs:76-100 | on two naturals the four operators never fail: `>` and `<` are the sign of the comparison through `double`, and `>=` and `<=` also accept equal values |
| DynamicOperands.ComparisonOfSmallNaturals | RacketLite/RacketLite/Operands/DynamicOperand.cs:76-100 | on naturals of magnitude at most 2^53 the four operators are exactly the integer order `> < >= <=` |
| DynamicOperands.NaturalsAbove2To53AreIncomparable | RacketLite/RacketLite/Operands/DynamicOperand.cs:76-100 | for the naturals 2^53 and 2^53+1, in either order, `>`, `<`, `>=` and `<=` are all false |
| DynamicOperands.ToString | RacketLite/RacketLite/Operands/DynamicOperand.cs:137-146 | succeeds exactly for Number, Boolean and String operands; a string renders as its bare text (no quotes); other kinds fail with `NotImplemented` |
| Doubles.SubtractIsAddNegated | RacketLite/RacketLite/Operands/DynamicOperand.cs:63-67 | double subtraction is addition of the negation on every input, infinities and NaN included |
| Doubles.DivideByZeroIsNotFinite | RacketLite/RacketLite/Operands/DynamicOperand.cs:53-57 | dividing by zero does not fail: it gives an infinity for a non-zero finite dividend and never a finite value |
| Doubles.FiniteArithmetic | RacketLite/RacketLite/Operands/DynamicOperand.cs:48-67 | on finite operands (non-zero divisor) `* / + -` are the real operations |
| NaturalOperands.EqualsIgnoresInexact | RacketLite/RacketLite/Operands/NaturalOperand.cs:19-22 | two naturals with one value and different inexactness flags are equal |
| NaturalOperands.Equals | RacketLite/RacketLite/Operands/NaturalOperand.cs:19-22 | the values alone decide and the inexactness flag is ignored; it has no contract of its own, `EqualsIgnoresInexact` states the consequence |
| NaturalOperands.RoundMagnitude | RacketLite/RacketLite/Operands/NaturalOperand.cs:26-27 | rounding a magnitude to the nearest `double` (ties to the even significand) lands at most half a ulp away, the ulp being 1 below 2^53 and doubling per binade |
| NaturalOperands.ToDouble | RacketLite/RacketLite/Operands/NaturalOperand.cs:26-27 | the `(double)` conversion of a `long` is within half a ulp of the value and keeps its sign |
| NaturalOperands.RoundMonotone | RacketLite/RacketLite/Operands/NaturalOperand.cs:26-27 | rounding to the nearest `double` is monotone in the magnitude |
| NaturalOperands.ToDoubleIsMonotone | RacketLite/RacketLite/Operands/NaturalOperand.cs:26-27 | the `(double)` conversion never inverts the order of two `long` values |
| NaturalOperands.CompareToAsWritten | RacketLite/RacketLite/Operands/NaturalOperand.cs:24-28 | comparing the two converted values gives -1, 0 or 1 |
| NaturalOperands.CompareToAsWrittenIsConsistent | RacketLite/RacketLite/Operands/NaturalOperand.cs:24-28 | the comparison as written is antisymmetric, compares equal values 0, and never reports a smaller value as greater or a larger one as smaller: its only fault is reporting distinct values as equal |
| NaturalOperands.GetHashCode | RacketLite/RacketLite/Operands/NaturalOperand.cs:30-33 | the hash is the process's combiner applied to the tag and the value only; it has no contract of its own, `NaturalOperands.EqualsImpliesEqualHashCodes` states the consequence |
| NaturalOperands.ToDoubleIsExactUpTo2To53 | RacketLite/RacketLite/Operands/NaturalOperand.cs:24-28 | the `(double)` conversion of a `long` of magnitude at most 2^53 is exact |
| NaturalOperands.CompareToAsWrittenDisagreesWithEquals | RacketLite/RacketLite/Operands/NaturalOperand.cs:19-28 | 2^53 and 2^53+1 are not `Equals`, yet the comparison through `double` reports them equal |
| NaturalOperands.CompareToAsWrittenAgreesUpTo2To53 | RacketLite/RacketLite/Operands/NaturalOperand.cs:24-28 | for values of magnitude at most 2^53 the comparison through `double` equals the comparison of the `long` values |
| NaturalOperands.CompareTo | RacketLite/RacketLite/Operands/NaturalOperand.cs:24-28 | the result is -1, 0 or 1; negative exactly when this value is smaller, positive exactly when larger, zero exactly when `Equals` holds |
| NaturalOperands.CompareToIsAntisymmetric | RacketLite/RacketLite/Operands/NaturalOperand.cs:24-28 | swapping the operands negates the result, and every natural compares 0 with itself |
| NaturalOperands.EqualsImpliesEqualHashCodes | RacketLite/RacketLite/Operands/NaturalOperand.cs:19-33 | the hash combines only the tag and the value, so equal naturals (whatever their flags) hash alike |
| NaturalOperands.ToString | RacketLite/RacketLite/Operands/NaturalOperand.cs:35-43 | an exact natural renders as its decimal text (upper-casing changes nothing); an inexact one as the inexact prefix followed by that text |
| NaturalOperands.ToStringRoundTrip | RacketLite/RacketLite/Operands/NaturalOperand.cs:35-43 | the inexact rendering is the prefix plus the exact rendering, and the exact rendering reads back as the value |
| VmStringOperands.Equals | RacketVM/RacketVM/Operands/StringOperand.cs:19-22 | ordinal identity of the two strings; it has no contract of its own, `VmStringOperands.EqualsIsIdentity` states it |
| VmStringOperands.GetHashCode | RacketVM/RacketVM/Operands/StringOperand.cs:30-33 | the hash is the process's combiner applied to the tag and the string only; it has no contract of its own, `VmStringOperands.EqualsImpliesEqualHashCodes` states the consequence |
| VmStringOperands.EqualsIsIdentity | RacketVM/RacketVM/Operands/StringOperand.cs:19-22 | `Equals` is reflexive, symmetric and transitive, and holds exactly for identical operands |
| VmStringOperands.CompareTo | RacketVM/RacketVM/Operands/StringOperand.cs:24-28 | identical strings compare 0; other strings compare as the culture's collation says |
| VmStringOperands.EqualsImpliesEqualHashCodes | RacketVM/RacketVM/Operands/StringOperand.cs:19-33 | equal operands have equal hash codes |
| VmStringOperands.ToString | RacketVM/RacketVM/Operands/StringOperand.cs:35-38 | the rendering is the value between double quotes: two characters longer, quotes at both ends, the value's characters in between |
| VmStringOperands.ToStringRoundTrip | RacketVM/RacketVM/Operands/StringOperand.cs:35-38 | removing the quotes gives the value back, so distinct values render distinctly |
| VmStringOperands.ToStringDoesNotEscape | RacketVM/RacketVM/Operands/StringOperand.cs:35-38 | a quote inside the value is rendered unescaped (`a"b` renders as five characters, three of them quotes) |
| RacketValues.EvaluateNumber | RacketLite/RacketLite/Expressions/NumericMethods/LessThanEqualExpression.cs:27-30 | the cast of an argument's value to a number: the value when it is a number, `InvalidCast` when it is not, and the argument's own failure unchanged |
| RacketValues.EvaluateBoolean | RacketLite/RacketLite/Expressions/ConversionMethods/BooleanToStringExpression.cs:26 | the cast of an argument's value to a boolean: the value when it is a boolean, `InvalidCast` when it is not, and the argument's own failure unchanged |
| SubtractOneExpressions.Parse | RacketLite/RacketLite/Expressions/NumericMethods/SubtractOneExpression.cs:14-22 | the parameter-type validation runs first and its failure propagates; after it, a node is built exactly for one parameter, holding it |
| SubtractOneExpressions.Evaluate | RacketLite/RacketLite/Expressions/NumericMethods/SubtractOneExpression.cs:24-28 | succeeds exactly when the parameter is a number; the result plus one is the input, with exactness and rationality kept |
| SubtractOneExpressions.SubtractOneOfInteger | RacketLite/RacketLite/Expressions/NumericMethods/SubtractOneExpression.cs:24-28 | an integer k gives the integer k-1 with the same exactness and rationality flags, whatever they are |
| CosineExpressions.Parse | RacketLite/RacketLite/Expressions/NumericMethods/CosineExpression.cs:15-23 | a node is built exactly when the argument list parses and has one element |
| CosineExpressions.Evaluate | RacketLite/RacketLite/Expressions/NumericMethods/CosineExpression.cs:25-29 | succeeds exactly when the argument is a number; the result is its cosine, always inexact, with rationality kept |
| CosineExpressions.CosineIgnoresExactness | RacketLite/RacketLite/Expressions/NumericMethods/CosineExpression.cs:25-29 | arguments that differ only in exactness give the same result |
| BooleanToStringExpressions.Parse | RacketLite/RacketLite/Expressions/ConversionMethods/BooleanToStringExpression.cs:14-22 | a node is built exactly when the argument list parses and has one element |
| BooleanToStringExpressions.Evaluate | RacketLite/RacketLite/Expressions/ConversionMethods/BooleanToStringExpression.cs:24-28 | succeeds exactly when the argument is a boolean, giving the string `"true"` or `"false"` |
| BooleanToStringExpressions.EvaluateRoundTrip | RacketLite/RacketLite/Expressions/ConversionMethods/BooleanToStringExpression.cs:24-28 | the text reads back as the boolean it came from |
| LessThanEqualExpressions.Parse | RacketLite/RacketLite/Expressions/NumericMethods/LessThanEqualExpression.cs:14-22 | a node is built exactly when the argument list parses and has at least two elements |
| LessThanEqualExpressions.Evaluate | RacketLite/RacketLite/Expressions/NumericMethods/LessThanEqualExpression.cs:24-34 | arguments are evaluated once each, left to right, with no short-circuit; the first failure propagates; otherwise the result says whether every later number is at least the first |
| LessThanEqualExpressions.EvaluateChained | RacketLite/RacketLite/Expressions/NumericMethods/LessThanEqualExpression.cs:24-34 | the same evaluation order and failures, with the result saying whether each number is at least its predecessor |
| LessThanEqualExpressions.TwoArguments | RacketLite/RacketLite/Expressions/NumericMethods/LessThanEqualExpression.cs:24-34 | with two numbers both readings are the single comparison `x <= y` |
| LessThanEqualExpressions.NondecreasingImpliesAtLeastFirst | RacketLite/RacketLite/Expressions/NumericMethods/LessThanEqualExpression.cs:24-34 | whenever the chained reading is true, the computed one is too |
| LessThanEqualExpressions.LaterOrderIsIrrelevant | RacketLite/RacketLite/Expressions/NumericMethods/LessThanEqualExpression.cs:24-34 | the computed result depends only on the first number and the multiset of the others |
| LessThanEqualExpressions.OneThreeTwo | RacketLite/RacketLite/Expressions/NumericMethods/LessThanEqualExpression.cs:24-34 | for `(<= 1 3 2)` the computed reading is true while the chained reading is false |
| Strings.TrimStart | RacketLite/RacketLite/RacketInterpreter.cs:162 | the result is a suffix of the input, everything removed is white space, and it does not start with white space |
| Strings.TrimEnd | RacketLite/RacketLite/RacketInterpreter.cs:162 | the result is a prefix of the input, everything removed is white space, and it does not end with white space |
| Strings.TrimIsEmptyIffWhiteSpace | RacketLite/RacketLite/RacketInterpreter.cs:162-168 | trimming leaves nothing exactly when the line is empty or all white space |
| Strings.ToLower | RacketLite/RacketLite/RacketInterpreter.cs:162 | same length, and each character is lower-cased independently |
| Strings.Split | RacketLite/RacketLite/RacketInterpreter.cs:60 | splitting gives at least one piece and no piece contains the separator |
| Strings.JoinSplit | RacketLite/RacketLite/RacketInterpreter.cs:60 | joining the pieces with the separator gives the text back |
| Strings.DecimalTextRoundTrip | RacketLite/RacketLite/Operands/NaturalOperand.cs:37 | the decimal text of a `long` reads back as that value |
| Strings.ToUpperKeepsDecimalText | RacketLite/RacketLite/Operands/NaturalOperand.cs:37 | upper-casing the decimal text of a `long` changes nothing |
| Interpreter.ParenthesisBalance | RacketLite/RacketLite/RacketInterpreter.cs:183-198 | the count returned is the number of `(` minus the number of `)`, and the text is reported balanced exactly when it is zero |
| Interpreter.BalanceOfConcatenation | RacketLite/RacketLite/RacketInterpreter.cs:183-198 | the count of a concatenation is the sum of the counts; text without parentheses adds nothing |
| Interpreter.ClosingBeforeOpeningIsBalanced | RacketLite/RacketLite/RacketInterpreter.cs:183-198 | `)(` is reported balanced |
| Interpreter.Group | RacketLite/RacketLite/RacketInterpreter.cs:63-86 | the grouping of the split lines into the expressions handed on and the unflushed rest; it has no contract of its own, `Interpreter.GroupConcatenation` and `Interpreter.GroupShape` state its properties |
| Interpreter.GroupConcatenation | RacketLite/RacketLite/RacketInterpreter.cs:58-87 | grouping loses and reorders nothing: the expressions handed on plus the unflushed rest spell the non-skipped lines, joined without separator |
| Interpreter.GroupShape | RacketLite/RacketLite/RacketInterpreter.cs:58-87 | every expression but the last is balanced, none is blank, and text is left unflushed only when unbalanced and the last line was skipped |
| Interpreter.UnbalancedTailIsNotHandedOn | RacketLite/RacketLite/RacketInterpreter.cs:58-87 | an unbalanced line followed only by a comment is never handed on |
| Interpreter.AllAcceptedEach | RacketLite/RacketLite/RacketInterpreter.cs:78-84 | a run of chunks is accepted exactly when each chunk is accepted after exactly the chunks before it, so a definition in one chunk can decide a later one |
| Interpreter.RacketInterpreter.ParseAndPrintMultiLine | RacketLite/RacketLite/RacketInterpreter.cs:58-87 | the expressions handed on are a prefix of the grouping, in order, each given the ones before it; the result is true exactly when every grouped expression is accepted after its predecessors, and then all were handed on; on false every expression but the last handed on was accepted and the last was rejected |
| Interpreter.RacketInterpreter.MultiLineNeverHandsOnBlankChunk | RacketLite/RacketLite/RacketInterpreter.cs:58-87 | no expression the grouping loop hands on makes the command check fail |
| Interpreter.RacketInterpreter.constructor | RacketLite/RacketLite/RacketInterpreter.cs:24-38 | the two flags are stored and exactly the five commands are registered |
| Interpreter.RegisteredNamesStartWithHash | RacketLite/RacketLite/RacketInterpreter.cs:30-34 | every name the constructor registers starts with `#` |
| Interpreter.RacketInterpreter.ParseInterpreterCommandAsWritten | RacketLite/RacketLite/RacketInterpreter.cs:160-173 | the command check as written, reading the first character of the trimmed line unchecked; it has no contract of its own, `AsWrittenThrowsOnBlankLines` and `AsWrittenAgreesElsewhere` state its behaviour |
| Interpreter.RacketInterpreter.AsWrittenThrowsOnBlankLines | RacketLite/RacketLite/RacketInterpreter.cs:160-173 | the command check as written throws `IndexOutOfRange` exactly on blank lines, the empty line included |
| Interpreter.RacketInterpreter.ParseInterpreterCommand | RacketLite/RacketLite/RacketInterpreter.cs:160-173 | a registered name, after trimming and lower-casing, is that command; any other non-blank line starting with `#` is a directive; everything else is not a command |
| Interpreter.RacketInterpreter.AsWrittenAgreesElsewhere | RacketLite/RacketLite/RacketInterpreter.cs:160-173 | wherever the code as written does not throw, it classifies lines as the corrected check does |
| Interpreter.RacketInterpreter.CommandsAreTheHashLines | RacketLite/RacketLite/RacketInterpreter.cs:160-173 | with the registered commands, a line is a command exactly when its trimmed text starts with `#` |
| Interpreter.RacketInterpreter.CommandNamesIgnoreCase | RacketLite/RacketLite/RacketInterpreter.cs:160-173 | ` #CLS` is the clear-screen command: case and surrounding white space are ignored |

## Left out

- The actions the shell commands run (`ShowRacketHelp`, `ParseAndPrintFile`, clearing the console), `ReadAndParseLine`, `ParseAndPrintLine`, `ParseLine`, the error message naming the failing line, and all console output: they are console, file and process I/O. `ParseAndPrintLine` is the parameter `parseAndPrintLine` of `Interpreter.RacketInterpreter.ParseAndPrintMultiLine`; it also reads and writes the user-defined function registry, so it is given the chunks handed on before the current one.
- Interpreter.RacketInterpreter.ParseInterpreterCommand: classifies the line but does not model running the registered action.
- `DynamicOperand.GetHashCode`: it combines the tag with the payload's own hash, and the payload classes other than `NaturalOperand` are not part of this model.
- Doubles.FiniteArithmetic: finite results are exact reals; rounding to 53 bits and overflow of a finite result to infinity are not modelled.
- SubtractOneExpressions.Evaluate: `RacketNumber` holds a `float`; the model subtracts on reals, without single-precision rounding.
- CosineExpressions.Evaluate: `MathF.Cos` (single precision) is the parameter `cos`.
- Strings.ToLower: only the letters A to Z are mapped; the culture-dependent case mapping of other letters is not modelled.
- VmStringOperands.CompareTo: the culture's collation is the parameter `collate`; only its agreement on identical strings is stated.
- `RacketParsingHelper.ParseRacketNumbers`, `ParseRacketBooleans` and `ValidateParamTypes`, the user-defined function registry and expression evaluation are not part of this model; they are parameters.
- SubtractOneExpressions.Evaluate: `RacketNumber.Parse` is not part of this model; it is taken to build a number holding its three arguments unchanged, so the stated flags hold only if it does not normalise them.
- CosineExpressions.Evaluate: as above, the stated exactness and rationality of the result assume that `RacketNumber.Parse` stores its arguments unchanged.
- DynamicOperands.Comparison: the payload `CompareTo`/`Equals` of the operand classes other than `NaturalOperand` (Unknown and expression operands among them) are not part of this model; they are the fallible parameters `compareTo` and `equals` of `DynamicOperands.Host`, so for those kinds only the tag checks and the propagation of their failures are stated.
- Doubles.Divide: zero has no sign; a zero divisor is taken as +0, so `1 / -0`, which is negative infinity in C#, gives positive infinity here.
- Strings.DecimalText: the minus sign is always `-`; `long.ToString()` uses the current culture's negative sign.
- NaturalOperands.Equals: the argument is an operand of the class; `Equals(null)`, which throws `NullReferenceException` where .NET's `Equals` contract asks for `false`, and an argument of another class, which throws `InvalidCastException`, are not modelled.
- NaturalOperands.CompareToAsWritten: the argument is an operand of the class; the `NullReferenceException` on `null` and the `InvalidCastException` on another class are not modelled (through `DynamicOperand` the kinds are checked first, so they do not arise there).
- VmStringOperands.Equals: the argument is an operand of the class and its value a non-null string; `Equals(null)` (`NullReferenceException`), an argument of another class (`InvalidCastException`) and a `null` `OperandValue` are not modelled.
- VmStringOperands.CompareTo: the `NullReferenceException` on a `null` argument or a `null` `OperandValue`, and the `InvalidCastException` on another class, are not modelled; `ToString` of a `null` value, which renders as two quotes, is not modelled either.
- RacketValues.RacketNumber: the value is a real, so the `float` NaN and infinities (`MathF.Cos` of an infinity, say, and `NaN <= x` being false) are not represented.
- `RacketOperandType`'s `Dynamic` wrapper is the `DynamicOperand` datatype itself; RacketVM's `OperandType` is modelled only by its `String` member.

## Findings

| source | as written | input that shows it | evidently intended | confidence | as-written member | corrected member |
|---|---|---|---|---|---|---|
| RacketLite/RacketLite/Operands/NaturalOperand.cs:24-28 | both `long` values are converted to `double` and the doubles compared | 2^53 and 2^53+1: `CompareTo` gives 0 while `Equals` is false, so through `DynamicOperand` all of `< > <= >=` are false | compare the `long` values, consistent with `Equals` | high, not executed | DynamicOperands.NaturalsAbove2To53AreIncomparable | NaturalOperands.CompareTo |
| RacketLite/RacketLite/RacketInterpreter.cs:160-173 | `str[0]` is read from the trimmed line without a length check | an empty or all-white-space line at the prompt throws `IndexOutOfRangeException` | a blank line is not a command | high, not executed | Interpreter.RacketInterpreter.AsWrittenThrowsOnBlankLines | Interpreter.RacketInterpreter.ParseInterpreterCommand |
| RacketLite/RacketLite/Expressions/NumericMethods/LessThanEqualExpression.cs:24-34 | every later number is compared with the first | `(<= 1 3 2)` gives true | Racket's `<=`: each number is at least its predecessor, so false | medium, not executed | LessThanEqualExpressions.OneThreeTwo | LessThanEqualExpressions.EvaluateChained |
