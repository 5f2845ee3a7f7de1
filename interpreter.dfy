/**
 * The text handling of RacketLite's interpreter shell: the parenthesis count, the loop that groups
 * the lines of a file into expressions, and the recognition of shell commands. What the shell then
 * does with an expression (parse, evaluate, print) is the parameter `parseAndPrintLine`.
 */
module Interpreter {
  import opened Wrappers
  import opened RacketTypes
  import opened Strings

  /** The actions behind the shell commands; what they do is console and file I/O. */
  datatype Command = ShowRacketHelp | ParseAndPrintFile | ClearScreen

  /** How a line is classified: a registered command, another `#` directive, or not a command. */
  datatype CommandMatch = Registered(command: Command) | Directive | NotCommand {
    predicate IsCommand() {
      !NotCommand?
    }
  }

  /** The commands the constructor registers, by their lower-case names. */
  const RegisteredCommands: map<string, Command> := map[
    "#help" := ShowRacketHelp,
    "#ldf" := ParseAndPrintFile,
    "#loadfile" := ParseAndPrintFile,
    "#cls" := ClearScreen,
    "#clear" := ClearScreen]

  /** Every registered name starts with `#`. */
  lemma RegisteredNamesStartWithHash(key: string)
    requires key in RegisteredCommands
    ensures |key| > 0 && key[0] == '#'
  {
    assert key == "#help" || key == "#ldf" || key == "#loadfile" || key == "#cls" || key == "#clear";
  }

  /** Opening minus closing parentheses; nothing else in the text counts, quotes included. */
  function Balance(s: string): int {
    (multiset(s)['('] as int) - multiset(s)[')']
  }

  predicate Balanced(s: string) {
    Balance(s) == 0
  }

  /**
   * `parenthesisBalance`: counts up at each `(` and down at each `)`; the text is balanced when the
   * count ends at zero.
   */
  method ParenthesisBalance(str: string) returns (balanced: bool, balance: int)
    ensures balance == Balance(str)
    ensures balanced <==> balance == 0
  {
    balance := 0;
    for i := 0 to |str|
      invariant balance == Balance(str[..i])
    {
      assert str[..i + 1] == str[..i] + [str[i]];
      if str[i] == '(' {
        balance := balance + 1;
      } else if str[i] == ')' {
        balance := balance - 1;
      }
    }
    assert str[..|str|] == str;
    balanced := balance == 0;
  }

  /** The balance of a concatenation is the sum of the balances, so other characters change nothing. */
  lemma BalanceOfConcatenation(s: string, t: string)
    ensures Balance(s + t) == Balance(s) + Balance(t)
    ensures '(' !in t && ')' !in t ==> Balance(s + t) == Balance(s)
  {
    assert multiset(s + t) == multiset(s) + multiset(t);
  }

  /** A closing parenthesis before its opening one is not rejected: `)(` is balanced. */
  lemma ClosingBeforeOpeningIsBalanced()
    ensures Balanced(")(")
  {
    assert multiset(")(") == multiset{')', '('};
  }

  /** A line the grouping loop ignores: blank, a `;` comment or a `#` reader directive. */
  predicate IsSkipped(line: string) {
    IsNullOrWhiteSpace(line) || line[0] == ';' || line[0] == '#'
  }

  /** The expressions handed on, in order, and the text left in the buffer when the lines run out. */
  datatype Grouping = Grouping(chunks: seq<string>, rest: string)

  /**
   * How the lines after `buffer` are grouped: kept lines are appended to the buffer, and the
   * buffer is handed on when it is balanced or the line just appended is the last one.
   */
  function Group(lines: seq<string>, buffer: string): Grouping
    decreases |lines|
  {
    if lines == [] then Grouping([], buffer)
    else if IsSkipped(lines[0]) then Group(lines[1..], buffer)
    else
      var current := buffer + lines[0];
      if Balanced(current) || |lines| == 1 then
        var g := Group(lines[1..], "");
        Grouping([current] + g.chunks, g.rest)
      else
        Group(lines[1..], current)
  }

  function Concat(ss: seq<string>): string {
    if ss == [] then "" else ss[0] + Concat(ss[1..])
  }

  /** The lines the grouping loop does not skip, in order. */
  function KeptLines(lines: seq<string>): seq<string> {
    if lines == [] then []
    else (if IsSkipped(lines[0]) then [] else [lines[0]]) + KeptLines(lines[1..])
  }

  /** Grouping loses and reorders nothing: the chunks and the rest spell the kept lines, with no separator. */
  lemma {:induction false} GroupConcatenation(lines: seq<string>, buffer: string)
    ensures Concat(Group(lines, buffer).chunks) + Group(lines, buffer).rest == buffer + Concat(KeptLines(lines))
    decreases |lines|
  {
    if lines == [] {
      return;
    }
    var tail := lines[1..];
    if IsSkipped(lines[0]) {
      assert KeptLines(lines) == KeptLines(tail);
      GroupConcatenation(tail, buffer);
      return;
    }
    var current := buffer + lines[0];
    var kept := Concat(KeptLines(tail));
    ConcatOfKept(lines);
    StringAssociates(buffer, lines[0], kept);
    if Balanced(current) || |lines| == 1 {
      var g := Group(tail, "");
      GroupConcatenation(tail, "");
      assert "" + kept == kept;
      ConcatPrepend(current, g.chunks);
      assert Group(lines, buffer) == Grouping([current] + g.chunks, g.rest);
      StringAssociates(current, Concat(g.chunks), g.rest);
    } else {
      GroupConcatenation(tail, current);
      assert Group(lines, buffer) == Group(tail, current);
    }
  }

  lemma StringAssociates(a: string, b: string, c: string)
    ensures a + (b + c) == (a + b) + c
  {
  }

  lemma ConcatPrepend(s: string, ss: seq<string>)
    ensures Concat([s] + ss) == s + Concat(ss)
  {
    assert ([s] + ss)[1..] == ss;
  }

  lemma ConcatOfKept(lines: seq<string>)
    requires lines != [] && !IsSkipped(lines[0])
    ensures Concat(KeptLines(lines)) == lines[0] + Concat(KeptLines(lines[1..]))
  {
    assert KeptLines(lines) == [lines[0]] + KeptLines(lines[1..]);
    ConcatPrepend(lines[0], KeptLines(lines[1..]));
  }

  lemma NotBlankAfterPrefix(b: string, s: string)
    requires !IsNullOrWhiteSpace(s)
    ensures !IsNullOrWhiteSpace(b + s)
  {
    var i :| 0 <= i < |s| && !IsWhiteSpace(s[i]);
    assert (b + s)[|b| + i] == s[i];
  }

  /**
   * The shape of the chunks: every chunk but the last is balanced, no chunk is blank, and text is
   * left over only when it is unbalanced and the last line was skipped.
   */
  lemma {:induction false} GroupShape(lines: seq<string>, buffer: string)
    requires buffer == "" || !Balanced(buffer)
    ensures var g := Group(lines, buffer);
      && (forall j :: 0 <= j < |g.chunks| - 1 ==> Balanced(g.chunks[j]))
      && (forall j :: 0 <= j < |g.chunks| ==> !IsNullOrWhiteSpace(g.chunks[j]))
      && (g.rest == "" || !Balanced(g.rest))
      && (g.rest != "" && lines != [] ==> IsSkipped(lines[|lines| - 1]))
    decreases |lines|
  {
    if lines != [] {
      var tail := lines[1..];
      if IsSkipped(lines[0]) {
        GroupShape(tail, buffer);
        if tail != [] {
          assert lines[|lines| - 1] == tail[|tail| - 1];
        }
      } else {
        var current := buffer + lines[0];
        NotBlankAfterPrefix(buffer, lines[0]);
        if Balanced(current) || |lines| == 1 {
          GroupShape(tail, "");
          var g := Group(tail, "");
          if |lines| == 1 {
            assert g == Grouping([], "");
          }
          if tail != [] {
            assert lines[|lines| - 1] == tail[|tail| - 1];
          }
          var chunks := [current] + g.chunks;
          forall j | 0 <= j < |chunks| - 1 ensures Balanced(chunks[j]) {
            if j > 0 {
              assert chunks[j] == g.chunks[j - 1];
            }
          }
          forall j | 0 <= j < |chunks| ensures !IsNullOrWhiteSpace(chunks[j]) {
            if j > 0 {
              assert chunks[j] == g.chunks[j - 1];
            }
          }
        } else {
          GroupShape(tail, current);
          assert lines[|lines| - 1] == tail[|tail| - 1];
        }
      }
    }
  }

  /** One step of `Group` at line `i`, as the grouping loop takes it. */
  lemma GroupStep(lines: seq<string>, i: nat, buffer: string)
    requires i < |lines|
    ensures IsSkipped(lines[i]) ==> Group(lines[i..], buffer) == Group(lines[i + 1..], buffer)
    ensures !IsSkipped(lines[i]) && (Balanced(buffer + lines[i]) || i == |lines| - 1) ==>
      Group(lines[i..], buffer).chunks == [buffer + lines[i]] + Group(lines[i + 1..], "").chunks
    ensures !IsSkipped(lines[i]) && !(Balanced(buffer + lines[i]) || i == |lines| - 1) ==>
      Group(lines[i..], buffer) == Group(lines[i + 1..], buffer + lines[i])
  {
    assert lines[i..][0] == lines[i] && lines[i..][1..] == lines[i + 1..];
  }

  /** An unbalanced tail whose last line is a comment is never handed on. */
  lemma UnbalancedTailIsNotHandedOn()
    ensures Group(["(+ 1", "; end"], "") == Grouping([], "(+ 1")
  {
    assert IsSkipped("; end");
    assert !Balanced("(+ 1") by {
      assert multiset("(+ 1") == multiset{'(', '+', ' ', '1'};
    }
    assert ["(+ 1", "; end"][1..] == ["; end"];
    assert ["; end"][1..] == [];
  }

  lemma TrimOfPaddedCls()
    ensures Trim(" #CLS") == "#CLS"
  {
    assert IsWhiteSpace(' ') && !IsWhiteSpace('#');
    assert " #CLS"[1..] == "#CLS";
    assert TrimStart(" #CLS") == "#CLS";
    assert !IsWhiteSpace('S');
  }

  lemma LowerOfCls()
    ensures ToLower("#CLS") == "#cls"
  {
    var lower := ToLower("#CLS");
    assert lower[0] == '#' && lower[1] == 'c' && lower[2] == 'l' && lower[3] == 's';
  }

  /**
   * Every chunk is accepted by `parseAndPrintLine` given the chunks handed on before it: what a
   * chunk defines (a user-defined function, say) can decide whether a later chunk is accepted.
   */
  ghost predicate AllAccepted(chunks: seq<string>, parseAndPrintLine: (seq<string>, string) -> bool)
    decreases |chunks|
  {
    |chunks| == 0 ||
      (AllAccepted(chunks[..|chunks| - 1], parseAndPrintLine) &&
       parseAndPrintLine(chunks[..|chunks| - 1], chunks[|chunks| - 1]))
  }

  /** `AllAccepted` says of each chunk that it is accepted after exactly the chunks before it. */
  lemma {:induction false} AllAcceptedEach(chunks: seq<string>, parseAndPrintLine: (seq<string>, string) -> bool)
    ensures AllAccepted(chunks, parseAndPrintLine) <==>
      forall j :: 0 <= j < |chunks| ==> parseAndPrintLine(chunks[..j], chunks[j])
    decreases |chunks|
  {
    if |chunks| > 0 {
      var init := chunks[..|chunks| - 1];
      AllAcceptedEach(init, parseAndPrintLine);
      assert forall j :: 0 <= j < |init| ==> init[..j] == chunks[..j] && init[j] == chunks[j];
    }
  }

  /** The chunks before an accepted run's end are accepted too. */
  lemma {:induction false} AcceptedPrefix(chunks: seq<string>, k: nat, parseAndPrintLine: (seq<string>, string) -> bool)
    requires k <= |chunks| && AllAccepted(chunks, parseAndPrintLine)
    ensures AllAccepted(chunks[..k], parseAndPrintLine)
    decreases |chunks|
  {
    if k < |chunks| {
      var init := chunks[..|chunks| - 1];
      AcceptedPrefix(init, k, parseAndPrintLine);
      assert init[..k] == chunks[..k];
    } else {
      assert chunks[..k] == chunks;
    }
  }

  /** Concatenation of chunk lists associates. */
  lemma ConcatAssociates(a: seq<string>, b: seq<string>, c: seq<string>)
    ensures a + (b + c) == (a + b) + c
  {
  }

  /** A rejected chunk after accepted ones leaves the whole run not accepted, whatever follows it. */
  lemma RejectedChunk(done: seq<string>, chunk: string, rest: seq<string>, parseAndPrintLine: (seq<string>, string) -> bool)
    requires !parseAndPrintLine(done, chunk)
    ensures !AllAccepted(done + [chunk] + rest, parseAndPrintLine)
    ensures (done + [chunk] + rest)[..|done| + 1] == done + [chunk]
  {
    var all := done + [chunk] + rest;
    var handedOn := done + [chunk];
    assert all[..|done| + 1] == handedOn;
    assert handedOn[..|done|] == done;
    if AllAccepted(all, parseAndPrintLine) {
      AcceptedPrefix(all, |done| + 1, parseAndPrintLine);
      assert false;
    }
  }

  /** The interpreter; of its state only the command table is modelled. */
  class RacketInterpreter {
    const printTree: bool
    const expressionClear: bool
    var interpreterCommands: map<string, Command>

    ghost predicate Valid()
      reads this
    {
      interpreterCommands == RegisteredCommands
    }

    /** The constructor stores the two flags and registers the five commands. */
    constructor (printTree: bool, expressionClear: bool)
      ensures this.printTree == printTree && this.expressionClear == expressionClear
      ensures Valid()
    {
      this.printTree := printTree;
      this.expressionClear := expressionClear;
      new;
      interpreterCommands := map[];
      interpreterCommands := interpreterCommands["#help" := ShowRacketHelp];
      interpreterCommands := interpreterCommands["#ldf" := ParseAndPrintFile];
      interpreterCommands := interpreterCommands["#loadfile" := ParseAndPrintFile];
      interpreterCommands := interpreterCommands["#cls" := ClearScreen];
      interpreterCommands := interpreterCommands["#clear" := ClearScreen];
    }

    /**
     * `ParseInterpreterCommand` as written: the line is trimmed and lower-cased, then looked up; if
     * absent, its first character is tested for `#` without checking that there is one.
     */
    function ParseInterpreterCommandAsWritten(str: string): Result<CommandMatch, Error>
      reads this
    {
      var key := ToLower(Trim(str));
      if key in interpreterCommands then Success(Registered(interpreterCommands[key]))
      else if |key| == 0 then Failure(IndexOutOfRange)
      else if key[0] == '#' then Success(Directive)
      else Success(NotCommand)
    }

    /** A blank line, and only a blank line, makes the code as written throw `IndexOutOfRange`. */
    lemma AsWrittenThrowsOnBlankLines(str: string)
      requires Valid()
      ensures ParseInterpreterCommandAsWritten(str).Failure? <==> IsNullOrWhiteSpace(str)
      ensures ParseInterpreterCommandAsWritten("") == Failure(IndexOutOfRange)
    {
      TrimIsEmptyIffWhiteSpace(str);
      TrimIsEmptyIffWhiteSpace("");
      assert "" !in RegisteredCommands;
    }

    /**
     * `ParseInterpreterCommand`: a registered name (after trimming and lower-casing) is that command,
     * any other line starting with `#` is a directive, and a blank line is not a command.
     */
    function ParseInterpreterCommand(str: string): (m: CommandMatch)
      reads this
      ensures var key := ToLower(Trim(str));
        && (m.Registered? <==> key in interpreterCommands)
        && (m.Registered? ==> m.command == interpreterCommands[key])
        && (m.Directive? <==> key !in interpreterCommands && |key| > 0 && key[0] == '#')
    {
      var key := ToLower(Trim(str));
      if key in interpreterCommands then Registered(interpreterCommands[key])
      else if |key| > 0 && key[0] == '#' then Directive
      else NotCommand
    }

    /** Where the code as written does not throw, it classifies as `ParseInterpreterCommand` does. */
    lemma AsWrittenAgreesElsewhere(str: string)
      requires ParseInterpreterCommandAsWritten(str).Success?
      ensures ParseInterpreterCommandAsWritten(str).value == ParseInterpreterCommand(str)
    {
    }

    /** Every registered name starts with `#`, so a line is a command exactly when its trimmed text starts with `#`. */
    lemma CommandsAreTheHashLines(str: string)
      requires Valid()
      ensures ParseInterpreterCommand(str).IsCommand() <==> |Trim(str)| > 0 && Trim(str)[0] == '#'
    {
      var trimmed := Trim(str);
      var key := ToLower(trimmed);
      if |trimmed| > 0 {
        assert key[0] == LowerChar(trimmed[0]);
      }
      if key in interpreterCommands {
        RegisteredNamesStartWithHash(key);
      }
    }

    /** Commands are recognised whatever their case and surrounding white space. */
    lemma CommandNamesIgnoreCase()
      requires Valid()
      ensures ParseInterpreterCommand(" #CLS") == Registered(ClearScreen)
    {
      TrimOfPaddedCls();
      LowerOfCls();
    }

    /** The grouping loop never hands on a blank chunk, so through it the code as written never throws. */
    lemma MultiLineNeverHandsOnBlankChunk(str: string)
      requires Valid()
      ensures forall chunk :: chunk in Group(Split(str, '\n'), "").chunks ==>
        ParseInterpreterCommandAsWritten(chunk).Success?
    {
      GroupShape(Split(str, '\n'), "");
      forall chunk | chunk in Group(Split(str, '\n'), "").chunks
        ensures ParseInterpreterCommandAsWritten(chunk).Success?
      {
        AsWrittenThrowsOnBlankLines(chunk);
      }
    }

    /**
     * The line-grouping loop of `ParseAndPrintMultiLine`: the text is split at `\n`, chunks are
     * formed as `Group` says and handed to `parseAndPrintLine` one by one, together with the chunks
     * handed on before it in this call; the first chunk it rejects stops the loop with `false`.
     * `handedOn` lists the chunks handed on, in order.
     */
    method ParseAndPrintMultiLine(str: string, parseAndPrintLine: (seq<string>, string) -> bool)
      returns (ok: bool, handedOn: seq<string>)
      ensures |handedOn| <= |Group(Split(str, '\n'), "").chunks|
      ensures handedOn == Group(Split(str, '\n'), "").chunks[..|handedOn|]
      ensures ok ==> handedOn == Group(Split(str, '\n'), "").chunks
      ensures ok <==> AllAccepted(Group(Split(str, '\n'), "").chunks, parseAndPrintLine)
      ensures !ok ==>
        (&& |handedOn| >= 1
         && AllAccepted(handedOn[..|handedOn| - 1], parseAndPrintLine)
         && !parseAndPrintLine(handedOn[..|handedOn| - 1], handedOn[|handedOn| - 1]))
    {
      var expressions := Split(str, '\n');
      ghost var all := Group(expressions, "");
      var currentExpression := "";
      handedOn := [];
      for i := 0 to |expressions|
        invariant all.chunks == handedOn + Group(expressions[i..], currentExpression).chunks
        invariant AllAccepted(handedOn, parseAndPrintLine)
      {
        var line := expressions[i];
        GroupStep(expressions, i, currentExpression);
        if IsNullOrWhiteSpace(line) || line[0] == ';' || line[0] == '#' {
          continue;
        }
        ghost var before := currentExpression;
        currentExpression := currentExpression + line;
        var balanced, _ := ParenthesisBalance(currentExpression);
        if !balanced && i != |expressions| - 1 {
          continue;
        }
        ghost var rest := Group(expressions[i + 1..], "").chunks;
        assert Group(expressions[i..], before).chunks == [currentExpression] + rest;
        ConcatAssociates(handedOn, [currentExpression], rest);
        if !parseAndPrintLine(handedOn, currentExpression) {
          RejectedChunk(handedOn, currentExpression, rest, parseAndPrintLine);
          var rejected := handedOn + [currentExpression];
          assert rejected[..|handedOn|] == handedOn;
          return false, rejected;
        }
        ghost var previous := handedOn;
        handedOn := handedOn + [currentExpression];
        assert handedOn[..|previous|] == previous;
        currentExpression := "";
      }
      assert expressions[|expressions|..] == [];
      return true, handedOn;
    }
  }
}
