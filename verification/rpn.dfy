/**
 The token fold at the heart of `evaluate`: an operand stack (bottom first,
 top last) and the sticky decimal flag, driven one token at a time.
 */
module Rpn {
  import opened Wrappers
  import opened Numbers

  /** The three ways an evaluation can fail. */
  datatype EvalError = DivideByZero | UnevenNotation | InvalidCharacter

  /** The state the fold carries: the operand stack and `showDecimal`. */
  datatype Machine = Machine(stack: seq<real>, showDecimal: bool)

  /** A fold that ran to the end, or stopped at an error with the flag as
      it stood when the error was raised. */
  datatype Outcome = Done(machine: Machine) | Failed(error: EvalError, flag: bool) {
    function ShowDecimal(): bool {
      match this
      case Done(m) => m.showDecimal
      case Failed(_, f) => f
    }
  }

  /** The keypad's operator keys. */
  const Operators: seq<string> := ["+", "-", "*", "/"]

  predicate IsOperator(token: string) {
    token in Operators
  }

  /** `first OP second`, `first` being the operand pushed earlier. */
  function Apply(op: string, first: real, second: real): (r: real)
    requires IsOperator(op) && (op == "/" ==> second != 0.0)
    ensures op == "+" ==> r - second == first
    ensures op == "-" ==> r + second == first
    ensures op == "*" ==> (r == 0.0 <==> first == 0.0 || second == 0.0)
    ensures op == "*" && second != 0.0 ==> r / second == first
    ensures op == "/" ==> r * second == first
  {
    match op
    case "+" => first + second
    case "-" => first - second
    case "*" => first * second
    case _ => first / second
  }

  /** One pass of the `for (character in enteredCharacters)` loop. An operator
      pops `second`, then `first`, and pushes `first OP second`; anything else
      must read as a number and is pushed. A negative number or a division
      with a fractional quotient raises the flag, which never falls here. */
  function Step(m: Machine, token: string): (r: Outcome)
    ensures m.showDecimal ==> r.ShowDecimal()
    ensures r.Failed? ==> r.flag == m.showDecimal
    ensures IsOperator(token) ==> (r == Failed(UnevenNotation, m.showDecimal) <==> |m.stack| < 2)
    ensures IsOperator(token) && r.Done? ==>
      var n := |m.stack|;
      && |r.machine.stack| == n - 1
      && r.machine.stack[..n - 2] == m.stack[..n - 2]
      && (token == "/" ==> m.stack[n - 1] != 0.0)
      && r.machine.stack[n - 2] == Apply(token, m.stack[n - 2], m.stack[n - 1])
    ensures r.Failed? && r.error == DivideByZero <==> token == "/" && |m.stack| >= 2 && m.stack[|m.stack| - 1] == 0.0
    ensures r.Failed? && r.error == InvalidCharacter <==> !IsOperator(token) && ParseNumber(token).None?
    ensures !IsOperator(token) && r.Done? ==>
      |r.machine.stack| == |m.stack| + 1
      && r.machine.stack[..|m.stack|] == m.stack
      && Some(r.machine.stack[|m.stack|]) == ParseNumber(token)
  {
    if IsOperator(token) then
      if |m.stack| < 2 then Failed(UnevenNotation, m.showDecimal)
      else
        var second, rest := m.stack[|m.stack| - 1], m.stack[..|m.stack| - 1];
        var first, below := rest[|rest| - 1], rest[..|rest| - 1];
        if token == "/" && second == 0.0 then Failed(DivideByZero, m.showDecimal)
        else
          var flag := if token == "/" && !m.showDecimal then !IsInteger(first / second) else m.showDecimal;
          Done(Machine(below + [Apply(token, first, second)], flag))
    else
      match ParseNumber(token)
      case None => Failed(InvalidCharacter, m.showDecimal)
      case Some(x) => Done(Machine(m.stack + [x], if m.showDecimal then true else x < 0.0))
  }

  /** When a step raises the flag: a negative operand, or a division whose
      quotient is not whole (`first % second != 0`). */
  lemma StepRaisesFlag(m: Machine, token: string)
    requires !m.showDecimal && Step(m, token).Done?
    ensures Step(m, token).ShowDecimal() <==>
      || (token == "/" && !IsInteger(m.stack[|m.stack| - 2] / m.stack[|m.stack| - 1]))
      || (!IsOperator(token) && ParseNumber(token).value < 0.0)
  {
  }

  /** The whole loop: tokens left to right, stopping at the first error. */
  function Run(m: Machine, tokens: seq<string>): (r: Outcome)
    ensures m.showDecimal ==> r.ShowDecimal()
    decreases |tokens|
  {
    if tokens == [] then Done(m)
    else
      match Step(m, tokens[0])
      case Failed(e, f) => Failed(e, f)
      case Done(m') => Run(m', tokens[1..])
  }

  /** Running `a + b` is running `a`, then `b` from where `a` stopped. */
  lemma {:induction false} RunAppend(m: Machine, a: seq<string>, b: seq<string>)
    ensures Run(m, a + b) == (match Run(m, a) case Done(m') => Run(m', b) case Failed(e, f) => Failed(e, f))
    decreases |a|
  {
    if a != [] {
      assert (a + b)[0] == a[0] && (a + b)[1..] == a[1..] + b;
      match Step(m, a[0])
      case Failed(e, f) =>
      case Done(m') => RunAppend(m', a[1..], b);
    } else {
      assert a + b == b;
    }
  }

  /** No operator key reads as a number. */
  lemma OperatorIsNotNumber(token: string)
    requires IsOperator(token)
    ensures ParseNumber(token).None?
  {
    assert |token| == 1 && !IsDigit(token[0]);
  }

  /** Stack height change of a token that goes through: +1 for a number,
      -1 for an operator. */
  function Effect(token: string): int {
    if IsOperator(token) then -1 else 1
  }

  function NetEffect(tokens: seq<string>): int
    decreases |tokens|
  {
    if tokens == [] then 0 else Effect(tokens[0]) + NetEffect(tokens[1..])
  }

  /** Every operator finds at least two operands, starting from `height`. */
  predicate Balanced(height: int, tokens: seq<string>)
    decreases |tokens|
  {
    tokens == [] || ((!IsOperator(tokens[0]) || height >= 2) && Balanced(height + Effect(tokens[0]), tokens[1..]))
  }

  /** Every token is an operator or a number. */
  predicate Lexical(tokens: seq<string>) {
    forall i :: 0 <= i < |tokens| ==> IsOperator(tokens[i]) || ParseNumber(tokens[i]).Some?
  }

  /** A fold that goes through had only operators and numbers, never
      underflowed, and ends with the start height plus one per number minus
      one per operator. */
  lemma {:induction false} RunSucceeds(m: Machine, tokens: seq<string>)
    requires Run(m, tokens).Done?
    ensures Lexical(tokens)
    ensures Balanced(|m.stack|, tokens)
    ensures |Run(m, tokens).machine.stack| == |m.stack| + NetEffect(tokens)
    decreases |tokens|
  {
    if tokens != [] {
      var m' := Step(m, tokens[0]).machine;
      RunSucceeds(m', tokens[1..]);
      forall i | 0 <= i < |tokens| ensures IsOperator(tokens[i]) || ParseNumber(tokens[i]).Some? {
        if i > 0 {
          assert tokens[i] == tokens[1..][i - 1];
        }
      }
    }
  }

  /** Conversely, well-formed input can only fail at a zero divisor. */
  lemma {:induction false} RunWellFormed(m: Machine, tokens: seq<string>)
    requires Lexical(tokens) && Balanced(|m.stack|, tokens)
    ensures Run(m, tokens).Done? || Run(m, tokens).error == DivideByZero
    decreases |tokens|
  {
    if tokens != [] {
      match Step(m, tokens[0])
      case Failed(e, f) =>
      case Done(m') =>
        assert Lexical(tokens[1..]) by {
          forall i | 0 <= i < |tokens[1..]| ensures IsOperator(tokens[1..][i]) || ParseNumber(tokens[1..][i]).Some? {
            assert tokens[1..][i] == tokens[i + 1];
          }
        }
        RunWellFormed(m', tokens[1..]);
    }
  }

  /** InvalidCharacter comes from a token that is neither operator nor number. */
  lemma {:induction false} InvalidCharacterCause(m: Machine, tokens: seq<string>)
    requires Run(m, tokens).Failed? && Run(m, tokens).error == InvalidCharacter
    ensures !Lexical(tokens)
    decreases |tokens|
  {
    if Step(m, tokens[0]).Done? {
      InvalidCharacterCause(Step(m, tokens[0]).machine, tokens[1..]);
      var i :| 0 <= i < |tokens[1..]| && !(IsOperator(tokens[1..][i]) || ParseNumber(tokens[1..][i]).Some?);
      assert tokens[1..][i] == tokens[i + 1];
    }
  }

  /** UnevenNotation comes from an operator that runs short of operands. */
  lemma {:induction false} UnevenNotationCause(m: Machine, tokens: seq<string>)
    requires Run(m, tokens).Failed? && Run(m, tokens).error == UnevenNotation
    ensures !Balanced(|m.stack|, tokens)
    decreases |tokens|
  {
    var token := tokens[0];
    if Step(m, token).Done? {
      var m' := Step(m, token).machine;
      assert |m'.stack| == |m.stack| + Effect(token);
      UnevenNotationCause(m', tokens[1..]);
    } else {
      assert IsOperator(token) && |m.stack| < 2;
    }
  }

  /** DivideByZero comes from a division. */
  lemma {:induction false} DivideByZeroCause(m: Machine, tokens: seq<string>)
    requires Run(m, tokens).Failed? && Run(m, tokens).error == DivideByZero
    ensures "/" in tokens
    decreases |tokens|
  {
    if Step(m, tokens[0]).Done? {
      DivideByZeroCause(Step(m, tokens[0]).machine, tokens[1..]);
      assert "/" in tokens[1..];
    }
  }

  /** Which error says what: an unreadable token, an operator short of
      operands, or a division. */
  lemma RunErrorCause(m: Machine, tokens: seq<string>)
    requires Run(m, tokens).Failed?
    ensures Run(m, tokens).error == InvalidCharacter ==> !Lexical(tokens)
    ensures Run(m, tokens).error == UnevenNotation ==> !Balanced(|m.stack|, tokens)
    ensures Run(m, tokens).error == DivideByZero ==> "/" in tokens
  {
    match Run(m, tokens).error
    case InvalidCharacter => InvalidCharacterCause(m, tokens);
    case UnevenNotation => UnevenNotationCause(m, tokens);
    case DivideByZero => DivideByZeroCause(m, tokens);
  }

  /** Without a division, the fold goes through exactly when the tokens are
      operators and numbers and no operator runs short. */
  lemma RunWithoutDivision(m: Machine, tokens: seq<string>)
    requires "/" !in tokens
    ensures Run(m, tokens).Done? <==> Lexical(tokens) && Balanced(|m.stack|, tokens)
  {
    if Run(m, tokens).Done? {
      RunSucceeds(m, tokens);
    } else {
      RunErrorCause(m, tokens);
    }
  }

  /** A fold that goes through over at least one token leaves a nonempty stack. */
  lemma {:induction false} RunLeavesOperand(m: Machine, tokens: seq<string>)
    requires tokens != [] && Run(m, tokens).Done?
    ensures |Run(m, tokens).machine.stack| >= 1
    decreases |tokens|
  {
    if |tokens| > 1 {
      RunLeavesOperand(Step(m, tokens[0]).machine, tokens[1..]);
    } else {
      assert tokens[1..] == [];
    }
  }

  /** Some element is negative. */
  predicate AnyNegative(s: seq<real>) {
    exists i :: 0 <= i < |s| && s[i] < 0.0
  }

  /** A list has a negative element iff its head or its tail does. */
  lemma AnyNegativeCons(x: real, s: seq<real>)
    ensures AnyNegative([x] + s) <==> x < 0.0 || AnyNegative(s)
  {
    if AnyNegative(s) {
      var i :| 0 <= i < |s| && s[i] < 0.0;
      assert ([x] + s)[i + 1] < 0.0;
    }
    if x < 0.0 {
      assert ([x] + s)[0] < 0.0;
    }
    if AnyNegative([x] + s) && !(x < 0.0) {
      var i :| 0 <= i < |[x] + s| && ([x] + s)[i] < 0.0;
      assert s[i - 1] < 0.0;
    }
  }

  /** A token that reads as a number is pushed. */
  lemma StepNumber(m: Machine, token: string, x: real)
    requires ParseNumber(token) == Some(x)
    ensures Step(m, token) == Done(Machine(m.stack + [x], m.showDecimal || x < 0.0))
  {
    if IsOperator(token) {
      OperatorIsNotNumber(token);
    }
  }

  /** Tokens that all read as numbers are pushed in order, and the flag
      ends up raised exactly when it was already up or one of them is negative. */
  lemma {:induction false} RunNumbers(m: Machine, tokens: seq<string>, values: seq<real>)
    requires |values| == |tokens|
    requires forall i :: 0 <= i < |tokens| ==> ParseNumber(tokens[i]) == Some(values[i])
    ensures Run(m, tokens) == Done(Machine(m.stack + values, m.showDecimal || AnyNegative(values)))
    decreases |tokens|
  {
    if tokens == [] {
      assert m.stack + values == m.stack;
    } else {
      var x := values[0];
      var next := Machine(m.stack + [x], m.showDecimal || x < 0.0);
      calc {
        Run(m, tokens);
        { StepNumber(m, tokens[0], x); }
        Run(next, tokens[1..]);
        { RunNumbers(next, tokens[1..], values[1..]); }
        Done(Machine(next.stack + values[1..], next.showDecimal || AnyNegative(values[1..])));
        { assert values == [x] + values[1..];
          assert next.stack + values[1..] == m.stack + values;
          AnyNegativeCons(x, values[1..]); }
        Done(Machine(m.stack + values, m.showDecimal || AnyNegative(values)));
      }
    }
  }

  /** After tokens that all read as numbers, an empty token stops the fold. */
  lemma {:induction false} RunStopsAtEmptyToken(m: Machine, words: seq<string>)
    requires forall i :: 0 <= i < |words| ==> ParseNumber(words[i]).Some?
    ensures Run(m, words + [""]).Failed? && Run(m, words + [""]).error == InvalidCharacter
    decreases |words|
  {
    if words == [] {
      assert [] + [""] == [""] && [""][1..] == [];
    } else {
      if IsOperator(words[0]) {
        OperatorIsNotNumber(words[0]);
      }
      assert (words + [""])[0] == words[0] && (words + [""])[1..] == words[1..] + [""];
      RunStopsAtEmptyToken(Step(m, words[0]).machine, words[1..]);
    }
  }

  /** An empty token never reads as a number, so the fold cannot go through
      a token list holding one. */
  lemma {:induction false} EmptyTokenFails(m: Machine, tokens: seq<string>)
    requires "" in tokens
    ensures Run(m, tokens).Failed?
    decreases |tokens|
  {
    if tokens[0] != "" {
      match Step(m, tokens[0])
      case Failed(e, f) =>
      case Done(m') =>
        assert "" in tokens[1..];
        EmptyTokenFails(m', tokens[1..]);
    }
  }

  /** Without a division or a negative number the flag stays down. */
  lemma {:induction false} FlagStaysDown(m: Machine, tokens: seq<string>)
    requires !m.showDecimal
    requires forall i :: 0 <= i < |tokens| ==> tokens[i] != "/"
    requires forall i :: 0 <= i < |tokens| ==> ParseNumber(tokens[i]).Some? ==> ParseNumber(tokens[i]).value >= 0.0
    ensures !Run(m, tokens).ShowDecimal()
    decreases |tokens|
  {
    if tokens != [] {
      match Step(m, tokens[0])
      case Failed(e, f) =>
      case Done(m') =>
        FlagStaysDown(m', tokens[1..]);
    }
  }

  /** A negative operand in a fold that goes through leaves the flag up. */
  lemma {:induction false} NegativeOperandRaisesFlag(m: Machine, tokens: seq<string>, i: nat)
    requires i < |tokens| && ParseNumber(tokens[i]).Some? && ParseNumber(tokens[i]).value < 0.0
    requires Run(m, tokens).Done?
    ensures Run(m, tokens).ShowDecimal()
    decreases |tokens|
  {
    var m' := Step(m, tokens[0]).machine;
    if i == 0 {
      assert !IsOperator(tokens[0]);
      assert m'.showDecimal;
    } else {
      NegativeOperandRaisesFlag(m', tokens[1..], i - 1);
    }
  }

  /** The four binary operations on two numeric tokens from an empty stack. */
  lemma BinaryOperation(a: string, b: string, op: string, showDecimal: bool)
    requires ParseNumber(a).Some? && ParseNumber(b).Some? && IsOperator(op)
    requires op == "/" ==> ParseNumber(b).value != 0.0
    ensures Run(Machine([], showDecimal), [a, b, op]).Done?
    ensures Run(Machine([], showDecimal), [a, b, op]).machine.stack
         == [Apply(op, ParseNumber(a).value, ParseNumber(b).value)]
    ensures var x, y := ParseNumber(a).value, ParseNumber(b).value;
      Run(Machine([], showDecimal), [a, b, op]).machine.showDecimal
      == (showDecimal || x < 0.0 || y < 0.0 || (op == "/" && !IsInteger(x / y)))
  {
    if IsOperator(a) { OperatorIsNotNumber(a); }
    if IsOperator(b) { OperatorIsNotNumber(b); }
    var x, y := ParseNumber(a).value, ParseNumber(b).value;
    var m0 := Machine([], showDecimal);
    var m1 := Step(m0, a).machine;
    var m2 := Step(m1, b).machine;
    assert m1.stack == [x];
    assert m2.stack == [x, y];
    assert Step(m2, op).machine.stack == [Apply(op, x, y)];
    assert [a, b, op][1..] == [b, op] && [b, op][1..] == [op] && [op][1..] == [];
    calc {
      Run(m0, [a, b, op]);
      Run(m1, [b, op]);
      Run(m2, [op]);
      Run(Step(m2, op).machine, []);
    }
  }
}
