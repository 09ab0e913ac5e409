/**
 The view model: the history line, the line being typed and the sticky
 decimal flag, with the transitions the keypad drives.
 */
module Calculator {
  import opened Wrappers
  import opened Text
  import opened Numbers
  import opened Rpn

  /** `historicalEntry`, `currentEntry` and `showDecimal` as plain fields. */
  datatype ViewModel = ViewModel(historicalEntry: string, currentEntry: string, showDecimal: bool)

  const Initial := ViewModel("", "", false)

  /** A key appends its text to the line being typed; nothing else changes. */
  function UpdateCurrentEntry(c: ViewModel, newCharacter: string): (r: ViewModel)
    ensures |r.currentEntry| == |c.currentEntry| + |newCharacter|
    ensures r.currentEntry[..|c.currentEntry|] == c.currentEntry
    ensures r.currentEntry[|c.currentEntry|..] == newCharacter
    ensures r.historicalEntry == c.historicalEntry && r.showDecimal == c.showDecimal
  {
    c.(currentEntry := c.currentEntry + newCharacter)
  }

  /** `dropLast(1)`: the last typed character goes, if there is one. */
  function Backspace(c: ViewModel): (r: ViewModel)
    ensures c.currentEntry == [] ==> r == c
    ensures c.currentEntry != [] ==> r.currentEntry + [c.currentEntry[|c.currentEntry| - 1]] == c.currentEntry
    ensures r.historicalEntry == c.historicalEntry && r.showDecimal == c.showDecimal
  {
    if c.currentEntry == [] then c else c.(currentEntry := c.currentEntry[..|c.currentEntry| - 1])
  }

  /** Typing one character and deleting it again leaves the calculator as it was. */
  lemma BackspaceUndoesKey(c: ViewModel, key: char)
    ensures Backspace(UpdateCurrentEntry(c, [key])) == c
  {
    assert (c.currentEntry + [key])[..|c.currentEntry|] == c.currentEntry;
  }

  /** Empties the line being typed and lowers the flag; the history stays. */
  function ClearCurrentEntry(c: ViewModel): (r: ViewModel)
    ensures r.currentEntry == [] && !r.showDecimal
    ensures r.historicalEntry == c.historicalEntry
  {
    c.(currentEntry := "", showDecimal := false)
  }

  /** Empties the history and lowers the flag; the line being typed stays. */
  function ClearHistoricalEntry(c: ViewModel): (r: ViewModel)
    ensures r.historicalEntry == [] && !r.showDecimal
    ensures r.currentEntry == c.currentEntry
  {
    c.(historicalEntry := "", showDecimal := false)
  }

  /** Both clears, in either order, bring back the starting state. */
  lemma ClearBothIsInitial(c: ViewModel)
    ensures ClearHistoricalEntry(ClearCurrentEntry(c)) == Initial
    ensures ClearCurrentEntry(ClearHistoricalEntry(c)) == Initial
  {
  }

  /** The tokens `evaluate` folds: the normalised entry glued to the history
      with no separator, cut at every single space. */
  function Tokenize(history: string, current: string): (r: seq<string>)
    ensures |r| >= 1
    ensures forall i :: 0 <= i < |r| ==> ' ' !in r[i]
    ensures Join(r) == history + Normalize(current)
  {
    Split(history + Normalize(current))
  }

  /** The formatted elements, bottom to top. */
  function Formats(stack: seq<real>, showDecimal: bool): seq<string> {
    seq(|stack|, i requires 0 <= i < |stack| => Format(stack[i], showDecimal))
  }

  /** Each stack element, bottom to top, formatted and followed by a space. */
  function Render(stack: seq<real>, showDecimal: bool): (r: string)
    ensures r == [] <==> stack == []
    ensures r != [] ==> r[|r| - 1] == ' '
  {
    Terminated(Formats(stack, showDecimal))
  }

  /** The values a rendered history reads back as. */
  function Reread(stack: seq<real>, showDecimal: bool): seq<real> {
    seq(|stack|, i requires 0 <= i < |stack| => Rounded(stack[i], showDecimal))
  }

  lemma FormatsSnoc(stack: seq<real>, showDecimal: bool)
    requires stack != []
    ensures Formats(stack, showDecimal)
         == Formats(stack[..|stack| - 1], showDecimal) + [Format(stack[|stack| - 1], showDecimal)]
  {
    var a, b := Formats(stack, showDecimal), Formats(stack[..|stack| - 1], showDecimal) + [Format(stack[|stack| - 1], showDecimal)];
    assert |a| == |b|;
    forall i | 0 <= i < |a| ensures a[i] == b[i] {
      if i < |stack| - 1 {
        assert b[i] == Formats(stack[..|stack| - 1], showDecimal)[i];
      }
    }
  }

  lemma RereadSnoc(stack: seq<real>, showDecimal: bool)
    requires stack != []
    ensures Reread(stack, showDecimal)
         == Reread(stack[..|stack| - 1], showDecimal) + [Rounded(stack[|stack| - 1], showDecimal)]
  {
    var a, b := Reread(stack, showDecimal), Reread(stack[..|stack| - 1], showDecimal) + [Rounded(stack[|stack| - 1], showDecimal)];
    assert |a| == |b|;
    forall i | 0 <= i < |a| ensures a[i] == b[i] {
      if i < |stack| - 1 {
        assert b[i] == Reread(stack[..|stack| - 1], showDecimal)[i];
      }
    }
  }

  /** Rendering a stack is rendering all but its top, then the top and a space. */
  lemma RenderSnoc(stack: seq<real>, showDecimal: bool)
    requires stack != []
    ensures Render(stack, showDecimal)
         == Render(stack[..|stack| - 1], showDecimal) + Format(stack[|stack| - 1], showDecimal) + " "
  {
    FormatsSnoc(stack, showDecimal);
    var w := Formats(stack, showDecimal);
    assert w[..|w| - 1] == Formats(stack[..|stack| - 1], showDecimal);
  }

  /** A stack that survives a render and re-read unchanged: every element is
      shown exactly, and none would raise a lowered flag. */
  predicate Stable(stack: seq<real>, showDecimal: bool) {
    forall i :: 0 <= i < |stack| ==> Rounded(stack[i], showDecimal) == stack[i] && (showDecimal || stack[i] >= 0.0)
  }

  /** What `evaluate` leaves behind: a new history and flag, or an error and
      the flag as it stood when the error was raised. */
  datatype Evaluation = Evaluated(history: string, showDecimal: bool) | Rejected(error: EvalError, flag: bool)

  function Conclude(o: Outcome): (r: Evaluation)
    ensures r.Evaluated? <==> o.Done?
    ensures o.Done? ==> r.showDecimal == o.machine.showDecimal
    ensures o.Failed? ==> r.error == o.error && r.flag == o.flag
  {
    match o
    case Done(m) => Evaluated(Render(m.stack, m.showDecimal), m.showDecimal)
    case Failed(e, f) => Rejected(e, f)
  }

  /** The private `evaluate`: tokenise, fold from an empty stack starting
      from the current flag, render. */
  function Evaluate(history: string, current: string, showDecimal: bool): (r: Evaluation)
    ensures r.Evaluated? ==> r.history != [] && r.history[|r.history| - 1] == ' '
    ensures showDecimal ==> (if r.Evaluated? then r.showDecimal else r.flag)
  {
    var o := Run(Machine([], showDecimal), Tokenize(history, current));
    if o.Done? then
      RunLeavesOperand(Machine([], showDecimal), Tokenize(history, current));
      Conclude(o)
    else Conclude(o)
  }

  /** The calculator after Enter, and the error if `evaluate` failed. */
  datatype Entered = Entered(viewModel: ViewModel, error: Option<EvalError>)

  /** Enter: on success the history is replaced and the typed line cleared;
      on failure both stay as they were, since `evaluate` writes the history
      only as its last act and the line is cleared only after it returns.
      The flag never falls. */
  function UpdateHistoricalEntry(c: ViewModel): (r: Entered)
    ensures r.error.Some? ==> r.viewModel.historicalEntry == c.historicalEntry && r.viewModel.currentEntry == c.currentEntry
    ensures r.error.None? ==> r.viewModel.currentEntry == [] && r.viewModel.historicalEntry != []
    ensures r.error.None? ==> r.viewModel.historicalEntry[|r.viewModel.historicalEntry| - 1] == ' '
    ensures c.showDecimal ==> r.viewModel.showDecimal
  {
    match Evaluate(c.historicalEntry, c.currentEntry, c.showDecimal)
    case Evaluated(h, f) => Entered(ViewModel(h, "", f), None)
    case Rejected(e, f) => Entered(c.(showDecimal := f), Some(e))
  }

  /** Enter succeeds exactly when the fold over the tokens goes through, and
      then the history shows the final stack under the final flag. */
  lemma EnterOutcome(c: ViewModel)
    ensures var o := Run(Machine([], c.showDecimal), Tokenize(c.historicalEntry, c.currentEntry));
      && (UpdateHistoricalEntry(c).error.None? <==> o.Done?)
      && (o.Done? ==>
            UpdateHistoricalEntry(c).viewModel
            == ViewModel(Render(o.machine.stack, o.machine.showDecimal), "", o.machine.showDecimal))
      && (o.Failed? ==> UpdateHistoricalEntry(c) == Entered(c.(showDecimal := o.flag), Some(o.error)))
  {
  }

  /** Enter succeeds exactly when the fold goes through. The history it
      writes then splits into one piece per element of the final stack, each
      reading back as that element rounded to the final pattern, and an
      empty last piece; a failure keeps both lines and reports the fold's
      error and flag. */
  lemma EnterReadsBack(c: ViewModel)
    ensures var o := Run(Machine([], c.showDecimal), Tokenize(c.historicalEntry, c.currentEntry));
      var r := UpdateHistoricalEntry(c);
      && (r.error.None? <==> o.Done?)
      && (o.Done? ==>
            var stack, flag := o.machine.stack, o.machine.showDecimal;
            var t := Split(r.viewModel.historicalEntry);
            && r.viewModel.currentEntry == [] && r.viewModel.showDecimal == flag
            && |t| == |stack| + 1 && t[|stack|] == ""
            && forall i :: 0 <= i < |stack| ==> ParseNumber(t[i]) == Some(Reread(stack, flag)[i]))
      && (o.Failed? ==> r == Entered(c.(showDecimal := o.flag), Some(o.error)))
  {
    EnterOutcome(c);
    var o := Run(Machine([], c.showDecimal), Tokenize(c.historicalEntry, c.currentEntry));
    if o.Done? {
      var stack, flag := o.machine.stack, o.machine.showDecimal;
      ReadBack(stack, flag);
    }
  }

  /** A rendered stack splits into its formatted elements and one empty
      piece, and each element reads back as its rounded value. */
  lemma ReadBack(stack: seq<real>, showDecimal: bool)
    ensures var t := Split(Render(stack, showDecimal));
      && |t| == |stack| + 1 && t[|stack|] == ""
      && forall i :: 0 <= i < |stack| ==> ParseNumber(t[i]) == Some(Reread(stack, showDecimal)[i])
  {
    SplitRender(stack, showDecimal, "");
    assert Render(stack, showDecimal) + "" == Render(stack, showDecimal);
    FormatsAreNumbers(stack, showDecimal);
    var t := Split(Render(stack, showDecimal));
    assert t == Formats(stack, showDecimal) + [""];
    forall i | 0 <= i < |stack| ensures t[i] == Formats(stack, showDecimal)[i] { }
  }

  /** No formatted element holds a space, and each reads back as its rounded value. */
  lemma FormatsAreNumbers(stack: seq<real>, showDecimal: bool)
    ensures forall i :: 0 <= i < |stack| ==> ParseNumber(Formats(stack, showDecimal)[i]) == Some(Reread(stack, showDecimal)[i])
    ensures forall i :: 0 <= i < |stack| ==> ' ' !in Formats(stack, showDecimal)[i]
  {
    forall i | 0 <= i < |stack|
      ensures ParseNumber(Formats(stack, showDecimal)[i]) == Some(Reread(stack, showDecimal)[i])
      ensures ' ' !in Formats(stack, showDecimal)[i]
    {
      ParseFormat(stack[i], showDecimal);
      NumberHasNoSpace(Formats(stack, showDecimal)[i]);
    }
  }

  /** A rendered history followed by more text splits into the formatted
      elements, then the pieces of that text. */
  lemma SplitRender(stack: seq<real>, showDecimal: bool, next: string)
    ensures Split(Render(stack, showDecimal) + next) == Formats(stack, showDecimal) + Split(next)
  {
    FormatsAreNumbers(stack, showDecimal);
    SplitTerminated(Formats(stack, showDecimal), next);
  }

  /** Re-reading a rendered history rebuilds the stack as it was shown, each
      element rounded, and raises the flag if a shown element is negative. */
  lemma RereadHistory(stack: seq<real>, showDecimal: bool, flag: bool)
    ensures Run(Machine([], flag), Formats(stack, showDecimal))
         == Done(Machine(Reread(stack, showDecimal), flag || AnyNegative(Reread(stack, showDecimal))))
  {
    FormatsAreNumbers(stack, showDecimal);
    RunNumbers(Machine([], flag), Formats(stack, showDecimal), Reread(stack, showDecimal));
    assert [] + Reread(stack, showDecimal) == Reread(stack, showDecimal);
  }

  /** Incremental evaluation: Enter on a rendered history is the fold of the
      new entry's tokens over the stack the history shows. */
  lemma IncrementalEvaluation(stack: seq<real>, showDecimal: bool, current: string)
    ensures var shown := Reread(stack, showDecimal);
      Evaluate(Render(stack, showDecimal), current, showDecimal)
      == Conclude(Run(Machine(shown, showDecimal || AnyNegative(shown)), Split(Normalize(current))))
  {
    SplitRender(stack, showDecimal, Normalize(current));
    RunAppend(Machine([], showDecimal), Formats(stack, showDecimal), Split(Normalize(current)));
    RereadHistory(stack, showDecimal, showDecimal);
  }

  /** On a stable stack the history stands for the stack itself. */
  lemma StableIncrementalEvaluation(stack: seq<real>, showDecimal: bool, current: string)
    requires Stable(stack, showDecimal)
    ensures Evaluate(Render(stack, showDecimal), current, showDecimal)
         == Conclude(Run(Machine(stack, showDecimal), Split(Normalize(current))))
  {
    IncrementalEvaluation(stack, showDecimal, current);
    assert Reread(stack, showDecimal) == stack;
  }

  /** Two Enters are one fold over both token lists, provided the stack the
      first one leaves is stable. */
  lemma EnterTwice(history: string, a: string, b: string, showDecimal: bool, stack: seq<real>, flag: bool)
    requires Run(Machine([], showDecimal), Tokenize(history, a)) == Done(Machine(stack, flag))
    requires Stable(stack, flag)
    ensures Evaluate(history, a, showDecimal) == Evaluated(Render(stack, flag), flag)
    ensures Evaluate(Render(stack, flag), b, flag)
         == Conclude(Run(Machine([], showDecimal), Tokenize(history, a) + Tokenize("", b)))
  {
    StableIncrementalEvaluation(stack, flag, b);
    RunAppend(Machine([], showDecimal), Tokenize(history, a), Tokenize("", b));
    assert "" + Normalize(b) == Normalize(b);
  }

  /** A history `evaluate` can leave behind: numbers, each followed by one
      space, so the split ends in an empty piece. */
  predicate HistoryOfNumbers(history: string) {
    var t := Split(history);
    t[|t| - 1] == "" && forall i :: 0 <= i < |t| - 1 ==> ParseNumber(t[i]).Some?
  }

  lemma RenderIsHistoryOfNumbers(stack: seq<real>, showDecimal: bool)
    ensures HistoryOfNumbers(Render(stack, showDecimal))
  {
    SplitRender(stack, showDecimal, "");
    assert Render(stack, showDecimal) + "" == Render(stack, showDecimal);
    forall i | 0 <= i < |stack| ensures ParseNumber(Formats(stack, showDecimal)[i]).Some? {
      ParseFormat(stack[i], showDecimal);
    }
  }

  /** Enter with nothing but whitespace typed fails: the history's trailing
      space leaves an empty last token, which is not a number. */
  lemma EnterWithBlankEntryFails(c: ViewModel)
    requires HistoryOfNumbers(c.historicalEntry)
    requires forall i :: 0 <= i < |c.currentEntry| ==> IsWhitespace(c.currentEntry[i])
    ensures UpdateHistoricalEntry(c).error == Some(InvalidCharacter)
    ensures UpdateHistoricalEntry(c).viewModel.historicalEntry == c.historicalEntry
    ensures UpdateHistoricalEntry(c).viewModel.currentEntry == c.currentEntry
  {
    BlankNormalizesAway(c.currentEntry);
    assert c.historicalEntry + Normalize(c.currentEntry) == c.historicalEntry;
    assert Tokenize(c.historicalEntry, c.currentEntry) == Split(c.historicalEntry);
    HistoryStopsAtLastToken(c.historicalEntry, c.showDecimal);
  }

  lemma BlankNormalizesAway(entry: string)
    requires forall i :: 0 <= i < |entry| ==> IsWhitespace(entry[i])
    ensures Normalize(entry) == []
  {
    assert TrimEnd(entry) == [];
  }

  /** Folding a history of numbers on its own reaches its empty last piece and fails there. */
  lemma HistoryStopsAtLastToken(history: string, showDecimal: bool)
    requires HistoryOfNumbers(history)
    ensures Run(Machine([], showDecimal), Split(history)).Failed?
    ensures Run(Machine([], showDecimal), Split(history)).error == InvalidCharacter
  {
    var t := Split(history);
    var words := t[..|t| - 1];
    assert t == words + [""];
    RunStopsAtEmptyToken(Machine([], showDecimal), words);
  }

  /** The keys and buttons of the calculator screen. */
  datatype Action = Type(text: string) | Enter | Delete | ClearEntry | ClearHistory

  function Perform(c: ViewModel, a: Action): ViewModel {
    match a
    case Type(s) => UpdateCurrentEntry(c, s)
    case Enter => UpdateHistoricalEntry(c).viewModel
    case Delete => Backspace(c)
    case ClearEntry => ClearCurrentEntry(c)
    case ClearHistory => ClearHistoricalEntry(c)
  }

  function Session(c: ViewModel, actions: seq<Action>): ViewModel
    decreases |actions|
  {
    if actions == [] then c else Session(Perform(c, actions[0]), actions[1..])
  }

  /** A session in two parts is the second part run from where the first stopped. */
  lemma {:induction false} SessionAppend(c: ViewModel, a: seq<Action>, b: seq<Action>)
    ensures Session(c, a + b) == Session(Session(c, a), b)
    decreases |a|
  {
    if a == [] {
      assert a + b == b;
    } else {
      assert (a + b)[0] == a[0] && (a + b)[1..] == a[1..] + b;
      SessionAppend(Perform(c, a[0]), a[1..], b);
    }
  }

  /** Only the two clear buttons lower the flag. */
  lemma FlagFallsOnlyOnClear(c: ViewModel, a: Action)
    requires c.showDecimal && !Perform(c, a).showDecimal
    ensures a == ClearEntry || a == ClearHistory
  {
  }

  /** Once raised, the flag stays up through any run of keys without a clear. */
  lemma {:induction false} FlagStaysUp(c: ViewModel, actions: seq<Action>)
    requires c.showDecimal
    requires forall i :: 0 <= i < |actions| ==> actions[i] != ClearEntry && actions[i] != ClearHistory
    ensures Session(c, actions).showDecimal
    decreases |actions|
  {
    if actions != [] {
      if !Perform(c, actions[0]).showDecimal {
        FlagFallsOnlyOnClear(c, actions[0]);
      }
      FlagStaysUp(Perform(c, actions[0]), actions[1..]);
    }
  }

  /** Every key keeps the history one that `evaluate` could have written. */
  lemma PerformKeepsHistoryOfNumbers(c: ViewModel, a: Action)
    requires HistoryOfNumbers(c.historicalEntry)
    ensures HistoryOfNumbers(Perform(c, a).historicalEntry)
  {
    if a == Enter {
      var o := Run(Machine([], c.showDecimal), Tokenize(c.historicalEntry, c.currentEntry));
      if o.Done? {
        RenderIsHistoryOfNumbers(o.machine.stack, o.machine.showDecimal);
      }
    } else if a == ClearHistory {
      assert Split("") == [""];
    }
  }

  lemma {:induction false} SessionKeepsHistoryOfNumbers(c: ViewModel, actions: seq<Action>)
    requires HistoryOfNumbers(c.historicalEntry)
    ensures HistoryOfNumbers(Session(c, actions).historicalEntry)
    decreases |actions|
  {
    if actions != [] {
      PerformKeepsHistoryOfNumbers(c, actions[0]);
      SessionKeepsHistoryOfNumbers(Perform(c, actions[0]), actions[1..]);
    }
  }

  /** From a fresh calculator, pressing Enter with nothing typed fails at any
      point of any session. */
  lemma BlankEnterAlwaysFails(actions: seq<Action>)
    ensures var c := Session(Initial, actions);
      c.currentEntry == [] ==> UpdateHistoricalEntry(c).error == Some(InvalidCharacter)
  {
    assert Split("") == [""];
    SessionKeepsHistoryOfNumbers(Initial, actions);
    var c := Session(Initial, actions);
    if c.currentEntry == [] {
      EnterWithBlankEntryFails(c);
    }
  }

  /** The `for (character in enteredCharacters)` loop on a mutable stack. */
  method FoldLoop(tokens: seq<string>, showDecimal: bool) returns (o: Outcome)
    ensures o == Run(Machine([], showDecimal), tokens)
  {
    var stack: seq<real> := [];
    var flag := showDecimal;
    var i := 0;
    while i < |tokens|
      invariant 0 <= i <= |tokens|
      invariant Run(Machine([], showDecimal), tokens) == Run(Machine(stack, flag), tokens[i..])
    {
      var token := tokens[i];
      assert tokens[i..][1..] == tokens[i + 1..];
      if IsOperator(token) {
        if |stack| < 2 {
          return Failed(UnevenNotation, flag);
        }
        var second := stack[|stack| - 1];
        var first := stack[|stack| - 2];
        stack := stack[..|stack| - 2];
        if token == "/" {
          if second == 0.0 {
            return Failed(DivideByZero, flag);
          }
          if !flag {
            flag := !IsInteger(first / second);
          }
        }
        stack := stack + [Apply(token, first, second)];
      } else {
        var x := ParseNumber(token);
        if x.None? {
          return Failed(InvalidCharacter, flag);
        }
        if !flag {
          flag := x.value < 0.0;
        }
        stack := stack + [x.value];
      }
      i := i + 1;
    }
    return Done(Machine(stack, flag));
  }

  /** The `for (number in numbersStack)` loop that builds the history string. */
  method RenderLoop(stack: seq<real>, showDecimal: bool) returns (text: string)
    ensures text == Render(stack, showDecimal)
  {
    text := "";
    var j := 0;
    while j < |stack|
      invariant 0 <= j <= |stack|
      invariant text == Render(stack[..j], showDecimal)
    {
      assert stack[..j + 1][..j] == stack[..j];
      RenderSnoc(stack[..j + 1], showDecimal);
      text := text + Format(stack[j], showDecimal) + " ";
      j := j + 1;
    }
    assert stack[..|stack|] == stack;
  }

  /** `evaluate` as it is written: tokenise, the fold loop, the render loop. */
  method EvaluateLoops(history: string, current: string, showDecimal: bool) returns (r: Evaluation)
    ensures r == Evaluate(history, current, showDecimal)
  {
    var o := FoldLoop(Tokenize(history, current), showDecimal);
    if o.Failed? {
      return Rejected(o.error, o.flag);
    }
    var text := RenderLoop(o.machine.stack, o.machine.showDecimal);
    return Evaluated(text, o.machine.showDecimal);
  }
}
