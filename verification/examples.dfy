/**
 Worked evaluations on concrete strings: the view model's unit tests, the
 end-to-end keystroke example, the error paths, and the case where entering
 a line in two parts differs from entering it at once.
 */
module Examples {
  import opened Wrappers
  import opened Text
  import opened Numbers
  import opened Rpn
  import opened Calculator

  /** Enter on a history and an entry already in normal form folds the
      words the two spell together. */
  lemma EvaluateLine(history: string, entry: string, showDecimal: bool, words: seq<string>)
    requires Normalized(entry) && |words| >= 1 && Join(words) == history + entry
    requires forall i :: 0 <= i < |words| ==> ' ' !in words[i]
    ensures Evaluate(history, entry, showDecimal) == Conclude(Run(Machine([], showDecimal), words))
  {
    NormalizeFixes(entry);
    SplitJoin(words);
  }

  /** A whole number typed on the keypad is pushed as itself. */
  lemma PushWhole(m: Machine, k: int)
    ensures Step(m, IntToString(k)) == Done(Machine(m.stack + [k as real], m.showDecimal || k < 0))
  {
    ParseIntToString(k);
    if IsOperator(IntToString(k)) {
      OperatorIsNotNumber(IntToString(k));
    }
  }

  /** A single whole number as the history shows it with the flag down. */
  lemma RenderWhole(k: int)
    ensures Render([k as real], false) == IntToString(k) + " "
  {
    FormatWholeInteger(k);
    RenderSnoc([k as real], false);
    assert [k as real][..0] == [];
  }

  /** A single nonzero whole number as the history shows it with the flag up. */
  lemma RenderWholeDecimal(k: int)
    requires k != 0
    ensures Render([k as real], true) == IntToString(k) + ".0 "
  {
    var x := k as real;
    calc {
      Render([x], true);
      { RenderSnoc([x], true); assert [x][..0] == []; }
      Render([], true) + Format(x, true) + " ";
      { FormatFractionInteger(k); }
      "" + (IntToString(k) + ".0") + " ";
      IntToString(k) + ".0 ";
    }
  }

  lemma Numerals()
    ensures IntToString(1) == "1" && IntToString(2) == "2" && IntToString(3) == "3"
    ensures IntToString(4) == "4" && IntToString(5) == "5" && IntToString(6) == "6"
    ensures IntToString(20) == "20" && IntToString(-1) == "-1" && IntToString(-3) == "-3"
    ensures IntToString(0) == "0"
  {
  }

  lemma ShowWhole(k: int)
    ensures Conclude(Done(Machine([k as real], false))) == Evaluated(IntToString(k) + " ", false)
  {
    RenderWhole(k);
  }

  lemma ShowFive()
    ensures Conclude(Done(Machine([5.0], false))) == Evaluated("5 ", false)
  {
    ShowWhole(5);
    Numerals();
  }

  lemma ShowTwenty()
    ensures Conclude(Done(Machine([20.0], false))) == Evaluated("20 ", false)
  {
    ShowWhole(20);
    Numerals();
  }

  lemma ShowTwo()
    ensures Conclude(Done(Machine([2.0], false))) == Evaluated("2 ", false)
  {
    ShowWhole(2);
    Numerals();
  }

  lemma ShowSix()
    ensures Conclude(Done(Machine([6.0], false))) == Evaluated("6 ", false)
  {
    ShowWhole(6);
    Numerals();
  }

  lemma ShowTwoThree()
    ensures Conclude(Done(Machine([2.0, 3.0], false))) == Evaluated("2 3 ", false)
  {
    RenderSnoc([2.0, 3.0], false);
    assert [2.0, 3.0][..1] == [2.0];
    RenderWhole(2);
    FormatWholeInteger(3);
    Numerals();
  }

  lemma ShowMinusThree()
    ensures Conclude(Done(Machine([-3.0], true))) == Evaluated("-3.0 ", true)
  {
    RenderWholeDecimal(-3);
    Numerals();
  }

  // testEvaluateOnce: "2 3 +" gives 5.

  lemma LineTwoThreePlus()
    ensures Evaluate("", "2 3 +", false) == Conclude(Run(Machine([], false), ["2", "3", "+"]))
  {
    EvaluateLine("", "2 3 +", false, ["2", "3", "+"]);
  }

  lemma FoldTwoThreePlus()
    ensures Run(Machine([], false), ["2", "3", "+"]) == Done(Machine([5.0], false))
  {
    Numerals();
    PushWhole(Machine([], false), 2);
    PushWhole(Machine([2.0], false), 3);
  }

  lemma TestEvaluateOnce()
    ensures Evaluate("", "2 3 +", false) == Evaluated("5 ", false)
  {
    LineTwoThreePlus();
    FoldTwoThreePlus();
    ShowFive();
  }

  // A doubled space and a trailing space in the typed line change nothing.

  lemma TrimSpaced()
    ensures TrimEnd("2  3 + ") == "2  3 +"
  {
    assert "2  3 + "[..6] == "2  3 +";
  }

  lemma WordsSpaced()
    ensures Words("2  3 +") == ["2", "3", "+"]
  {
    assert "2  3 +"[1..] == "  3 +";
    assert "  3 +"[1..] == " 3 +";
    assert " 3 +"[1..] == "3 +";
    assert "3 +"[1..] == " +";
    assert " +"[1..] == "+";
    assert FrontWord("2  3 +") == "2" by { assert FrontWord("  3 +") == []; }
    assert FrontWord("3 +") == "3" by { assert FrontWord(" +") == []; }
    assert FrontWord("+") == "+" by { assert "+"[1..] == []; }
    assert "+"[1..] == [];
  }

  lemma LineSpaced()
    ensures Tokenize("", "2  3 + ") == ["2", "3", "+"]
  {
    TrimSpaced();
    WordsSpaced();
    NormalizeWords("2  3 + ");
    NoHistory("2  3 + ");
  }

  lemma NoHistory(entry: string)
    ensures Tokenize("", entry) == Split(Normalize(entry))
  {
    assert "" + Normalize(entry) == Normalize(entry);
  }

  lemma EvaluateSpaced()
    ensures Evaluate("", "2  3 + ", false) == Evaluated("5 ", false)
  {
    LineSpaced();
    LineTwoThreePlus();
    TestEvaluateOnce();
  }

  // testEvaluateTwice: then "4 *" gives 20.

  lemma LineFourTimes()
    ensures Evaluate("5 ", "4 *", false) == Conclude(Run(Machine([], false), ["5", "4", "*"]))
  {
    EvaluateLine("5 ", "4 *", false, ["5", "4", "*"]);
  }

  lemma FoldFourTimes()
    ensures Run(Machine([], false), ["5", "4", "*"]) == Done(Machine([20.0], false))
  {
    Numerals();
    PushWhole(Machine([], false), 5);
    PushWhole(Machine([5.0], false), 4);
  }

  lemma TestEvaluateTwice()
    ensures Evaluate("5 ", "4 *", false) == Evaluated("20 ", false)
  {
    LineFourTimes();
    FoldFourTimes();
    ShowTwenty();
  }

  // testEvaluateThrice: "2", then "3", then "*" gives 6.

  lemma LineTwo()
    ensures Evaluate("", "2", false) == Conclude(Run(Machine([], false), ["2"]))
  {
    EvaluateLine("", "2", false, ["2"]);
  }

  lemma LineThree()
    ensures Evaluate("2 ", "3", false) == Conclude(Run(Machine([], false), ["2", "3"]))
  {
    EvaluateLine("2 ", "3", false, ["2", "3"]);
  }

  lemma LineTimes()
    ensures Evaluate("2 3 ", "*", false) == Conclude(Run(Machine([], false), ["2", "3", "*"]))
  {
    EvaluateLine("2 3 ", "*", false, ["2", "3", "*"]);
  }

  lemma FoldTwo()
    ensures Run(Machine([], false), ["2"]) == Done(Machine([2.0], false))
  {
    Numerals();
    PushWhole(Machine([], false), 2);
  }

  lemma FoldThreeOnTwo()
    ensures Run(Machine([2.0], false), ["3"]) == Done(Machine([2.0, 3.0], false))
    ensures Run(Machine([2.0], false), ["3", "*"]) == Done(Machine([6.0], false))
  {
    Numerals();
    PushWhole(Machine([2.0], false), 3);
  }

  lemma FoldTwoThree()
    ensures Run(Machine([], false), ["2"]) == Done(Machine([2.0], false))
    ensures Run(Machine([], false), ["2", "3"]) == Done(Machine([2.0, 3.0], false))
    ensures Run(Machine([], false), ["2", "3", "*"]) == Done(Machine([6.0], false))
  {
    FoldTwo();
    FoldThreeOnTwo();
    RunAppend(Machine([], false), ["2"], ["3"]);
    RunAppend(Machine([], false), ["2"], ["3", "*"]);
    assert ["2"] + ["3"] == ["2", "3"];
    assert ["2"] + ["3", "*"] == ["2", "3", "*"];
  }

  lemma TestEvaluateThriceFirst()
    ensures Evaluate("", "2", false) == Evaluated("2 ", false)
  {
    LineTwo();
    FoldTwoThree();
    ShowTwo();
  }

  lemma TestEvaluateThriceSecond()
    ensures Evaluate("2 ", "3", false) == Evaluated("2 3 ", false)
  {
    LineThree();
    FoldTwoThree();
    ShowTwoThree();
  }

  lemma TestEvaluateThriceThird()
    ensures Evaluate("2 3 ", "*", false) == Evaluated("6 ", false)
  {
    LineTimes();
    FoldTwoThree();
    ShowSix();
  }

  // testEvaluateDecimal: "-3" raises the flag and shows -3.0.

  lemma LineMinusThree()
    ensures Evaluate("", "-3", false) == Conclude(Run(Machine([], false), ["-3"]))
  {
    EvaluateLine("", "-3", false, ["-3"]);
  }

  lemma FoldMinusThree()
    ensures Run(Machine([], false), ["-3"]) == Done(Machine([-3.0], true))
  {
    Numerals();
    PushWhole(Machine([], false), -3);
  }

  lemma TestEvaluateDecimal()
    ensures Evaluate("", "-3", false) == Evaluated("-3.0 ", true)
  {
    LineMinusThree();
    FoldMinusThree();
    ShowMinusThree();
  }

  // Entering a line in two parts can differ from entering it at once: the
  // first part leaves -1 on the stack, shown as "-1"; read back, that
  // negative operand raises the flag, which a computed -1 does not.

  lemma LineTwoThreeMinus()
    ensures Evaluate("", "2 3 -", false) == Conclude(Run(Machine([], false), ["2", "3", "-"]))
  {
    EvaluateLine("", "2 3 -", false, ["2", "3", "-"]);
  }

  lemma LineFourPlus()
    ensures Evaluate("-1 ", "4 +", false) == Conclude(Run(Machine([], false), ["-1", "4", "+"]))
  {
    EvaluateLine("-1 ", "4 +", false, ["-1", "4", "+"]);
  }

  lemma LineAtOnce()
    ensures Evaluate("", "2 3 - 4 +", false) == Conclude(Run(Machine([], false), ["2", "3", "-", "4", "+"]))
  {
    EvaluateLine("", "2 3 - 4 +", false, ["2", "3", "-", "4", "+"]);
  }

  lemma FoldTwoThreeMinus()
    ensures Run(Machine([], false), ["2", "3", "-"]) == Done(Machine([-1.0], false))
  {
    Numerals();
    PushWhole(Machine([], false), 2);
    PushWhole(Machine([2.0], false), 3);
  }

  lemma FoldFourPlusOnStack()
    ensures Run(Machine([-1.0], false), ["4", "+"]) == Done(Machine([3.0], false))
  {
    Numerals();
    PushWhole(Machine([-1.0], false), 4);
  }

  lemma FoldAtOnce()
    ensures Run(Machine([], false), ["2", "3", "-", "4", "+"]) == Done(Machine([3.0], false))
  {
    assert ["2", "3", "-", "4", "+"] == ["2", "3", "-"] + ["4", "+"];
    RunAppend(Machine([], false), ["2", "3", "-"], ["4", "+"]);
    FoldTwoThreeMinus();
    FoldFourPlusOnStack();
  }

  lemma FoldFourPlus()
    ensures Run(Machine([], false), ["-1", "4", "+"]) == Done(Machine([3.0], true))
  {
    Numerals();
    PushWhole(Machine([], false), -1);
    PushWhole(Machine([-1.0], true), 4);
  }

  lemma ShowResults()
    ensures Conclude(Done(Machine([-1.0], false))) == Evaluated("-1 ", false)
    ensures Conclude(Done(Machine([3.0], false))) == Evaluated("3 ", false)
    ensures Conclude(Done(Machine([3.0], true))) == Evaluated("3.0 ", true)
  {
    ShowWhole(-1);
    ShowWhole(3);
    RenderWholeDecimal(3);
    Numerals();
  }

  lemma TwoPartsDiffer()
    ensures Evaluate("", "2 3 -", false) == Evaluated("-1 ", false)
    ensures Evaluate("-1 ", "4 +", false) == Evaluated("3.0 ", true)
    ensures Evaluate("", "2 3 - 4 +", false) == Evaluated("3 ", false)
  {
    LineTwoThreeMinus();
    LineFourPlus();
    LineAtOnce();
    FoldTwoThreeMinus();
    FoldAtOnce();
    FoldFourPlus();
    ShowResults();
  }

  // The error paths.

  lemma LineShort()
    ensures Evaluate("", "3 +", false) == Conclude(Run(Machine([], false), ["3", "+"]))
  {
    EvaluateLine("", "3 +", false, ["3", "+"]);
  }

  lemma LineByZero()
    ensures Evaluate("", "1 0 /", false) == Conclude(Run(Machine([], false), ["1", "0", "/"]))
  {
    EvaluateLine("", "1 0 /", false, ["1", "0", "/"]);
  }

  lemma LineLetter()
    ensures Evaluate("", "3 x +", false) == Conclude(Run(Machine([], false), ["3", "x", "+"]))
  {
    EvaluateLine("", "3 x +", false, ["3", "x", "+"]);
  }

  lemma LineNegativeShort()
    ensures Evaluate("", "-3 +", false) == Conclude(Run(Machine([], false), ["-3", "+"]))
  {
    EvaluateLine("", "-3 +", false, ["-3", "+"]);
  }

  lemma LineBlank()
    ensures Evaluate("5 ", "", false) == Conclude(Run(Machine([], false), ["5", ""]))
  {
    EvaluateLine("5 ", "", false, ["5", ""]);
  }

  lemma FoldShort()
    ensures Run(Machine([], false), ["3", "+"]) == Failed(UnevenNotation, false)
    ensures Run(Machine([], false), ["-3", "+"]) == Failed(UnevenNotation, true)
  {
    Numerals();
    PushWhole(Machine([], false), 3);
    PushWhole(Machine([], false), -3);
  }

  lemma FoldByZero()
    ensures Run(Machine([], false), ["1", "0", "/"]) == Failed(DivideByZero, false)
  {
    Numerals();
    PushWhole(Machine([], false), 1);
    PushWhole(Machine([1.0], false), 0);
  }

  lemma FoldUnreadable()
    ensures Run(Machine([], false), ["3", "x", "+"]) == Failed(InvalidCharacter, false)
    ensures Run(Machine([], false), ["5", ""]) == Failed(InvalidCharacter, false)
  {
    Numerals();
    PushWhole(Machine([], false), 3);
    PushWhole(Machine([], false), 5);
  }

  /** An operator short of operands, a zero divisor, a key that is not a
      number, an error after a negative operand raised the flag, and Enter
      with nothing typed. */
  lemma Errors()
    ensures Evaluate("", "3 +", false) == Rejected(UnevenNotation, false)
    ensures Evaluate("", "1 0 /", false) == Rejected(DivideByZero, false)
    ensures Evaluate("", "3 x +", false) == Rejected(InvalidCharacter, false)
    ensures Evaluate("", "-3 +", false) == Rejected(UnevenNotation, true)
    ensures Evaluate("5 ", "", false) == Rejected(InvalidCharacter, false)
  {
    LineShort();
    LineByZero();
    LineLetter();
    LineNegativeShort();
    LineBlank();
    FoldShort();
    FoldByZero();
    FoldUnreadable();
  }

  // A fraction under "#.0##": no digit before the point.

  lemma LineHalf()
    ensures Evaluate("", "1 2 /", false) == Conclude(Run(Machine([], false), ["1", "2", "/"]))
  {
    EvaluateLine("", "1 2 /", false, ["1", "2", "/"]);
  }

  lemma FoldHalf()
    ensures Run(Machine([], false), ["1", "2", "/"]) == Done(Machine([0.5], true))
  {
    Numerals();
    PushWhole(Machine([], false), 1);
    PushWhole(Machine([1.0], false), 2);
  }

  lemma ShowHalf()
    ensures Conclude(Done(Machine([0.5], true))) == Evaluated(".5 ", true)
  {
    RenderSnoc([0.5], true);
    assert [0.5][..0] == [];
    assert RoundHalfEven(0.5 * 1000.0) == 500;
    assert FractionDigits(500) == "5";
  }

  lemma Half()
    ensures Evaluate("", "1 2 /", false) == Evaluated(".5 ", true)
  {
    LineHalf();
    FoldHalf();
    ShowHalf();
  }

  // The keystroke example: 2, space, 3, space, +, Enter shows 5; then
  // 4, space, *, Enter shows 20.

  lemma TypeFirstLine()
    ensures Session(Initial, [Type("2"), Type(" "), Type("3"), Type(" "), Type("+")])
         == ViewModel("", "2 3 +", false)
  {
  }

  lemma TypeSecondLine()
    ensures Session(ViewModel("5 ", "", false), [Type("4"), Type(" "), Type("*")])
         == ViewModel("5 ", "4 *", false)
  {
  }

  lemma PressEnter()
    ensures Session(ViewModel("", "2 3 +", false), [Enter]) == ViewModel("5 ", "", false)
    ensures Session(ViewModel("5 ", "4 *", false), [Enter]) == ViewModel("20 ", "", false)
  {
    TestEvaluateOnce();
    TestEvaluateTwice();
  }

  lemma KeystrokeExample()
    ensures Session(Initial, [Type("2"), Type(" "), Type("3"), Type(" "), Type("+"), Enter,
                              Type("4"), Type(" "), Type("*"), Enter])
         == ViewModel("20 ", "", false)
  {
    var first := [Type("2"), Type(" "), Type("3"), Type(" "), Type("+")];
    var second := [Type("4"), Type(" "), Type("*")];
    assert [Type("2"), Type(" "), Type("3"), Type(" "), Type("+"), Enter, Type("4"), Type(" "), Type("*"), Enter]
        == first + ([Enter] + (second + [Enter]));
    SessionAppend(Initial, first, [Enter] + (second + [Enter]));
    TypeFirstLine();
    SessionAppend(ViewModel("", "2 3 +", false), [Enter], second + [Enter]);
    PressEnter();
    SessionAppend(ViewModel("5 ", "", false), second, [Enter]);
    TypeSecondLine();
  }
}
