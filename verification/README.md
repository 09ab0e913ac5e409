# SnapMobile RPN calculator: the evaluation engine in Dafny

The model covers the Android RPN calculator's view model, `SnapMobileRPNCalculatorViewModel`. It holds three pieces of state:

- `historicalEntry` is the line of rendered results.
- `currentEntry` is the line being typed.
- `showDecimal` is a sticky flag that picks the number pattern.

The keypad drives five operations: append a key, backspace, clear the entry, clear the history, and Enter. Enter runs the private `evaluate` in five steps:

1. Trim and collapse the whitespace of the typed line.
2. Glue that line to the history, with no separator.
3. Split the result on single spaces.
4. Fold the tokens over an operand stack. `+ - * /` pop `second`, then `first`, and push `first OP second`. Any other token is read as a number and pushed.
5. Write the stack back, bottom to top, each element formatted with `DecimalFormat("#")` or `DecimalFormat("#.0##")` and followed by one space.

Files, one module each:

- `wrappers.dfy` (`Wrappers`): `Option`.
- `text.dfy` (`Text`) has the string steps of `evaluate`:
  - Kotlin `trimEnd()`;
  - the `\s+` to `" "` replacement, measured against the line's words (its maximal runs of non-`\s` characters);
  - `split(" ")`, which keeps empty pieces;
  - the space-terminated writing of the stack, with their inverses.
- `numbers.dfy` (`Numbers`) has the number steps:
  - `String.toDouble()`, restricted to an optional sign, digits and at most one decimal point;
  - the two `DecimalFormat` patterns, with their default HALF_EVEN rounding, written out on exact reals;
  - the round trip from a rendered number back to its rounded value.
- `rpn.dfy` (`Rpn`) has the token fold:
  - `Step` is one pass of the `for` loop;
  - `Run` is the loop itself;
  - lemmas on stack discipline, error causes and the flag.
- `calculator.dfy` (`Calculator`) has the state record `ViewModel` and the five operations. It also has `Evaluate`, both as a function and as the two loops the source uses (`EvaluateLoops`). Its lemmas cover incremental evaluation and session invariants.
- `examples.dfy` (`Examples`) has the view model's unit tests, the keystroke example, the error paths and a fraction, all on concrete strings.

Modelling decisions:

- **Numbers.** Numbers are Dafny `real`, not IEEE doubles. The remainder test `first % second != 0` becomes "`first / second` is not a whole number".
- **Failures.** Each of the source's failure points becomes an `EvalError`:
  - a pop on a stack with fewer than two operands is `UnevenNotation`;
  - a token that is neither an operator nor a number is `InvalidCharacter`;
  - a division by zero is `DivideByZero`.
- **Division by zero.** The Kotlin code divides doubles, so a zero divisor gives Infinity or NaN rather than an exception. The screen's error handling (`app/src/main/java/com/snapmobile/snapmobilerpncalculator/SnapMobileRPNCalculatorScreen.kt:57`) expects a division-by-zero error, and the model raises one. It checks the divisor before the flag update of line 66.
- **What a failure keeps.** A failure leaves the history and the typed line as they were. The history is written only as `evaluate`'s last act, and the entry is cleared only after `evaluate` returns. The flag, however, keeps any raise made by tokens before the failure, e.g. `"-3 +"`.
- **Trailing space.** The rendered history ends in a space (line 86). The source's unit tests expect `"5"`, `"20"`, `"6"` and `"-3.0"` without it. The example lemmas state the strings the code produces: `"5 "`, `"20 "`, `"6 "`, `"-3.0 "`. That trailing space is also what separates the old history from the next entry.
- **Blank Enter.** Enter with nothing typed fails. `"".split(" ")` is `[""]`, and a history `"5 "` splits into `["5", ""]`. The empty token cannot be read as a number. This holds in every reachable state (`Calculator.BlankEnterAlwaysFails`).
- **Incremental evaluation.** Two Enters agree with one Enter on the joined line only when the stack left by the first is *stable*: every element is shown exactly, and none is negative while the flag is down. Otherwise re-reading the history can differ. `"2 3 -"` then `"4 +"` shows `3.0`, because the re-read `-1` raises the flag. `"2 3 - 4 +"` in one go shows `3` (`Examples.TwoPartsDiffer`).
- **Decimal separator.** The model assumes a locale whose decimal separator is `.`.

## Model

| member | source | states |
|---|---|---|
| Text.TrimEnd | app/src/main/java/com/snapmobile/snapmobilerpncalculator/SnapMobileRPNCalculatorViewModel.kt:42 | `trimEnd()`: the result is a prefix of the input, does not end in whitespace, and everything dropped is whitespace |
| Text.CollapseSpaces | app/src/main/java/com/snapmobile/snapmobilerpncalculator/SnapMobileRPNCalculatorViewModel.kt:42 | the `\s+` replacement: no `\s` but the plain space is left, no two spaces in a row, the non-`\s` characters are kept in order, the result is empty iff the input is, starts with a space iff the input starts with `\s`, and keeps a non-`\s` last character (where the words end up is `Text.CollapseWords`) |
| Text.CollapseWords | app/src/main/java/com/snapmobile/snapmobilerpncalculator/SnapMobileRPNCalculatorViewModel.kt:42 | on a line that ends in a word, the replacement leaves exactly the line's words (its maximal runs of non-`\s` characters, `Text.Words`) in order, joined by single spaces, after one space when the line starts with `\s` |
| Text.Normalize | app/src/main/java/com/snapmobile/snapmobilerpncalculator/SnapMobileRPNCalculatorViewModel.kt:42 | the typed line as appended: in normal form (no trailing whitespace, single plain spaces), with exactly the non-`\s` characters of the trimmed line |
| Text.NormalizeWords | app/src/main/java/com/snapmobile/snapmobilerpncalculator/SnapMobileRPNCalculatorViewModel.kt:42-43 | the pieces `split(" ")` makes of the normalised entry are the words of the trimmed entry, in order, after one empty piece when it starts with `\s`; a blank entry gives the single empty piece |
| Text.NormalizeFixes | app/src/main/java/com/snapmobile/snapmobilerpncalculator/SnapMobileRPNCalculatorViewModel.kt:42 | normalising a line already in normal form changes nothing |
| Text.Split | app/src/main/java/com/snapmobile/snapmobilerpncalculator/SnapMobileRPNCalculatorViewModel.kt:43 | `split(" ")`: at least one piece, no piece holds a space, and joining the pieces with single spaces gives the input back |
| Text.SplitJoin | app/src/main/java/com/snapmobile/snapmobilerpncalculator/SnapMobileRPNCalculatorViewModel.kt:43 | splitting undoes joining for any nonempty list of space-free words |
| Text.SplitPrefix | app/src/main/java/com/snapmobile/snapmobilerpncalculator/SnapMobileRPNCalculatorViewModel.kt:43 | a space-free word followed by a space splits off as the first piece |
| Text.SplitTrailingEmpty | app/src/main/java/com/snapmobile/snapmobilerpncalculator/SnapMobileRPNCalculatorViewModel.kt:43 | an empty string, or one ending in a space, splits with an empty last piece |
| Text.SplitTerminated | app/src/main/java/com/snapmobile/snapmobilerpncalculator/SnapMobileRPNCalculatorViewModel.kt:84-87 | space-terminated words followed by more text split back into exactly those words, then the pieces of that text |
| Numbers.ParseNumber | app/src/main/java/com/snapmobile/snapmobilerpncalculator/SnapMobileRPNCalculatorViewModel.kt:73-75 | `toDouble()` on keypad strings: a number is not empty, a lone non-digit character is never a number, a negative value needs a leading `-`, and a leading `-` never gives a positive value |
| Numbers.NumberSyntaxIff | app/src/main/java/com/snapmobile/snapmobilerpncalculator/SnapMobileRPNCalculatorViewModel.kt:73-75 | a string reads as a number iff it is an optional leading `+` or `-`, then only digits and `.`, at most one `.`, at least one digit |
| Numbers.UnsignedSyntaxIff | app/src/main/java/com/snapmobile/snapmobilerpncalculator/SnapMobileRPNCalculatorViewModel.kt:73-75 | the same without the sign: digits and at most one `.`, at least one digit, is exactly what the unsigned reader accepts |
| Numbers.ParseSignedDigits | app/src/main/java/com/snapmobile/snapmobilerpncalculator/SnapMobileRPNCalculatorViewModel.kt:73-75 | a sign (none, `+` or `-`) and a nonempty run of digits read as the digits' value, negated after `-` |
| Numbers.ParseSignedDecimal | app/src/main/java/com/snapmobile/snapmobilerpncalculator/SnapMobileRPNCalculatorViewModel.kt:73-75 | a sign, digits, `.` and digits, with a digit on at least one side, read as the whole part plus the fraction digits over their power of ten, negated after `-` |
| Numbers.NumberHasNoSpace | app/src/main/java/com/snapmobile/snapmobilerpncalculator/SnapMobileRPNCalculatorViewModel.kt:73-75 | a string that reads as a number holds no space, so it survives `split(" ")` as one piece |
| Numbers.ParseIntToString | app/src/main/java/com/snapmobile/snapmobilerpncalculator/SnapMobileRPNCalculatorViewModel.kt:75 | every whole number written in decimal, with or without a `+`, reads back as itself |
| Numbers.RoundHalfEven | app/src/main/java/com/snapmobile/snapmobilerpncalculator/SnapMobileRPNCalculatorViewModel.kt:79-83 | DecimalFormat's default rounding: within one half of the input, ties go to the even neighbour, whole numbers are exact |
| Numbers.FractionDigits | app/src/main/java/com/snapmobile/snapmobilerpncalculator/SnapMobileRPNCalculatorViewModel.kt:80 | the fraction part of `#.0##`: one to three digits, and the last is not `0` when there is more than one |
| Numbers.FractionDigitsValue | app/src/main/java/com/snapmobile/snapmobilerpncalculator/SnapMobileRPNCalculatorViewModel.kt:80 | those digits, padded back to three, spell the thousandths they came from |
| Numbers.ParseFormat | app/src/main/java/com/snapmobile/snapmobilerpncalculator/SnapMobileRPNCalculatorViewModel.kt:79-86 | every rendered element reads back as its value rounded to the pattern in force (whole number, or thousandths) |
| Numbers.FormatWholeInteger | app/src/main/java/com/snapmobile/snapmobilerpncalculator/SnapMobileRPNCalculatorViewModel.kt:82 | under `#` a whole number shows as its plain decimal digits |
| Numbers.FormatFractionInteger | app/src/main/java/com/snapmobile/snapmobilerpncalculator/SnapMobileRPNCalculatorViewModel.kt:80 | under `#.0##` a nonzero whole number shows as its digits and `.0`, and zero as `.0` |
| Numbers.RoundedInteger | app/src/main/java/com/snapmobile/snapmobilerpncalculator/SnapMobileRPNCalculatorViewModel.kt:79-83 | whole numbers are shown exactly under both patterns |
| Numbers.FormatWholeShape | app/src/main/java/com/snapmobile/snapmobilerpncalculator/SnapMobileRPNCalculatorViewModel.kt:82 | `#` writes a `-` exactly for a negative value, then the decimal digits, without a leading zero, of the magnitude of the nearest whole number |
| Numbers.FormatFractionShape | app/src/main/java/com/snapmobile/snapmobilerpncalculator/SnapMobileRPNCalculatorViewModel.kt:80 | `#.0##` writes a `-` exactly for a negative value; then integer digits spelling the rounded thousandths over 1000, without a leading zero and absent iff the magnitude rounds below one; then `.`; then the fraction digits of the rounded thousandths |
| Rpn.Step | app/src/main/java/com/snapmobile/snapmobilerpncalculator/SnapMobileRPNCalculatorViewModel.kt:47-76 | one token: an operator fails with UnevenNotation iff fewer than two operands, otherwise pops two and pushes `first OP second` with the rest of the stack unchanged; DivideByZero iff `/` meets a zero top; a non-operator fails with InvalidCharacter iff it is not a number, otherwise its value is pushed; the flag never falls and a failure keeps it |
| Rpn.Apply | app/src/main/java/com/snapmobile/snapmobilerpncalculator/SnapMobileRPNCalculatorViewModel.kt:48-69 | `first OP second`: subtracting `second` undoes `+`, adding it undoes `-`, a product is zero iff a factor is, dividing by a nonzero `second` undoes `*`, and multiplying by `second` undoes `/` |
| Rpn.StepRaisesFlag | app/src/main/java/com/snapmobile/snapmobilerpncalculator/SnapMobileRPNCalculatorViewModel.kt:66-74 | a lowered flag rises on a step exactly for a negative operand or a division whose quotient is not whole |
| Rpn.Run | app/src/main/java/com/snapmobile/snapmobilerpncalculator/SnapMobileRPNCalculatorViewModel.kt:46-78 | the loop over all tokens, stopping at the first failure; the flag never falls |
| Rpn.RunAppend | app/src/main/java/com/snapmobile/snapmobilerpncalculator/SnapMobileRPNCalculatorViewModel.kt:46-78 | folding `a + b` is folding `a`, then `b` from where it stopped |
| Rpn.OperatorIsNotNumber | app/src/main/java/com/snapmobile/snapmobilerpncalculator/SnapMobileRPNCalculatorViewModel.kt:13 | no operator key reads as a number |
| Rpn.RunSucceeds | app/src/main/java/com/snapmobile/snapmobilerpncalculator/SnapMobileRPNCalculatorViewModel.kt:46-78 | a fold that goes through saw only operators and numbers, never let an operator run short, and ends one element higher per number and one lower per operator |
| Rpn.RunWellFormed | app/src/main/java/com/snapmobile/snapmobilerpncalculator/SnapMobileRPNCalculatorViewModel.kt:46-78 | conversely, operators and numbers that never run short can fail only by DivideByZero |
| Rpn.RunErrorCause | app/src/main/java/com/snapmobile/snapmobilerpncalculator/SnapMobileRPNCalculatorViewModel.kt:46-78 | InvalidCharacter means some token is neither operator nor number; UnevenNotation means some operator runs short; DivideByZero means a `/` is present |
| Rpn.InvalidCharacterCause | app/src/main/java/com/snapmobile/snapmobilerpncalculator/SnapMobileRPNCalculatorViewModel.kt:71-76 | a fold that stops with InvalidCharacter met a token that is neither an operator nor a number |
| Rpn.UnevenNotationCause | app/src/main/java/com/snapmobile/snapmobilerpncalculator/SnapMobileRPNCalculatorViewModel.kt:47-65 | a fold that stops with UnevenNotation met an operator with fewer than two operands below it |
| Rpn.DivideByZeroCause | app/src/main/java/com/snapmobile/snapmobilerpncalculator/SnapMobileRPNCalculatorViewModel.kt:63-69 | a fold that stops with DivideByZero contains a `/` |
| Rpn.StepNumber | app/src/main/java/com/snapmobile/snapmobilerpncalculator/SnapMobileRPNCalculatorViewModel.kt:71-76 | a token that reads as a number is pushed, and raises the flag iff it is negative |
| Rpn.RunWithoutDivision | app/src/main/java/com/snapmobile/snapmobilerpncalculator/SnapMobileRPNCalculatorViewModel.kt:46-78 | without `/`, the fold goes through iff the tokens are operators and numbers and no operator runs short |
| Rpn.RunLeavesOperand | app/src/main/java/com/snapmobile/snapmobilerpncalculator/SnapMobileRPNCalculatorViewModel.kt:46-78 | a fold over at least one token that goes through leaves at least one element |
| Rpn.RunNumbers | app/src/main/java/com/snapmobile/snapmobilerpncalculator/SnapMobileRPNCalculatorViewModel.kt:71-76 | number tokens are pushed in order, and the flag ends up raised iff it was up or one of them is negative |
| Rpn.RunStopsAtEmptyToken | app/src/main/java/com/snapmobile/snapmobilerpncalculator/SnapMobileRPNCalculatorViewModel.kt:71-76 | after number tokens, an empty token stops the fold with InvalidCharacter |
| Rpn.EmptyTokenFails | app/src/main/java/com/snapmobile/snapmobilerpncalculator/SnapMobileRPNCalculatorViewModel.kt:71-76 | a token list holding an empty token never folds through |
| Rpn.FlagStaysDown | app/src/main/java/com/snapmobile/snapmobilerpncalculator/SnapMobileRPNCalculatorViewModel.kt:66-74 | without `/` and without a negative operand a lowered flag stays down |
| Rpn.NegativeOperandRaisesFlag | app/src/main/java/com/snapmobile/snapmobilerpncalculator/SnapMobileRPNCalculatorViewModel.kt:72-74 | a negative operand anywhere in a fold that goes through leaves the flag up |
| Rpn.BinaryOperation | app/src/main/java/com/snapmobile/snapmobilerpncalculator/SnapMobileRPNCalculatorViewModel.kt:48-70 | two numbers and an operator from an empty stack leave exactly `[first OP second]`, with the flag raised iff it was up, an operand is negative, or a division is not whole |
| Calculator.UpdateCurrentEntry | app/src/main/java/com/snapmobile/snapmobilerpncalculator/SnapMobileRPNCalculatorViewModel.kt:18-20 | the new entry is the old one followed by exactly the key's text; history and flag unchanged |
| Calculator.Backspace | app/src/main/java/com/snapmobile/snapmobilerpncalculator/SnapMobileRPNCalculatorViewModel.kt:37-39 | `dropLast(1)`: nothing happens on an empty entry, otherwise the entry loses exactly its last character; history and flag unchanged |
| Calculator.BackspaceUndoesKey | app/src/main/java/com/snapmobile/snapmobilerpncalculator/SnapMobileRPNCalculatorViewModel.kt:18-39 | typing a character and deleting it restores the calculator |
| Calculator.ClearCurrentEntry | app/src/main/java/com/snapmobile/snapmobilerpncalculator/SnapMobileRPNCalculatorViewModel.kt:27-30 | empties the entry and lowers the flag; the history stays |
| Calculator.ClearHistoricalEntry | app/src/main/java/com/snapmobile/snapmobilerpncalculator/SnapMobileRPNCalculatorViewModel.kt:32-35 | empties the history and lowers the flag; the entry stays |
| Calculator.Tokenize | app/src/main/java/com/snapmobile/snapmobilerpncalculator/SnapMobileRPNCalculatorViewModel.kt:42-43 | at least one piece, no piece holds a space, and the pieces joined back give the history followed directly by the normalised entry |
| Calculator.Render | app/src/main/java/com/snapmobile/snapmobilerpncalculator/SnapMobileRPNCalculatorViewModel.kt:84-88 | the history is empty iff the stack is, and otherwise ends in a space |
| Calculator.RenderSnoc | app/src/main/java/com/snapmobile/snapmobilerpncalculator/SnapMobileRPNCalculatorViewModel.kt:84-87 | the history is the rendering of all but the top, then the top formatted and a space |
| Calculator.Evaluate | app/src/main/java/com/snapmobile/snapmobilerpncalculator/SnapMobileRPNCalculatorViewModel.kt:41-89 | a successful evaluation writes a nonempty history ending in a space; a raised flag stays raised on success and failure |
| Calculator.UpdateHistoricalEntry | app/src/main/java/com/snapmobile/snapmobilerpncalculator/SnapMobileRPNCalculatorViewModel.kt:22-25 | on failure history and entry are unchanged; on success the entry is empty and the history nonempty and space-terminated; the flag never falls |
| Calculator.EnterReadsBack | app/src/main/java/com/snapmobile/snapmobilerpncalculator/SnapMobileRPNCalculatorViewModel.kt:22-88 | Enter succeeds iff the fold goes through; the new history then splits into one piece per element of the final stack, each reading back as that element rounded to the final pattern, and an empty last piece, with the entry cleared and the final flag kept; a failure keeps both lines and reports the fold's error and flag |
| Calculator.FormatsAreNumbers | app/src/main/java/com/snapmobile/snapmobilerpncalculator/SnapMobileRPNCalculatorViewModel.kt:79-86 | no rendered element holds a space, and each reads back as its rounded value |
| Calculator.SplitRender | app/src/main/java/com/snapmobile/snapmobilerpncalculator/SnapMobileRPNCalculatorViewModel.kt:84-88 | a rendered history followed by the next entry splits into the rendered elements, then that entry's pieces |
| Calculator.ReadBack | app/src/main/java/com/snapmobile/snapmobilerpncalculator/SnapMobileRPNCalculatorViewModel.kt:84-88 | a rendered stack splits into one more piece than the stack has elements, the last empty, each other reading back as its element rounded |
| Calculator.RereadHistory | app/src/main/java/com/snapmobile/snapmobilerpncalculator/SnapMobileRPNCalculatorViewModel.kt:42-88 | re-reading a rendered history rebuilds the stack as shown (each element rounded) and raises the flag iff a shown element is negative |
| Calculator.IncrementalEvaluation | app/src/main/java/com/snapmobile/snapmobilerpncalculator/SnapMobileRPNCalculatorViewModel.kt:41-88 | Enter on a rendered history is the fold of the new entry over the re-read stack |
| Calculator.StableIncrementalEvaluation | app/src/main/java/com/snapmobile/snapmobilerpncalculator/SnapMobileRPNCalculatorViewModel.kt:41-88 | on a stable stack, Enter on its rendering is the fold of the new entry over the stack itself |
| Calculator.EnterTwice | app/src/main/java/com/snapmobile/snapmobilerpncalculator/SnapMobileRPNCalculatorViewModel.kt:22-25 | two Enters give the fold over both token lists when the first leaves a stable stack |
| Calculator.RenderIsHistoryOfNumbers | app/src/main/java/com/snapmobile/snapmobilerpncalculator/SnapMobileRPNCalculatorViewModel.kt:84-88 | a rendered history splits into numbers and one empty last piece |
| Calculator.EnterWithBlankEntryFails | app/src/main/java/com/snapmobile/snapmobilerpncalculator/SnapMobileRPNCalculatorViewModel.kt:42-43 | on such a history, Enter with only whitespace typed fails with InvalidCharacter and changes neither line |
| Calculator.HistoryStopsAtLastToken | app/src/main/java/com/snapmobile/snapmobilerpncalculator/SnapMobileRPNCalculatorViewModel.kt:42-43 | such a history folded on its own fails at its empty last piece |
| Calculator.FlagFallsOnlyOnClear | app/src/main/java/com/snapmobile/snapmobilerpncalculator/SnapMobileRPNCalculatorViewModel.kt:16-35 | only the two clear operations lower the flag |
| Calculator.FlagStaysUp | app/src/main/java/com/snapmobile/snapmobilerpncalculator/SnapMobileRPNCalculatorViewModel.kt:16-35 | a raised flag survives any run of operations without a clear |
| Calculator.PerformKeepsHistoryOfNumbers | app/src/main/java/com/snapmobile/snapmobilerpncalculator/SnapMobileRPNCalculatorViewModel.kt:22-88 | every operation keeps the history one that `evaluate` could have written |
| Calculator.SessionKeepsHistoryOfNumbers | app/src/main/java/com/snapmobile/snapmobilerpncalculator/SnapMobileRPNCalculatorViewModel.kt:22-88 | so does every sequence of operations |
| Calculator.BlankEnterAlwaysFails | app/src/main/java/com/snapmobile/snapmobilerpncalculator/SnapMobileRPNCalculatorViewModel.kt:22-43 | from a fresh calculator, Enter with nothing typed fails with InvalidCharacter at any point of any session |
| Calculator.FoldLoop | app/src/main/java/com/snapmobile/snapmobilerpncalculator/SnapMobileRPNCalculatorViewModel.kt:44-78 | the loop as written, on a mutable stack with early exits, computes `Run` from an empty stack |
| Calculator.RenderLoop | app/src/main/java/com/snapmobile/snapmobilerpncalculator/SnapMobileRPNCalculatorViewModel.kt:84-87 | the string-building loop computes `Render` |
| Calculator.EvaluateLoops | app/src/main/java/com/snapmobile/snapmobilerpncalculator/SnapMobileRPNCalculatorViewModel.kt:41-89 | the two loops together compute `Evaluate` |
| Examples.TestEvaluateOnce | app/src/test/java/com/snapmobile/snapmobilerpncalculator/SnapMobileRPNCalculatorViewModelTests.kt:26-29 | `"2 3 +"` gives `"5 "` |
| Examples.EvaluateSpaced | app/src/main/java/com/snapmobile/snapmobilerpncalculator/SnapMobileRPNCalculatorViewModel.kt:42-43 | a doubled and a trailing space change nothing: `"2  3 + "` tokenises as `2`, `3`, `+` and gives `"5 "` |
| Examples.TestEvaluateTwice | app/src/test/java/com/snapmobile/snapmobilerpncalculator/SnapMobileRPNCalculatorViewModelTests.kt:31-36 | then `"4 *"` gives `"20 "` |
| Examples.TestEvaluateThriceFirst | app/src/test/java/com/snapmobile/snapmobilerpncalculator/SnapMobileRPNCalculatorViewModelTests.kt:38-44 | `"2"` gives `"2 "` |
| Examples.TestEvaluateThriceSecond | app/src/test/java/com/snapmobile/snapmobilerpncalculator/SnapMobileRPNCalculatorViewModelTests.kt:38-44 | then `"3"` gives `"2 3 "` |
| Examples.TestEvaluateThriceThird | app/src/test/java/com/snapmobile/snapmobilerpncalculator/SnapMobileRPNCalculatorViewModelTests.kt:38-44 | then `"*"` gives `"6 "` |
| Examples.TestEvaluateDecimal | app/src/test/java/com/snapmobile/snapmobilerpncalculator/SnapMobileRPNCalculatorViewModelTests.kt:46-50 | `"-3"` gives `"-3.0 "` and raises the flag |
| Examples.TwoPartsDiffer | app/src/main/java/com/snapmobile/snapmobilerpncalculator/SnapMobileRPNCalculatorViewModel.kt:72-74 | `"2 3 -"` then `"4 +"` shows `"3.0 "`, while `"2 3 - 4 +"` at once shows `"3 "` |
| Examples.Errors | app/src/main/java/com/snapmobile/snapmobilerpncalculator/SnapMobileRPNCalculatorViewModel.kt:46-76 | `"3 +"` fails with UnevenNotation, `"1 0 /"` with DivideByZero, `"3 x +"` and a blank entry with InvalidCharacter, and `"-3 +"` fails with the flag already up |
| Examples.Half | app/src/main/java/com/snapmobile/snapmobilerpncalculator/SnapMobileRPNCalculatorViewModel.kt:63-70 | `"1 2 /"` raises the flag and shows `".5 "`, with no digit before the point |
| Examples.KeystrokeExample | app/src/main/java/com/snapmobile/snapmobilerpncalculator/SnapMobileRPNCalculatorViewModel.kt:18-25 | 2, space, 3, space, +, Enter, 4, space, *, Enter leaves `"20 "` in the history and an empty entry |

## Left out

- **IEEE-754 doubles.** The model does not cover binary rounding of sums, products and quotients, Infinity and NaN, or `-0.0`. Numbers are exact reals.
  The visible case of `-0.0`: typing `"-0"` shows `"-0 "` in the app, because `toDouble()` gives `-0.0`, the flag stays down (`-0.0 < 0` is false) and `#` writes the sign. The model shows `"0 "`. Likewise `"0 -5 *"` shows `"-.0 "` in the app and `".0 "` in the model.
- **Division by zero.** It is an explicit error rather than the Infinity or NaN the Kotlin code computes. The flag update of line 66 is not made for a zero divisor.
- **`DecimalFormat` beyond the two patterns.** Locale-specific separators, grouping, and rendering of Infinity and NaN are not modelled. The two patterns are written out for a `.` decimal separator.
- Numbers.ParseNumber: accepts only an optional sign, digits and at most one `.`. `Double.parseDouble` also reads exponents, `NaN`, `Infinity`, hexadecimal forms, `d`/`f` suffixes and surrounding control characters. The keypad cannot type any of these, but `NaN` and `∞` can reach the history by two routes. The first is a zero divisor: `"0 0 /"` pushes NaN at line 69. The second is a value that overflows `Double.MAX_VALUE`: a typed number of 310 or more digits at line 73/75, a product at line 61, or a quotient by a small nonzero divisor at line 69; a single line can then turn two infinities into NaN. Line 86 writes `NaN` or `∞`, and on the next Enter `toDouble()` reads `NaN` back and throws on `∞`. The model has neither route: zero divisors are DivideByZero (see "Division by zero"), and exact reals do not overflow (see "IEEE-754 doubles").
- **The errors' delivery to the screen.** The snackbar, the `evaluateError` flow and `clearEvaluateError` are not modelled. The shown view model has none of them. An evaluation failure is returned as a value next to the new state, instead of an exception escaping `updateHistoricalEntry`.
- **`mutableStateOf` observation and recomposition.** The fields are plain record fields.
- Calculator.Backspace: removes one Dafny `char`, a Unicode scalar value. Kotlin's `dropLast(1)` removes one UTF-16 code unit, so on a character outside the Basic Multilingual Plane it would leave half a surrogate pair. The keypad only appends digits, operators and spaces (`app/src/main/java/com/snapmobile/snapmobilerpncalculator/SnapMobileRPNCalculatorScreen.kt:133-163`), all ASCII, where the two agree.
- **Coroutines.** The coroutine that runs Enter, and Compose UI in general, are not modelled. Operations are applied one at a time (`Calculator.Session`).
- **Activity, application class, theme and Hilt injection.** They contain no logic.
- **The JUnit harness.** The four tests call the private `evaluate` directly (app/src/main/java/com/snapmobile/snapmobilerpncalculator/SnapMobileRPNCalculatorViewModel.kt:41; app/src/test/java/com/snapmobile/snapmobilerpncalculator/SnapMobileRPNCalculatorViewModelTests.kt:27, 33, 40, 48); a private member is not visible from the test class, so the test file does not compile as written. Here they are lemmas on `Calculator.Evaluate`, with the trailing space the code writes.
