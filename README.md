# FullFunctionalCalculator engine in Dafny

This project models the engine of `FullFunctionalCalculator`, a Swing calculator written in Java. The engine is five fields:
- the display text;
- the accumulator `currentValue`;
- the `memory` register;
- the pending binary operator `pendingOp`;
- the `startNewNumber` flag, which says that the next digit starts a new number.

The event handlers update those fields. The `actionPerformed` switch picks a handler from a button's label.

The model is in these files:

- `decimals.dfy` (module `Decimals`) models `java.math.BigDecimal` as an unscaled integer and a scale. It covers `add`, `subtract`, `negate`, `multiply`, `divide` to a scale with `RoundingMode.HALF_UP`, `setScale` with HALF_UP, `remainder` (which truncates toward zero) and `compareTo(ZERO)`. Their meanings are proved against the number each decimal stands for (a ghost `Value`).
- `text.dfy` (module `DecimalText`) models two things. `new BigDecimal(String)` on plain notation is `Parse`, with `None` for the NumberFormatException. `stripTrailingZeros` then `toPlainString` is `Normalize` and `Format`.
- `engine.dfy` (module `Engine`) holds the fields as one `State` record. Each handler is a function from the state before to the outcome after. An exception that escapes a handler is the `Escaped` outcome, and the fields keep their values. The switch is `Classify` (label to `Event`) followed by `Step` (event to handler).
- `properties.dfy` (module `EngineProperties`) proves the behaviour the handlers promise:
  - the invariant every button press keeps;
  - digit entry, the decimal point and backspace;
  - the scopes of C and AC, and the memory round trip;
  - operator chaining and "=";
  - the arithmetic of the operators and the unary keys.
- `scenarios.dfy` (module `Scenarios`) works through button sequences from start-up. Most take arbitrary digits or numbers of any length in place of fixed ones. A few fixed runs are worked to the text shown: 5 + 3 * 2 =, 4 1/x, 1 . 5 and 2 0 0 + 1 0 %.
- `calculator.dfy` (module `Calculator`) is the object itself. `FullFunctionalCalculator` is a class with the five fields, and its handler methods update them in place. Each method is proved to leave the fields as the matching `Engine` function says.

Math.sqrt and Math.pow work on doubles. They are a parameter, `FloatModel`: a pair of functions giving the decimal that `new BigDecimal(double)` reads back. `None` means the double is NaN or infinite, where that constructor throws.

## Model

| member | source | states |
|---|---|---|
| Decimals.AddValue | usingloops.java:240 | `a.add(b)` is exact: the value of the sum is the sum of the values |
| Decimals.SubValue | usingloops.java:241 | `a.subtract(b)` is exact: the value of the difference is the difference of the values |
| Decimals.NegValue | usingloops.java:193 | `x.negate()` has the opposite value |
| Decimals.MulValue | usingloops.java:242 | `a.multiply(b)` is exact: the value of the product is the product of the values |
| Decimals.CompareToZeroSign | usingloops.java:184 | `compareTo(ZERO)` is negative, zero or positive exactly when the value is |
| Decimals.DivideRounds | usingloops.java:243-245 | `a.divide(b, 12, HALF_UP)` with a non-zero divisor is the quotient rounded to 12 places: within half a unit in the last place, and at a tie the result lies farther from zero |
| Decimals.SetScaleRounds | usingloops.java:253 | `setScale(10, HALF_UP)` rounds the value half up to the given scale |
| Decimals.RemainderBounds | usingloops.java:249 | `a.remainder(b)` is smaller than `b` in magnitude, has the sign of `a`, and `a` minus it is a whole multiple of `b` |
| DecimalText.ParsePlain | usingloops.java:249 | reading back `toPlainString` gives the same decimal, scale included |
| DecimalText.DigitsRoundTrip | usingloops.java:131 | the digits written for a number read back as that number |
| DecimalText.NormalizeValue | usingloops.java:129 | `stripTrailingZeros` keeps the value |
| DecimalText.NormalizeByValue | usingloops.java:127-132 | decimals of equal value are shown as the same text, whatever their scales |
| DecimalText.WholeIffScaleZero | usingloops.java:129-130 | after stripping, the scale is zero exactly when the value is a whole number |
| DecimalText.FormatShape | usingloops.java:127-132 | `setDisplay` writes a non-empty plain number: digits, at most one '-' in front and at most one '.', no exponent. It reads back as the stripped decimal, with the same value. There is a '.' exactly when the value is not whole, and then the last digit is not '0' |
| EngineProperties.DisplayValue | usingloops.java:119-132 | `parseDisplay` after `setDisplay` gives back the value shown |
| EngineProperties.InitialInv | usingloops.java:23-27 | the fields at start-up satisfy the invariant: the display is "Error" with the flag set, or else a non-empty string of digits with at most one '.' and an optional leading '-' (a lone "-" or "-." included, which read as zero), and a pending operator is one of + - * / ^ |
| EngineProperties.AppendNumberInv | usingloops.java:134-144 | a digit keeps the invariant |
| EngineProperties.AppendDotInv | usingloops.java:146-153 | the point keeps the invariant, so the display never holds two '.' |
| EngineProperties.BackspaceInv | usingloops.java:167-177 | backspace keeps the invariant |
| EngineProperties.ClearInv | usingloops.java:155-165 | C and AC keep the invariant |
| EngineProperties.ApplyUnaryInv | usingloops.java:179-210 | every unary key keeps the invariant |
| EngineProperties.ApplyOpInv | usingloops.java:212-222 | a binary operator keeps the invariant |
| EngineProperties.DoEqualsInv | usingloops.java:224-236 | "=" keeps the invariant |
| EngineProperties.MemoryInv | usingloops.java:259-262 | the four memory keys keep the invariant |
| EngineProperties.ClassifyValid | usingloops.java:267-291 | the switch only sends digit labels to `appendNumber`, and only + - * / ^ to `applyOp` |
| EngineProperties.StepInv | usingloops.java:264-292 | every button press keeps the invariant |
| EngineProperties.RunInv | usingloops.java:264-292 | any sequence of presses keeps the invariant |
| EngineProperties.Reachable | usingloops.java:246-249 | from start-up, every sequence of presses leaves at most one '.' on the display and never leaves "%" pending, so the modulus branch of `compute` is never reached |
| EngineProperties.ZeroAfterZero | usingloops.java:139-142 | only a non-zero digit replaces a lone "0": a "0" typed there gives "00", which reads as zero |
| EngineProperties.AppendDotIdempotent | usingloops.java:146-153 | two points in a row do what one does |
| EngineProperties.BackspaceUndoesDigit | usingloops.java:134-177 | backspace after a digit appended to an open entry restores the state before it |
| EngineProperties.BackspaceUndoesDot | usingloops.java:146-177 | backspace after a point appended to an open entry restores the state before it |
| EngineProperties.BackspacesWhenFresh | usingloops.java:168 | backspace does nothing when a new number is due, however often it is pressed |
| EngineProperties.BackspacesClear | usingloops.java:167-177 | enough backspaces on an open entry end at display "0" with the flag set, and nothing else changes |
| EngineProperties.ClearScopes | usingloops.java:155-165 | C resets only the display and the flag. AC also zeroes the accumulator and drops the operator, and keeps the memory. AC after C is AC |
| EngineProperties.RunAsEvents | usingloops.java:264-292 | running button labels is running the events the switch selects for them |
| EngineProperties.MemorySteps | usingloops.java:259-273 | MC, M+, AC, MR leave the state that the four handlers in that order leave |
| EngineProperties.MemoryRoundTrip | usingloops.java:259-262 | after MC, M+, AC, MR, the display shows the number that was on it, and a new number is due |
| EngineProperties.StoredShows | usingloops.java:260-261 | zero plus a number is shown as that number |
| EngineProperties.TypedValue | usingloops.java:139-142 | what the display holds after typing digits spells the same number as the digits typed |
| EngineProperties.TypeDigits | usingloops.java:134-144 | digit buttons pressed into a fresh entry leave the digits on the display, a first "0" dropped before a non-zero digit, with the entry open and nothing else changed |
| EngineProperties.TypeFraction | usingloops.java:139-143 | on an open entry of two characters or more, each digit button appends its digit and nothing else changes |
| EngineProperties.TypeWhole | usingloops.java:119-144 | a whole number typed into a fresh entry reads back as the number its digits spell, at scale zero |
| EngineProperties.TypeDecimal | usingloops.java:119-153 | digits, the point and more digits typed into a fresh entry show them (starting from "0." when no digit precedes the point) and read back as the decimal they spell, with as many places as digits after the point |
| DecimalText.DigitsAppend | usingloops.java:121 | the digits a followed by the digits b spell a times ten to the length of b, plus b |
| EngineProperties.ComputeExact | usingloops.java:240-242 | `compute` with + - * gives exactly the sum, difference and product |
| EngineProperties.ComputeDivide | usingloops.java:243-245 | `compute` with "/" fails with ArithmeticException exactly when the divisor is zero; otherwise it is the quotient rounded half up at scale 12 |
| EngineProperties.ComputeModulus | usingloops.java:246-249 | `compute` with "%" fails with ArithmeticException exactly when the divisor is zero; otherwise it is the remainder, unchanged by the trip through its plain text |
| EngineProperties.DefaultUnreached | usingloops.java:238-255 | from start-up, every operator left pending is + - * / or ^, so the `default` branch of `compute`, which returns its second operand, is never taken |
| EngineProperties.OperatorTwice | usingloops.java:212-222 | two operators in a row act as the second alone; when the first throws, the second would throw the same exception |
| EngineProperties.EqualsThenOperator | usingloops.java:212-236 | after "=" shows a result, an operator continues from it: the display still shows it, the accumulator holds its value, the operator is pending and a new number is due |
| EngineProperties.OperatorChains | usingloops.java:216-221 | with an operator pending and a number typed, the new operator first applies the pending one and shows the result. If `compute` throws, the exception escapes and every field is unchanged |
| EngineProperties.EqualsResult | usingloops.java:224-236 | "=" does nothing with no operator pending. Otherwise it shows the result, or "Error" on ArithmeticException with the accumulator kept. Either way it clears the operator and sets the flag. The NumberFormatException of a non-finite power escapes |
| EngineProperties.EqualsDivideByZero | usingloops.java:224-244 | "=" on a division by zero shows "Error", keeps the accumulator, clears the operator and sets the flag |
| EngineProperties.ChainedDivideByZero | usingloops.java:216-244 | an operator after a division by zero throws out of `applyOp` and leaves every field unchanged |
| EngineProperties.UnaryKeepsFields | usingloops.java:179-210 | a unary key changes only the display, or shows "Error" and sets the flag |
| EngineProperties.UnaryLeavesFlag | usingloops.java:134-210 | a unary key never clears `startNewNumber` and only "Error" sets it, so when a new number is due the next digit replaces the unary key's result |
| EngineProperties.NegateExact | usingloops.java:192-194 | +/- never fails and changes only the display, which is the text `setDisplay` writes for `x.negate()` and reads back as the negated value |
| EngineProperties.ReciprocalRounds | usingloops.java:190 | `ONE.divide(x, 12, HALF_UP)` is 1/x rounded half up to 12 places |
| EngineProperties.Reciprocal | usingloops.java:188-208 | 1/x of zero shows "Error" and sets the flag. Otherwise it changes only the display, which is exactly the text `setDisplay` writes for `ONE.divide(x, 12, HALF_UP)` and reads back as 1/x rounded half up to 12 places |
| EngineProperties.PercentRounds | usingloops.java:197 | the percentage is x/100 rounded half up to 12 places |
| EngineProperties.Percent | usingloops.java:195-204 | % changes only the display, which is the text `setDisplay` writes for the percentage times the accumulator when an operator is pending, and for the percentage alone otherwise; it reads back as that value |
| EngineProperties.SqrtNegative | usingloops.java:184-208 | sqrt of a negative number shows "Error" and sets the flag |
| Scenarios.LeftToRight | usingloops.java:212-236 | a + b * c = computes (a + b) * c, left to right without precedence, and shows it |
| Scenarios.FivePlusThreeTimesTwo | usingloops.java:212-236 | 5 + 3 * 2 = shows "16" |
| Scenarios.RepeatOperand | usingloops.java:224-229 | a + = takes the shown a as the second operand too, giving a + a |
| Scenarios.DivideByZeroAtEquals | usingloops.java:224-244 | a / 0 = shows "Error", keeps a in the accumulator and clears the operator |
| Scenarios.PercentOfAccumulator | usingloops.java:195-200 | a + b % shows a times b/100 and leaves + pending with the entry open |
| Scenarios.TypedPercent | usingloops.java:195-200 | a + b % with numbers of any length shows a times b/100 and leaves a in the accumulator with + pending and the entry open |
| Scenarios.TwoHundredPlusTenPercent | usingloops.java:195-200 | 2 0 0 + 1 0 % shows "20" |
| Scenarios.Twenty | usingloops.java:127-132 | ten per cent of two hundred is written as "20" |
| Scenarios.OnePointFive | usingloops.java:119-153 | 1 . 5 shows "1.5", which reads back as fifteen tenths |
| Scenarios.ReciprocalOfFour | usingloops.java:127-190 | 4 then 1/x shows "0.25" |
| Scenarios.DigitAfterSign | usingloops.java:142-194 | after a digit, +/- leaves the entry open, so a second digit extends the negated number |
| Scenarios.BackspaceLeavesSign | usingloops.java:119-174 | backspace after +/- on one digit leaves a lone "-", which reads as zero |
| Calculator.FullFunctionalCalculator.constructor | usingloops.java:23-27 | the fields start at display "0", zero, zero, nothing pending and a new number due |
| Calculator.FullFunctionalCalculator.SetDisplay | usingloops.java:127-132 | only the display changes, to the normal form of the value, and the object's invariant is kept |
| Calculator.FullFunctionalCalculator.AppendNumber | usingloops.java:134-144 | leaves the fields as `Engine.AppendNumber` says, and keeps the object's invariant |
| Calculator.FullFunctionalCalculator.AppendDot | usingloops.java:146-153 | leaves the fields as `Engine.AppendDot` says, and keeps the object's invariant |
| Calculator.FullFunctionalCalculator.ClearEntry | usingloops.java:155-158 | leaves the fields as `Engine.ClearEntry` says, and keeps the object's invariant |
| Calculator.FullFunctionalCalculator.AllClear | usingloops.java:160-165 | leaves the fields as `Engine.AllClear` says, and keeps the object's invariant |
| Calculator.FullFunctionalCalculator.Backspace | usingloops.java:167-177 | leaves the fields as `Engine.Backspace` says, and keeps the object's invariant |
| Calculator.FullFunctionalCalculator.ApplyUnary | usingloops.java:179-210 | leaves the fields as `Engine.ApplyUnary` says, reports the exception that escapes, and keeps the object's invariant |
| Calculator.FullFunctionalCalculator.ApplyOp | usingloops.java:212-222 | leaves the fields as `Engine.ApplyOp` says. It reports an exception from `compute`, which leaves the fields untouched, and keeps the object's invariant for the operators the switch passes |
| Calculator.FullFunctionalCalculator.DoEquals | usingloops.java:224-236 | leaves the fields as `Engine.DoEquals` says, reports the exception that escapes, and keeps the object's invariant |
| Calculator.FullFunctionalCalculator.MemoryClear | usingloops.java:259 | leaves the fields as `Engine.MemoryClear` says, and keeps the object's invariant |
| Calculator.FullFunctionalCalculator.MemoryRecall | usingloops.java:260 | leaves the fields as `Engine.MemoryRecall` says, and keeps the object's invariant |
| Calculator.FullFunctionalCalculator.MemoryAdd | usingloops.java:261 | leaves the fields as `Engine.MemoryAdd` says, and keeps the object's invariant |
| Calculator.FullFunctionalCalculator.MemorySubtract | usingloops.java:262 | leaves the fields as `Engine.MemorySubtract` says, and keeps the object's invariant |
| Calculator.FullFunctionalCalculator.Dispatch | usingloops.java:268-290 | makes the call that the case for an event makes, and keeps the object's invariant for every event the switch produces |
| Calculator.FullFunctionalCalculator.ActionPerformed | usingloops.java:264-292 | a button press updates the fields as `Engine.ActionPerformed` says and keeps the object's invariant |

## Left out

- The Swing window, the buttons and their layout, fonts and colours, the key bindings, and `main` with `invokeLater` (usingloops.java:29-117, 294-297) are user-interface plumbing. The model takes button labels as input. The key bindings call the same handlers.
- The numeric results of `Math.sqrt` and `Math.pow` (usingloops.java:185-186, 252-253) are floating point. They, and `doubleValue()`, are the `FloatModel` parameter. The model does not say what they compute. It keeps the exact negative-operand check for sqrt (usingloops.java:184) and the `setScale(10, HALF_UP)` applied to the results.
- A NaN or infinite double makes `new BigDecimal(double)` throw NumberFormatException, which no handler catches. The model treats it as an escaping exception that leaves the fields unchanged. What Swing does with the exception afterwards is not modelled.
- The malformed import on line 1 and the mismatch between the file name and the class name (usingloops.java:1, 18, 22) are compile-level defects, not engine logic.
- `Parse` reads plain notation only: an optional sign, digits, and an optional point with more digits. It does not accept an exponent ("1E3"), which `new BigDecimal(String)` would. No display the engine writes holds one.
- `Remainder` gives the value of `BigDecimal.remainder` at the larger of the two scales. Java's own result may carry another scale. The value is the same, and the only use of the result goes through its plain text, which the model reads back exactly.
- `Normalize` stops at scale zero. Java's `stripTrailingZeros` can go to a negative scale, but `setDisplay` then sets the scale back to zero (usingloops.java:130), so the text written is the same. Zero is stripped to plain "0", as in Java 8 and later.
- `Dec` has an unbounded unscaled value and scale. A `BigDecimal` scale is a 32-bit `int`, and `multiply` adds scales, so a long enough chain of products could overflow it and throw ArithmeticException. The model does not capture that overflow; no display reachable by hand comes near it.
- Java `String` is UTF-16 and the backspace label is "←" (U+2190). The model uses Dafny strings of characters. No label or display text is outside the basic plane.

Behaviour of the code that a reader might not expect, which the model keeps:
- a "0" typed after a lone "0" is appended, giving "00";
- a successful unary key leaves `startNewNumber` as it was, so a digit typed right after one extends the result only when the entry was open; after "=", an operator, MR or C the digit replaces it (`UnaryLeavesFlag`);
- backspace can leave a lone "-", which reads as zero;
- once "=", an operator, MR or C has set `startNewNumber`, backspace does nothing, so a result shown cannot be edited (`BackspacesWhenFresh`);
- an operator pressed after a division by zero lets the ArithmeticException from `compute` escape `applyOp` instead of showing "Error" as "=" does, and every field keeps its value (`ChainedDivideByZero`);
- the modulus branch of `compute` (usingloops.java:246-249) is never reached, because no button makes "%" a pending operator: the "%" label is the unary percent key (`Reachable`).
