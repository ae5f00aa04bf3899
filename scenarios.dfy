/** Button sequences worked through from start-up. Most take arbitrary digits, or
    numbers of any length, in place of fixed ones; a few fixed runs are taken to the text
    they show. */
module Scenarios {
  import opened Decimals
  import opened DecimalText
  import opened Engine
  import opened EngineProperties

  /** The integer n as a decimal of scale zero. */
  function Whole(n: int): (d: Dec)
    ensures d.scale == 0 && Value(d) == n as real
  {
    Dec(n, 0)
  }

  /** The number a digit button stands for: what its one digit spells. */
  function DigitValue(d: string): (n: nat)
    requires IsDigitLabel(d)
    ensures n < 10 && n == DigitsToNat(d)
  {
    assert d[..0] == "";
    d[0] as int - '0' as int
  }

  /** A whole number is shown as its digits, with '-' in front when negative. */
  lemma FormatWhole(n: int)
    ensures Normalize(Whole(n)) == Whole(n)
    ensures Format(Whole(n)) == (if n < 0 then "-" else "") + NatToDigits(Abs(n))
  {
    var d := Whole(n);
    var digits := NatToDigits(Abs(n));
    assert Padded(d) == digits by { assert Zeros(0) + digits == digits; }
  }

  /** A digit label is the digits of its number. */
  lemma DigitDigits(d: string)
    requires IsDigitLabel(d)
    ensures NatToDigits(DigitValue(d)) == d
  {
    var n := DigitValue(d);
    assert NatToDigits(n) == [DigitChar(n)];
  }

  /** A digit on the display reads as its number. */
  lemma ReadDigit(d: string)
    requires IsDigitLabel(d)
    ensures ParseDisplay(d) == Whole(DigitValue(d))
  {
    UnsignedWhole(d);
    ParseNonNegative(d, Dec(DigitsToNat(d), 0));
  }

  lemma AddWhole(m: int, n: int)
    ensures Add(Whole(m), Whole(n)) == Whole(m + n)
  {
    assert Pow10(0) == 1;
    assert Align(Whole(m), 0) == Whole(m) && Align(Whole(n), 0) == Whole(n);
  }

  lemma MulWhole(m: int, n: int)
    ensures Mul(Whole(m), Whole(n)) == Whole(m * n)
  {}

  // The labels the scenarios press besides digits.

  lemma ClassifyPlus()
    ensures Classify("+") == OperatorKey("+")
  {}

  lemma ClassifyTimes()
    ensures Classify("*") == OperatorKey("*")
  {}

  lemma ClassifyDivide()
    ensures Classify("/") == OperatorKey("/")
  {}

  lemma ClassifyEquals()
    ensures Classify("=") == EqualsKey
  {}

  lemma ClassifyPercent()
    ensures Classify("%") == UnaryKey("%")
  {}

  lemma ClassifyReciprocal()
    ensures Classify("1/x") == UnaryKey("1/x")
  {}

  lemma ClassifySign()
    ensures Classify("+/-") == UnaryKey("+/-")
  {}

  lemma ClassifyBackspace()
    ensures Classify("\U{2190}") == BackspaceKey
  {}

  /** A digit followed by another label. */
  lemma EventsDigitThen(d: string, cmd: string, rest: seq<string>)
    requires IsDigitLabel(d)
    ensures Events([d, cmd] + rest) == [DigitKey(d), Classify(cmd)] + Events(rest)
  {
    ClassifyDigit(d);
    assert [d, cmd] + rest == [d] + ([cmd] + rest);
    EventsCons(d, [cmd] + rest);
    EventsCons(cmd, rest);
  }

  // ---------------------------------------------------------------------------
  // Single events, each as a rewrite of the run ahead.

  lemma DigitFresh(s: State, d: string, rest: seq<Event>, floats: FloatModel)
    requires s.startNewNumber
    ensures RunEvents(s, [DigitKey(d)] + rest, floats)
         == RunEvents(s.(display := d, startNewNumber := false), rest, floats)
  {
    RunEventsCons(s, DigitKey(d), rest, floats);
  }

  lemma DigitTyped(s: State, d: string, rest: seq<Event>, floats: FloatModel)
    requires !s.startNewNumber && s.display != "0"
    ensures RunEvents(s, [DigitKey(d)] + rest, floats) == RunEvents(s.(display := s.display + d), rest, floats)
  {
    RunEventsCons(s, DigitKey(d), rest, floats);
  }

  lemma BackspaceTyped(s: State, rest: seq<Event>, floats: FloatModel)
    requires !s.startNewNumber && |s.display| > 1
    ensures RunEvents(s, [BackspaceKey] + rest, floats)
         == RunEvents(s.(display := s.display[..|s.display| - 1]), rest, floats)
  {
    RunEventsCons(s, BackspaceKey, rest, floats);
  }

  lemma OperatorFirstStep(s: State, op: string, rest: seq<Event>, floats: FloatModel)
    requires s.pendingOp.None?
    ensures RunEvents(s, [OperatorKey(op)] + rest, floats)
         == RunEvents(s.(currentValue := ParseDisplay(s.display), pendingOp := Some(op), startNewNumber := true), rest, floats)
  {
    RunEventsCons(s, OperatorKey(op), rest, floats);
  }

  lemma OperatorAfterSum(s: State, op: string, rest: seq<Event>, floats: FloatModel)
    requires s.pendingOp == Some("+") && !s.startNewNumber
    ensures var v := Add(s.currentValue, ParseDisplay(s.display));
      RunEvents(s, [OperatorKey(op)] + rest, floats)
        == RunEvents(s.(display := Format(v), currentValue := v, pendingOp := Some(op), startNewNumber := true), rest, floats)
  {
    ComputeArith(s.currentValue, ParseDisplay(s.display), floats);
    RunEventsCons(s, OperatorKey(op), rest, floats);
  }

  lemma EqualsAfterSum(s: State, rest: seq<Event>, floats: FloatModel)
    requires s.pendingOp == Some("+")
    ensures var v := Add(s.currentValue, ParseDisplay(s.display));
      RunEvents(s, [EqualsKey] + rest, floats)
        == RunEvents(s.(display := Format(v), currentValue := v, pendingOp := None, startNewNumber := true), rest, floats)
  {
    ComputeArith(s.currentValue, ParseDisplay(s.display), floats);
    RunEventsCons(s, EqualsKey, rest, floats);
  }

  lemma EqualsAfterProduct(s: State, rest: seq<Event>, floats: FloatModel)
    requires s.pendingOp == Some("*")
    ensures var v := Mul(s.currentValue, ParseDisplay(s.display));
      RunEvents(s, [EqualsKey] + rest, floats)
        == RunEvents(s.(display := Format(v), currentValue := v, pendingOp := None, startNewNumber := true), rest, floats)
  {
    ComputeArith(s.currentValue, ParseDisplay(s.display), floats);
    RunEventsCons(s, EqualsKey, rest, floats);
  }

  lemma ZeroDisplay()
    ensures ParseDisplay("0") == Zero
  {
    ReadDigit("0");
    assert DigitValue("0") == 0;
  }

  lemma EqualsZeroDivisor(s: State, rest: seq<Event>, floats: FloatModel)
    requires s.pendingOp == Some("/") && s.display == "0"
    ensures RunEvents(s, [EqualsKey] + rest, floats)
         == RunEvents(s.(display := "Error", pendingOp := None, startNewNumber := true), rest, floats)
  {
    ZeroDisplay();
    assert CompareToZero(Zero) == 0;
    RunEventsCons(s, EqualsKey, rest, floats);
  }

  lemma UnaryStep(s: State, op: string, rest: seq<Event>, floats: FloatModel)
    ensures RunEvents(s, [UnaryKey(op)] + rest, floats) == RunEvents(After(s, ApplyUnary(s, op, floats)), rest, floats)
  {
    RunEventsCons(s, UnaryKey(op), rest, floats);
    assert Step(s, UnaryKey(op), floats) == ApplyUnary(s, op, floats);
  }

  lemma PercentOutcome(s: State, floats: FloatModel)
    requires s.pendingOp.Some?
    ensures ApplyUnary(s, "%", floats)
         == Completed(s.(display := Format(Mul(s.currentValue, Divide(ParseDisplay(s.display), Hundred, 12)))))
  {}

  lemma PercentPending(s: State, rest: seq<Event>, floats: FloatModel)
    requires s.pendingOp.Some?
    ensures RunEvents(s, [UnaryKey("%")] + rest, floats)
         == RunEvents(s.(display := Format(Mul(s.currentValue, Divide(ParseDisplay(s.display), Hundred, 12)))), rest, floats)
  {
    PercentOutcome(s, floats);
    UnaryStep(s, "%", rest, floats);
  }

  lemma NegateOutcome(s: State, floats: FloatModel)
    ensures ApplyUnary(s, "+/-", floats) == Completed(s.(display := Format(Neg(ParseDisplay(s.display)))))
  {}

  lemma Negate(s: State, rest: seq<Event>, floats: FloatModel)
    ensures RunEvents(s, [UnaryKey("+/-")] + rest, floats)
         == RunEvents(s.(display := Format(Neg(ParseDisplay(s.display)))), rest, floats)
  {
    NegateOutcome(s, floats);
    UnaryStep(s, "+/-", rest, floats);
  }

  lemma QuarterQuotient()
    ensures Divide(One, Whole(4), 12) == Dec(250000000000, 12)
  {}

  lemma QuarterText()
    ensures Format(Dec(25, 2)) == "0.25"
  {}

  lemma Quarter()
    ensures Format(Divide(One, Whole(4), 12)) == "0.25"
  {
    var q := Dec(250000000000, 12);
    QuarterQuotient();
    assert Value(q) == Value(Dec(25, 2));
    NormalizeByValue(q, Dec(25, 2));
    QuarterText();
  }

  lemma ReciprocalOutcome(s: State, x: Dec, floats: FloatModel)
    requires ParseDisplay(s.display) == x && x.unscaled != 0
    ensures ApplyUnary(s, "1/x", floats) == Completed(s.(display := Format(Divide(One, x, 12))))
  {}

  lemma ReciprocalFour(s: State, rest: seq<Event>, floats: FloatModel)
    requires s.display == "4"
    ensures RunEvents(s, [UnaryKey("1/x")] + rest, floats) == RunEvents(s.(display := "0.25"), rest, floats)
  {
    var four := Whole(DigitValue("4"));
    ReadDigit("4");
    assert four == Whole(4);
    ReciprocalOutcome(s, four, floats);
    Quarter();
    UnaryStep(s, "1/x", rest, floats);
  }

  lemma Done(s: State, floats: FloatModel)
    ensures RunEvents(s, [], floats) == s
  {}

  // ---------------------------------------------------------------------------
  // A number typed into a fresh entry, then one more key.

  lemma NumberOperator(s: State, d: string, op: string, rest: seq<Event>, floats: FloatModel)
    requires s.startNewNumber && s.pendingOp.None?
    ensures RunEvents(s, [DigitKey(d), OperatorKey(op)] + rest, floats)
         == RunEvents(s.(display := d, currentValue := ParseDisplay(d), pendingOp := Some(op), startNewNumber := true), rest, floats)
  {
    assert [DigitKey(d), OperatorKey(op)] + rest == [DigitKey(d)] + ([OperatorKey(op)] + rest);
    DigitFresh(s, d, [OperatorKey(op)] + rest, floats);
    OperatorFirstStep(s.(display := d, startNewNumber := false), op, rest, floats);
  }

  lemma NumberOperatorAfterSum(s: State, d: string, op: string, rest: seq<Event>, floats: FloatModel)
    requires s.startNewNumber && s.pendingOp == Some("+")
    ensures var v := Add(s.currentValue, ParseDisplay(d));
      RunEvents(s, [DigitKey(d), OperatorKey(op)] + rest, floats)
        == RunEvents(s.(display := Format(v), currentValue := v, pendingOp := Some(op), startNewNumber := true), rest, floats)
  {
    assert [DigitKey(d), OperatorKey(op)] + rest == [DigitKey(d)] + ([OperatorKey(op)] + rest);
    DigitFresh(s, d, [OperatorKey(op)] + rest, floats);
    OperatorAfterSum(s.(display := d, startNewNumber := false), op, rest, floats);
  }

  lemma NumberEqualsAfterProduct(s: State, d: string, rest: seq<Event>, floats: FloatModel)
    requires s.startNewNumber && s.pendingOp == Some("*")
    ensures var v := Mul(s.currentValue, ParseDisplay(d));
      RunEvents(s, [DigitKey(d), EqualsKey] + rest, floats)
        == RunEvents(s.(display := Format(v), currentValue := v, pendingOp := None, startNewNumber := true), rest, floats)
  {
    assert [DigitKey(d), EqualsKey] + rest == [DigitKey(d)] + ([EqualsKey] + rest);
    DigitFresh(s, d, [EqualsKey] + rest, floats);
    EqualsAfterProduct(s.(display := d, startNewNumber := false), rest, floats);
  }

  lemma ZeroEqualsAfterDivide(s: State, rest: seq<Event>, floats: FloatModel)
    requires s.startNewNumber && s.pendingOp == Some("/")
    ensures RunEvents(s, [DigitKey("0"), EqualsKey] + rest, floats)
         == RunEvents(s.(display := "Error", pendingOp := None, startNewNumber := true), rest, floats)
  {
    assert [DigitKey("0"), EqualsKey] + rest == [DigitKey("0")] + ([EqualsKey] + rest);
    DigitFresh(s, "0", [EqualsKey] + rest, floats);
    EqualsZeroDivisor(s.(display := "0", startNewNumber := false), rest, floats);
  }

  lemma NumberPercent(s: State, d: string, rest: seq<Event>, floats: FloatModel)
    requires s.startNewNumber && s.pendingOp.Some?
    ensures RunEvents(s, [DigitKey(d), UnaryKey("%")] + rest, floats)
         == RunEvents(s.(display := Format(Mul(s.currentValue, Divide(ParseDisplay(d), Hundred, 12))),
                         startNewNumber := false), rest, floats)
  {
    assert [DigitKey(d), UnaryKey("%")] + rest == [DigitKey(d)] + ([UnaryKey("%")] + rest);
    DigitFresh(s, d, [UnaryKey("%")] + rest, floats);
    PercentPending(s.(display := d, startNewNumber := false), rest, floats);
  }

  lemma NumberNegate(s: State, d: string, rest: seq<Event>, floats: FloatModel)
    requires s.startNewNumber
    ensures RunEvents(s, [DigitKey(d), UnaryKey("+/-")] + rest, floats)
         == RunEvents(s.(display := Format(Neg(ParseDisplay(d))), startNewNumber := false), rest, floats)
  {
    assert [DigitKey(d), UnaryKey("+/-")] + rest == [DigitKey(d)] + ([UnaryKey("+/-")] + rest);
    DigitFresh(s, d, [UnaryKey("+/-")] + rest, floats);
    Negate(s.(display := d, startNewNumber := false), rest, floats);
  }

  lemma FourReciprocal(s: State, rest: seq<Event>, floats: FloatModel)
    requires s.startNewNumber
    ensures RunEvents(s, [DigitKey("4"), UnaryKey("1/x")] + rest, floats)
         == RunEvents(s.(display := "0.25", startNewNumber := false), rest, floats)
  {
    assert [DigitKey("4"), UnaryKey("1/x")] + rest == [DigitKey("4")] + ([UnaryKey("1/x")] + rest);
    DigitFresh(s, "4", [UnaryKey("1/x")] + rest, floats);
    ReciprocalFour(s.(display := "4", startNewNumber := false), rest, floats);
  }

  /** A non-zero digit negated is the digit with '-' in front. */
  lemma NegatedWhole(n: int)
    requires n > 0
    ensures Format(Neg(Whole(n))) == "-" + NatToDigits(n)
  {
    assert Neg(Whole(n)) == Whole(-n);
    FormatWhole(-n);
  }

  lemma NegatedDigit(a: string)
    requires IsDigitLabel(a) && a != "0"
    ensures Format(Neg(ParseDisplay(a))) == "-" + a
  {
    ReadDigit(a);
    assert DigitValue(a) != 0;
    NegatedWhole(DigitValue(a));
    DigitDigits(a);
  }

  // ---------------------------------------------------------------------------
  // Scenarios.

  /** a + b * c = from start-up, for any labels typed as a, b and c. */
  lemma LeftToRightEvents(a: string, b: string, c: string, floats: FloatModel)
    ensures var w := Mul(Add(ParseDisplay(a), ParseDisplay(b)), ParseDisplay(c));
      RunEvents(Initial, [DigitKey(a), OperatorKey("+"), DigitKey(b), OperatorKey("*"), DigitKey(c), EqualsKey], floats)
        == State(Format(w), w, Zero, None, true)
  {
    var v := Add(ParseDisplay(a), ParseDisplay(b));
    var w := Mul(v, ParseDisplay(c));
    var r2: seq<Event> := [DigitKey(c), EqualsKey];
    var r1 := [DigitKey(b), OperatorKey("*")] + r2;
    assert [DigitKey(a), OperatorKey("+"), DigitKey(b), OperatorKey("*"), DigitKey(c), EqualsKey]
        == [DigitKey(a), OperatorKey("+")] + r1;
    assert r2 == [DigitKey(c), EqualsKey] + [];
    NumberOperator(Initial, a, "+", r1, floats);
    NumberOperatorAfterSum(State(a, ParseDisplay(a), Zero, Some("+"), true), b, "*", r2, floats);
    NumberEqualsAfterProduct(State(Format(v), v, Zero, Some("*"), true), c, [], floats);
    Done(State(Format(w), w, Zero, None, true), floats);
  }

  lemma LeftToRightValue(a: string, b: string, c: string)
    requires IsDigitLabel(a) && IsDigitLabel(b) && IsDigitLabel(c)
    ensures Mul(Add(ParseDisplay(a), ParseDisplay(b)), ParseDisplay(c))
         == Whole((DigitValue(a) + DigitValue(b)) * DigitValue(c))
  {
    ReadDigit(a);
    ReadDigit(b);
    ReadDigit(c);
    AddWhole(DigitValue(a), DigitValue(b));
    MulWhole(DigitValue(a) + DigitValue(b), DigitValue(c));
  }

  lemma ProductKeys(b: string, c: string)
    requires IsDigitLabel(b) && IsDigitLabel(c)
    ensures Events([b, "*", c, "="]) == [DigitKey(b), OperatorKey("*"), DigitKey(c), EqualsKey]
  {
    var tail: seq<string> := [];
    assert [b, "*", c, "="] == [b, "*"] + ([c, "="] + tail);
    ClassifyTimes();
    ClassifyEquals();
    EventsDigitThen(b, "*", [c, "="] + tail);
    EventsDigitThen(c, "=", tail);
  }

  /** The events a + b * c = selects. */
  lemma LeftToRightKeys(a: string, b: string, c: string)
    requires IsDigitLabel(a) && IsDigitLabel(b) && IsDigitLabel(c)
    ensures Events([a, "+", b, "*", c, "="])
         == [DigitKey(a), OperatorKey("+"), DigitKey(b), OperatorKey("*"), DigitKey(c), EqualsKey]
  {
    assert [a, "+", b, "*", c, "="] == [a, "+"] + [b, "*", c, "="];
    ClassifyPlus();
    EventsDigitThen(a, "+", [b, "*", c, "="]);
    ProductKeys(b, c);
  }

  /** Operators apply left to right as they are pressed, with no precedence:
      a + b * c = leaves (a + b) * c in the accumulator and on the display. */
  lemma LeftToRight(a: string, b: string, c: string, floats: FloatModel)
    requires IsDigitLabel(a) && IsDigitLabel(b) && IsDigitLabel(c)
    ensures var w := Whole((DigitValue(a) + DigitValue(b)) * DigitValue(c));
      Run(Initial, [a, "+", b, "*", c, "="], floats) == State(Format(w), w, Zero, None, true)
  {
    var w := Whole((DigitValue(a) + DigitValue(b)) * DigitValue(c));
    LeftToRightKeys(a, b, c);
    LeftToRightEvents(a, b, c, floats);
    LeftToRightValue(a, b, c);
    RunVia(Initial, [a, "+", b, "*", c, "="],
           [DigitKey(a), OperatorKey("+"), DigitKey(b), OperatorKey("*"), DigitKey(c), EqualsKey],
           State(Format(w), w, Zero, None, true), floats);
  }

  lemma Sixteen()
    ensures Format(Whole((DigitValue("5") + DigitValue("3")) * DigitValue("2"))) == "16"
  {
    assert DigitValue("5") == 5 && DigitValue("3") == 3 && DigitValue("2") == 2;
    FormatWhole(16);
    assert NatToDigits(16) == "16";
  }

  /** 5 + 3 * 2 = shows 16. */
  lemma FivePlusThreeTimesTwo(floats: FloatModel)
    ensures Run(Initial, ["5", "+", "3", "*", "2", "="], floats).display == "16"
  {
    Sixteen();
    LeftToRight("5", "3", "2", floats);
  }

  /** "=" straight after an operator takes the shown number as the second operand too. */
  lemma RepeatOperandEvents(a: string, floats: FloatModel)
    ensures var w := Add(ParseDisplay(a), ParseDisplay(a));
      RunEvents(Initial, [DigitKey(a), OperatorKey("+"), EqualsKey], floats) == State(Format(w), w, Zero, None, true)
  {
    var w := Add(ParseDisplay(a), ParseDisplay(a));
    var r1: seq<Event> := [];
    var r0 := [EqualsKey] + r1;
    assert [DigitKey(a), OperatorKey("+"), EqualsKey] == [DigitKey(a), OperatorKey("+")] + r0;
    NumberOperator(Initial, a, "+", r0, floats);
    EqualsAfterSum(State(a, ParseDisplay(a), Zero, Some("+"), true), r1, floats);
    Done(State(Format(w), w, Zero, None, true), floats);
  }

  lemma RepeatOperandKeys(a: string)
    requires IsDigitLabel(a)
    ensures Events([a, "+", "="]) == [DigitKey(a), OperatorKey("+"), EqualsKey]
  {
    var tail: seq<string> := [];
    assert [a, "+", "="] == [a, "+"] + (["="] + tail);
    ClassifyPlus();
    ClassifyEquals();
    EventsDigitThen(a, "+", ["="] + tail);
    EventsCons("=", tail);
  }

  /** a + = adds a to itself. */
  lemma RepeatOperand(a: string, floats: FloatModel)
    requires IsDigitLabel(a)
    ensures var w := Whole(DigitValue(a) + DigitValue(a));
      Run(Initial, [a, "+", "="], floats) == State(Format(w), w, Zero, None, true)
  {
    var w := Whole(DigitValue(a) + DigitValue(a));
    RepeatOperandKeys(a);
    RepeatOperandEvents(a, floats);
    ReadDigit(a);
    AddWhole(DigitValue(a), DigitValue(a));
    RunVia(Initial, [a, "+", "="], [DigitKey(a), OperatorKey("+"), EqualsKey],
           State(Format(w), w, Zero, None, true), floats);
  }

  lemma DivideByZeroEvents(a: string, floats: FloatModel)
    ensures RunEvents(Initial, [DigitKey(a), OperatorKey("/"), DigitKey("0"), EqualsKey], floats)
         == State("Error", ParseDisplay(a), Zero, None, true)
  {
    var r1: seq<Event> := [];
    var r0 := [DigitKey("0"), EqualsKey] + r1;
    assert [DigitKey(a), OperatorKey("/"), DigitKey("0"), EqualsKey] == [DigitKey(a), OperatorKey("/")] + r0;
    NumberOperator(Initial, a, "/", r0, floats);
    ZeroEqualsAfterDivide(State(a, ParseDisplay(a), Zero, Some("/"), true), r1, floats);
    Done(State("Error", ParseDisplay(a), Zero, None, true), floats);
  }

  lemma DivideByZeroKeys(a: string)
    requires IsDigitLabel(a)
    ensures Events([a, "/", "0", "="]) == [DigitKey(a), OperatorKey("/"), DigitKey("0"), EqualsKey]
  {
    var tail: seq<string> := [];
    assert [a, "/", "0", "="] == [a, "/"] + (["0", "="] + tail);
    ClassifyDivide();
    ClassifyEquals();
    EventsDigitThen(a, "/", ["0", "="] + tail);
    EventsDigitThen("0", "=", tail);
  }

  /** Dividing by zero at "=" shows "Error", keeps the accumulator and clears the
      operator: a / 0 =. */
  lemma DivideByZeroAtEquals(a: string, floats: FloatModel)
    requires IsDigitLabel(a)
    ensures Run(Initial, [a, "/", "0", "="], floats) == State("Error", Whole(DigitValue(a)), Zero, None, true)
  {
    DivideByZeroKeys(a);
    DivideByZeroEvents(a, floats);
    ReadDigit(a);
    RunVia(Initial, [a, "/", "0", "="], [DigitKey(a), OperatorKey("/"), DigitKey("0"), EqualsKey],
           State("Error", Whole(DigitValue(a)), Zero, None, true), floats);
  }

  lemma PercentEvents(a: string, b: string, floats: FloatModel)
    ensures var pct := Divide(ParseDisplay(b), Hundred, 12);
      RunEvents(Initial, [DigitKey(a), OperatorKey("+"), DigitKey(b), UnaryKey("%")], floats)
        == State(Format(Mul(ParseDisplay(a), pct)), ParseDisplay(a), Zero, Some("+"), false)
  {
    var pct := Divide(ParseDisplay(b), Hundred, 12);
    var r1: seq<Event> := [];
    var r0 := [DigitKey(b), UnaryKey("%")] + r1;
    assert [DigitKey(a), OperatorKey("+"), DigitKey(b), UnaryKey("%")] == [DigitKey(a), OperatorKey("+")] + r0;
    NumberOperator(Initial, a, "+", r0, floats);
    NumberPercent(State(a, ParseDisplay(a), Zero, Some("+"), true), b, r1, floats);
    Done(State(Format(Mul(ParseDisplay(a), pct)), ParseDisplay(a), Zero, Some("+"), false), floats);
  }

  lemma PercentKeys(a: string, b: string)
    requires IsDigitLabel(a) && IsDigitLabel(b)
    ensures Events([a, "+", b, "%"]) == [DigitKey(a), OperatorKey("+"), DigitKey(b), UnaryKey("%")]
  {
    var tail: seq<string> := [];
    assert [a, "+", b, "%"] == [a, "+"] + ([b, "%"] + tail);
    ClassifyPlus();
    ClassifyPercent();
    EventsDigitThen(a, "+", [b, "%"] + tail);
    EventsDigitThen(b, "%", tail);
  }

  /** With an operator pending, % shows the percentage of the accumulator and leaves the
      operator pending and the entry open: a + b %. */
  lemma PercentOfAccumulator(a: string, b: string, floats: FloatModel)
    requires IsDigitLabel(a) && IsDigitLabel(b)
    ensures var pct := Divide(Whole(DigitValue(b)), Hundred, 12);
      Run(Initial, [a, "+", b, "%"], floats)
        == State(Format(Mul(Whole(DigitValue(a)), pct)), Whole(DigitValue(a)), Zero, Some("+"), false)
  {
    var x := Whole(DigitValue(a));
    var pct := Divide(Whole(DigitValue(b)), Hundred, 12);
    PercentKeys(a, b);
    PercentEvents(a, b, floats);
    ReadDigit(a);
    ReadDigit(b);
    RunVia(Initial, [a, "+", b, "%"], [DigitKey(a), OperatorKey("+"), DigitKey(b), UnaryKey("%")],
           State(Format(Mul(x, pct)), x, Zero, Some("+"), false), floats);
  }

  /** 1/x of 4 shows 0.25: the twelve-place quotient without its trailing zeros. */
  lemma ReciprocalOfFour(floats: FloatModel)
    ensures Run(Initial, ["4", "1/x"], floats) == State("0.25", Zero, Zero, None, false)
  {
    var tail: seq<string> := [];
    var none: seq<Event> := [];
    assert ["4", "1/x"] == ["4", "1/x"] + tail;
    assert [DigitKey("4"), UnaryKey("1/x")] == [DigitKey("4"), UnaryKey("1/x")] + none;
    ClassifyReciprocal();
    EventsDigitThen("4", "1/x", tail);
    FourReciprocal(Initial, none, floats);
    Done(State("0.25", Zero, Zero, None, false), floats);
    RunVia(Initial, ["4", "1/x"], [DigitKey("4"), UnaryKey("1/x")], State("0.25", Zero, Zero, None, false), floats);
  }

  lemma SignEvents(a: string, e: Event, floats: FloatModel)
    requires IsDigitLabel(a) && a != "0"
    ensures RunEvents(Initial, [DigitKey(a), UnaryKey("+/-"), e], floats)
         == RunEvents(State("-" + a, Zero, Zero, None, false), [e], floats)
  {
    assert [DigitKey(a), UnaryKey("+/-"), e] == [DigitKey(a), UnaryKey("+/-")] + [e];
    NegatedDigit(a);
    NumberNegate(Initial, a, [e], floats);
  }

  lemma SignKeys(a: string, cmd: string)
    requires IsDigitLabel(a)
    ensures Events([a, "+/-", cmd]) == [DigitKey(a), UnaryKey("+/-"), Classify(cmd)]
  {
    assert [a, "+/-", cmd] == [a, "+/-"] + [cmd];
    ClassifySign();
    EventsDigitThen(a, "+/-", [cmd]);
    EventsCons(cmd, []);
    assert [cmd] == [cmd] + [];
  }

  /** A unary operation leaves the entry open, so a digit typed after +/- is appended to
      the negated number: a +/- b shows -ab. */
  lemma DigitAfterSign(a: string, b: string, floats: FloatModel)
    requires IsDigitLabel(a) && IsDigitLabel(b) && a != "0"
    ensures Run(Initial, [a, "+/-", b], floats) == State("-" + a + b, Zero, Zero, None, false)
  {
    var t := State("-" + a, Zero, Zero, None, false);
    var r: seq<Event> := [];
    assert [DigitKey(b)] == [DigitKey(b)] + r;
    assert t.display[0] == '-';
    SignKeys(a, b);
    ClassifyDigit(b);
    SignEvents(a, DigitKey(b), floats);
    DigitTyped(t, b, r, floats);
    Done(State("-" + a + b, Zero, Zero, None, false), floats);
    RunVia(Initial, [a, "+/-", b], [DigitKey(a), UnaryKey("+/-"), DigitKey(b)],
           State("-" + a + b, Zero, Zero, None, false), floats);
  }

  /** And backspace after +/- can leave a lone "-", which reads as zero: a +/- \U{2190}. */
  lemma BackspaceLeavesSign(a: string, floats: FloatModel)
    requires IsDigitLabel(a) && a != "0"
    ensures Run(Initial, [a, "+/-", "\U{2190}"], floats) == State("-", Zero, Zero, None, false)
    ensures ParseDisplay("-") == Zero
  {
    var t := State("-" + a, Zero, Zero, None, false);
    var r: seq<Event> := [];
    assert [BackspaceKey] == [BackspaceKey] + r;
    assert t.display[..1] == "-";
    SignKeys(a, "\U{2190}");
    ClassifyBackspace();
    SignEvents(a, BackspaceKey, floats);
    BackspaceTyped(t, r, floats);
    Done(State("-", Zero, Zero, None, false), floats);
    RunVia(Initial, [a, "+/-", "\U{2190}"], [DigitKey(a), UnaryKey("+/-"), BackspaceKey],
           State("-", Zero, Zero, None, false), floats);
  }

  // ---------------------------------------------------------------------------
  // Numbers of several digits.

  /** One press, as the event its label selects. */
  lemma PressOne(s: State, cmd: string, e: Event, floats: FloatModel)
    requires Classify(cmd) == e
    ensures Run(s, [cmd], floats) == After(s, Step(s, e, floats))
  {
    assert [cmd][1..] == [];
  }

  /** From start-up, a + b % with numbers a and b of any length: the display shows b per
      cent of a, and a stays in the accumulator with + pending. */
  lemma TypedPercent(a: string, b: string, floats: FloatModel)
    requires |a| >= 1 && AllDigits(a) && |b| >= 1 && AllDigits(b)
    ensures var x, y := Whole(DigitsToNat(a)), Whole(DigitsToNat(b));
      Run(Initial, DigitKeys(a) + ["+"] + DigitKeys(b) + ["%"], floats)
        == State(Format(Mul(x, Divide(y, Hundred, 12))), x, Zero, Some("+"), false)
  {
    var x, y := Whole(DigitsToNat(a)), Whole(DigitsToNat(b));
    var ka, kb := DigitKeys(a), DigitKeys(b);
    var t1 := Initial.(display := Typed(a), startNewNumber := false);
    var t2 := t1.(currentValue := x, pendingOp := Some("+"), startNewNumber := true);
    var t3 := t2.(display := Typed(b), startNewNumber := false);
    var t4 := t3.(display := Format(Mul(x, Divide(y, Hundred, 12))));
    TypeWhole(Initial, a, floats);
    PlusFirst(t1, floats);
    TypeWhole(t2, b, floats);
    PercentTyped(t3, floats);
    RunAppend(Initial, ka + ["+"] + kb, ["%"], floats);
    RunAppend(Initial, ka + ["+"], kb, floats);
    RunAppend(Initial, ka, ["+"], floats);
  }

  lemma PlusFirst(s: State, floats: FloatModel)
    requires s.pendingOp.None?
    ensures Run(s, ["+"], floats)
         == s.(currentValue := ParseDisplay(s.display), pendingOp := Some("+"), startNewNumber := true)
  {
    ClassifyPlus();
    PressOne(s, "+", OperatorKey("+"), floats);
    OperatorFirst(s, "+", floats);
  }

  lemma PercentTyped(s: State, floats: FloatModel)
    requires s.pendingOp.Some?
    ensures Run(s, ["%"], floats)
         == s.(display := Format(Mul(s.currentValue, Divide(ParseDisplay(s.display), Hundred, 12))))
  {
    ClassifyPercent();
    PressOne(s, "%", UnaryKey("%"), floats);
    PercentOutcome(s, floats);
  }

  lemma TenthQuotient()
    ensures Divide(Whole(10), Hundred, 12) == Dec(100000000000, 12)
  {}

  /** Ten per cent of two hundred shows as 20. */
  lemma Twenty()
    ensures Format(Mul(Whole(200), Divide(Whole(10), Hundred, 12))) == "20"
  {
    var m := Dec(20000000000000, 12);
    TenthQuotient();
    assert Mul(Whole(200), Dec(100000000000, 12)) == m;
    assert Value(m) == Value(Whole(20));
    NormalizeByValue(m, Whole(20));
    FormatWhole(20);
    assert NatToDigits(20) == "20";
  }

  lemma TwoHundredTenKeys()
    ensures DigitKeys("200") + ["+"] + DigitKeys("10") + ["%"] == ["2", "0", "0", "+", "1", "0", "%"]
  {
    assert "200"[..2] == "20" && "20"[..1] == "2" && "2"[..0] == "";
    assert "10"[..1] == "1" && "1"[..0] == "";
  }

  lemma TwoHundredTenValues()
    ensures AllDigits("200") && DigitsToNat("200") == 200
    ensures AllDigits("10") && DigitsToNat("10") == 10
  {
    assert "200"[..2] == "20" && "20"[..1] == "2" && "2"[..0] == "";
    assert "10"[..1] == "1" && "1"[..0] == "";
  }

  /** 2 0 0 + 1 0 % shows 20. */
  lemma TwoHundredPlusTenPercent(floats: FloatModel)
    ensures Run(Initial, ["2", "0", "0", "+", "1", "0", "%"], floats).display == "20"
  {
    TwoHundredTenKeys();
    TwoHundredTenValues();
    TypedPercent("200", "10", floats);
    Twenty();
  }

  lemma OnePointFiveKeys()
    ensures DigitKeys("1") + ["."] + DigitKeys("5") == ["1", ".", "5"]
  {
    assert "1"[..0] == "" && "5"[..0] == "";
  }

  lemma OnePointFiveText()
    ensures AllDigits("1" + "5") && DigitsToNat("1" + "5") == 15
    ensures Typed("1") + "." + "5" == "1.5"
  {
    assert "1" + "5" == "15" && "15"[..1] == "1" && "1"[..0] == "";
  }

  /** 1 . 5 shows 1.5, which reads as fifteen tenths. */
  lemma OnePointFive(floats: FloatModel)
    ensures var t := Run(Initial, ["1", ".", "5"], floats);
      t.display == "1.5" && ParseDisplay(t.display) == Dec(15, 1)
  {
    OnePointFiveKeys();
    OnePointFiveText();
    TypeDecimal(Initial, "1", "5", floats);
  }
}
