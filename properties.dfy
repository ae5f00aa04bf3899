/** What the engine's handlers promise: an invariant every button keeps, the meaning of
    each handler in terms of values, and a few button sequences worked through. */
module EngineProperties {
  import opened Decimals
  import opened DecimalText
  import opened Engine

  // ---------------------------------------------------------------------------
  // The invariant.

  /** The display is "Error" only while a new number is expected; otherwise it is a
      non-empty run of digits with at most one '.', and perhaps a '-' in front. The
      pending operator is one applyOp can set. */
  predicate Inv(s: State)
  {
    ((s.display == "Error" && s.startNewNumber)
     || (|s.display| >= 1 && NumberChars(s.display) && Count(s.display, '.') <= 1))
    && (s.pendingOp.Some? ==> IsBinaryOp(s.pendingOp.value))
  }

  lemma InitialInv()
    ensures Inv(Initial)
  {
    assert Count("0", '.') == 0 by { assert "0"[..0] == ""; }
  }

  lemma {:induction false} CountAbsent(t: string, c: char)
    requires c !in t
    ensures Count(t, c) == 0
    decreases |t|
  {
    if |t| > 0 {
      var u := t[..|t| - 1];
      CountAbsent(u, c);
    }
  }

  lemma AppendChar(t: string, c: char)
    requires |t| >= 1 && NumberChars(t)
    requires IsDigit(c) || c == '.'
    ensures |t + [c]| >= 1 && NumberChars(t + [c])
    ensures Count(t + [c], '.') == Count(t, '.') + (if c == '.' then 1 else 0)
  {
    var u := t + [c];
    assert u[..|u| - 1] == t;
    forall i | 0 <= i < |u| ensures IsDigit(u[i]) || u[i] == '.' || (i == 0 && u[i] == '-') {
      if i < |t| { assert u[i] == t[i]; }
    }
  }

  lemma DropLast(t: string)
    requires |t| >= 2 && NumberChars(t)
    ensures NumberChars(t[..|t| - 1]) && Count(t[..|t| - 1], '.') <= Count(t, '.')
  {
    var u := t[..|t| - 1];
    forall i | 0 <= i < |u| ensures IsDigit(u[i]) || u[i] == '.' || (i == 0 && u[i] == '-') {
      assert u[i] == t[i];
    }
  }

  lemma SetDisplayInv(s: State, v: Dec)
    requires s.pendingOp.Some? ==> IsBinaryOp(s.pendingOp.value)
    ensures Inv(SetDisplay(s, v))
  {
    FormatShape(v);
  }

  lemma AppendNumberInv(s: State, digit: string)
    requires Inv(s) && IsDigitLabel(digit)
    ensures Inv(AppendNumber(s, digit))
  {
    assert Count(digit, '.') == 0 by { assert digit[..0] == ""; }
    if !s.startNewNumber && !(s.display == "0" && digit != "0") {
      assert s.display + digit == s.display + [digit[0]];
      AppendChar(s.display, digit[0]);
    }
  }

  lemma AppendDotInv(s: State)
    requires Inv(s)
    ensures Inv(AppendDot(s))
  {
    if s.startNewNumber {
      assert Count("0.", '.') == 1 by { assert "0."[..1] == "0"; assert "0"[..0] == ""; }
    } else if '.' !in s.display {
      CountAbsent(s.display, '.');
      assert s.display + "." == s.display + ['.'];
      AppendChar(s.display, '.');
    }
  }

  lemma BackspaceInv(s: State)
    requires Inv(s)
    ensures Inv(Backspace(s))
  {
    if !s.startNewNumber && |s.display| > 1 {
      DropLast(s.display);
    } else if !s.startNewNumber {
      assert Count("0", '.') == 0 by { assert "0"[..0] == ""; }
    }
  }

  lemma ClearInv(s: State)
    requires Inv(s)
    ensures Inv(ClearEntry(s)) && Inv(AllClear(s))
  {
    assert Count("0", '.') == 0 by { assert "0"[..0] == ""; }
  }

  lemma ApplyUnaryInv(s: State, op: string, floats: FloatModel)
    requires Inv(s)
    ensures Inv(After(s, ApplyUnary(s, op, floats)))
  {
    var x := ParseDisplay(s.display);
    if op == "sqrt" && CompareToZero(x) >= 0 && floats.sqrt(x).Some? {
      SetDisplayInv(s, SetScale(floats.sqrt(x).value, 10));
    } else if op == "1/x" && CompareToZero(x) != 0 {
      SetDisplayInv(s, Divide(One, x, 12));
    } else if op == "+/-" {
      SetDisplayInv(s, Neg(x));
    } else if op == "%" {
      var pct := Divide(x, Hundred, 12);
      SetDisplayInv(s, pct);
      SetDisplayInv(s, Mul(s.currentValue, pct));
    }
  }

  lemma ApplyOpInv(s: State, op: string, floats: FloatModel)
    requires Inv(s) && IsBinaryOp(op)
    ensures Inv(After(s, ApplyOp(s, op, floats)))
  {
    var x := ParseDisplay(s.display);
    if s.pendingOp.Some? && !s.startNewNumber {
      var r := Compute(s.currentValue, x, s.pendingOp.value, floats);
      if r.Ok? {
        FormatShape(r.value);
      }
    }
  }

  lemma DoEqualsInv(s: State, floats: FloatModel)
    requires Inv(s)
    ensures Inv(After(s, DoEquals(s, floats)))
  {
    var x := ParseDisplay(s.display);
    if s.pendingOp.Some? {
      var r := Compute(s.currentValue, x, s.pendingOp.value, floats);
      if r.Ok? {
        FormatShape(r.value);
      }
    }
  }

  lemma MemoryInv(s: State)
    requires Inv(s)
    ensures Inv(MemoryClear(s)) && Inv(MemoryAdd(s)) && Inv(MemorySubtract(s))
    ensures Inv(MemoryRecall(s))
  {
    FormatShape(s.memory);
  }

  /** The events the switch can produce: operators applyOp can leave pending and
      single digits. */
  predicate ValidEvent(e: Event)
  {
    (e.OperatorKey? ==> IsBinaryOp(e.binary)) && (e.DigitKey? ==> IsDigitLabel(e.digit))
  }

  lemma ClassifyValid(cmd: string)
    ensures ValidEvent(Classify(cmd))
  {}

  /** Every handler the switch can call keeps the invariant, whatever it computes. */
  lemma EventInv(s: State, e: Event, floats: FloatModel)
    requires Inv(s) && ValidEvent(e)
    ensures Inv(After(s, Step(s, e, floats)))
  {
    match e
    case AllClearKey => ClearInv(s);
    case ClearKey => ClearInv(s);
    case BackspaceKey => BackspaceInv(s);
    case MemoryClearKey => MemoryInv(s);
    case MemoryRecallKey => MemoryInv(s);
    case MemoryAddKey => MemoryInv(s);
    case MemorySubtractKey => MemoryInv(s);
    case UnaryKey(op) => ApplyUnaryInv(s, op, floats);
    case OperatorKey(op) => ApplyOpInv(s, op, floats);
    case EqualsKey => DoEqualsInv(s, floats);
    case DotKey => AppendDotInv(s);
    case DigitKey(d) => AppendNumberInv(s, d);
    case Ignored =>
  }

  /** So every button keeps it. */
  lemma StepInv(s: State, cmd: string, floats: FloatModel)
    requires Inv(s)
    ensures Inv(After(s, ActionPerformed(s, cmd, floats)))
  {
    ClassifyValid(cmd);
    EventInv(s, Classify(cmd), floats);
  }

  lemma {:induction false} RunInv(s: State, cmds: seq<string>, floats: FloatModel)
    requires Inv(s)
    ensures Inv(Run(s, cmds, floats))
    decreases |cmds|
  {
    if |cmds| > 0 {
      StepInv(s, cmds[0], floats);
      RunInv(After(s, ActionPerformed(s, cmds[0], floats)), cmds[1..], floats);
    }
  }

  /** From start-up, whatever is pressed: the display never holds two points, "Error"
      shows only while a new number is expected, and "%" is never left pending, so the
      modulus branch of compute is never reached from the buttons. */
  lemma Reachable(cmds: seq<string>, floats: FloatModel)
    ensures Inv(Run(Initial, cmds, floats))
    ensures Count(Run(Initial, cmds, floats).display, '.') <= 1
    ensures Run(Initial, cmds, floats).pendingOp != Some("%")
  {
    InitialInv();
    RunInv(Initial, cmds, floats);
    assert Count("Error", '.') == 0 by { CountAbsent("Error", '.'); }
  }

  // ---------------------------------------------------------------------------
  // Digit entry, the point and backspace.

  /** Only a non-zero digit replaces a lone "0": typing "0" there appends it, and the
      display "00" still reads as zero. */
  lemma ZeroAfterZero(s: State)
    requires !s.startNewNumber && s.display == "0"
    ensures AppendNumber(s, "0") == s.(display := "00")
    ensures ParseDisplay("00") == Zero
  {
    UnsignedWhole("00");
    assert DigitsToNat("00") == 0;
    ParseNonNegative("00", Zero);
  }

  /** A second point in a row changes nothing. */
  lemma AppendDotIdempotent(s: State)
    ensures AppendDot(AppendDot(s)) == AppendDot(s)
  {
    if s.startNewNumber {
      assert "0."[1] == '.';
    } else if '.' !in s.display {
      assert (s.display + ".")[|s.display|] == '.';
    }
  }

  /** Backspace takes back a digit that was appended to the number being typed. */
  lemma BackspaceUndoesDigit(s: State, digit: string)
    requires !s.startNewNumber && |s.display| >= 1 && IsDigitLabel(digit)
    requires s.display != "0" || digit == "0"
    ensures Backspace(AppendNumber(s, digit)) == s
  {
    assert (s.display + digit)[..|s.display|] == s.display;
  }

  /** Backspace takes back a point that was appended to the number being typed. */
  lemma BackspaceUndoesDot(s: State)
    requires !s.startNewNumber && |s.display| >= 1 && '.' !in s.display
    ensures Backspace(AppendDot(s)) == s
  {
    assert (s.display + ".")[..|s.display|] == s.display;
  }

  function Backspaces(s: State, n: nat): State
    decreases n
  {
    if n == 0 then s else Backspaces(Backspace(s), n - 1)
  }

  lemma {:induction false} BackspacesWhenFresh(s: State, n: nat)
    requires s.startNewNumber
    ensures Backspaces(s, n) == s
  {
    if n > 0 {
      BackspacesWhenFresh(s, n - 1);
    }
  }

  /** Pressing backspace at least as often as the number being typed has characters
      leaves "0" waiting for a new number, and changes no other field. */
  lemma {:induction false} BackspacesClear(s: State, n: nat)
    requires !s.startNewNumber && 1 <= |s.display| <= n
    ensures Backspaces(s, n) == s.(display := "0", startNewNumber := true)
    decreases n
  {
    if |s.display| <= 1 {
      BackspacesWhenFresh(Backspace(s), n - 1);
    } else {
      BackspacesClear(Backspace(s), n - 1);
    }
  }

  // ---------------------------------------------------------------------------
  // Clearing and memory.

  /** C resets the entry only; AC also resets the accumulator and the pending operator;
      neither touches the memory, and AC after C is AC. */
  lemma ClearScopes(s: State)
    ensures ClearEntry(s) == s.(display := "0", startNewNumber := true)
    ensures AllClear(s) == Initial.(memory := s.memory)
    ensures AllClear(ClearEntry(s)) == AllClear(s)
  {}

  // ---------------------------------------------------------------------------
  // Presses as the events they select.

  function Events(cmds: seq<string>): seq<Event>
    decreases |cmds|
  {
    if |cmds| == 0 then [] else [Classify(cmds[0])] + Events(cmds[1..])
  }

  function RunEvents(s: State, events: seq<Event>, floats: FloatModel): State
    decreases |events|
  {
    if |events| == 0 then s
    else RunEvents(After(s, Step(s, events[0], floats)), events[1..], floats)
  }

  lemma {:induction false} RunAsEvents(s: State, cmds: seq<string>, floats: FloatModel)
    ensures Run(s, cmds, floats) == RunEvents(s, Events(cmds), floats)
    decreases |cmds|
  {
    if |cmds| > 0 {
      RunAsEvents(After(s, ActionPerformed(s, cmds[0], floats)), cmds[1..], floats);
    }
  }

  lemma EventsCons(cmd: string, rest: seq<string>)
    ensures Events([cmd] + rest) == [Classify(cmd)] + Events(rest)
  {
    assert ([cmd] + rest)[1..] == rest;
  }

  lemma RunEventsCons(s: State, e: Event, rest: seq<Event>, floats: FloatModel)
    ensures RunEvents(s, [e] + rest, floats) == RunEvents(After(s, Step(s, e, floats)), rest, floats)
  {
    assert ([e] + rest)[1..] == rest;
  }

  lemma RunVia(s: State, cmds: seq<string>, events: seq<Event>, t: State, floats: FloatModel)
    requires Events(cmds) == events && RunEvents(s, events, floats) == t
    ensures Run(s, cmds, floats) == t
  {
    RunAsEvents(s, cmds, floats);
  }

  lemma ClassifyDigit(d: string)
    requires IsDigitLabel(d)
    ensures Classify(d) == DigitKey(d)
  {}

  lemma MemoryKeys()
    ensures Events(["MC", "M+", "AC", "MR"]) == [MemoryClearKey, MemoryAddKey, AllClearKey, MemoryRecallKey]
  {
    EventsCons("MC", ["M+", "AC", "MR"]);
    EventsCons("M+", ["AC", "MR"]);
    EventsCons("AC", ["MR"]);
    EventsCons("MR", []);
  }

  /** The keys that always complete, each its own handler. */
  lemma RegisterSteps(t: State, floats: FloatModel)
    ensures After(t, Step(t, MemoryClearKey, floats)) == MemoryClear(t)
    ensures After(t, Step(t, MemoryAddKey, floats)) == MemoryAdd(t)
    ensures After(t, Step(t, AllClearKey, floats)) == AllClear(t)
    ensures After(t, Step(t, MemoryRecallKey, floats)) == MemoryRecall(t)
  {}

  lemma MemoryEvents(s: State, floats: FloatModel)
    ensures RunEvents(s, [MemoryClearKey, MemoryAddKey, AllClearKey, MemoryRecallKey], floats)
         == MemoryRecall(AllClear(MemoryAdd(MemoryClear(s))))
  {
    var s1 := MemoryClear(s);
    var s2 := MemoryAdd(s1);
    var s3 := AllClear(s2);
    var s4 := MemoryRecall(s3);
    RegisterSteps(s, floats);
    RegisterSteps(s1, floats);
    RegisterSteps(s2, floats);
    RegisterSteps(s3, floats);
    RunEventsCons(s, MemoryClearKey, [MemoryAddKey, AllClearKey, MemoryRecallKey], floats);
    RunEventsCons(s1, MemoryAddKey, [AllClearKey, MemoryRecallKey], floats);
    RunEventsCons(s2, AllClearKey, [MemoryRecallKey], floats);
    RunEventsCons(s3, MemoryRecallKey, [], floats);
  }

  lemma MemorySteps(s: State, floats: FloatModel)
    ensures Run(s, ["MC", "M+", "AC", "MR"], floats) == MemoryRecall(AllClear(MemoryAdd(MemoryClear(s))))
  {
    MemoryKeys();
    MemoryEvents(s, floats);
    RunVia(s, ["MC", "M+", "AC", "MR"], [MemoryClearKey, MemoryAddKey, AllClearKey, MemoryRecallKey],
           MemoryRecall(AllClear(MemoryAdd(MemoryClear(s)))), floats);
  }

  /** MC, M+ on some display, AC, MR: the display shows the number that was stored. */
  lemma MemoryRoundTrip(s: State, floats: FloatModel)
    ensures Run(s, ["MC", "M+", "AC", "MR"], floats).display == Format(ParseDisplay(s.display))
    ensures Run(s, ["MC", "M+", "AC", "MR"], floats).startNewNumber
  {
    MemorySteps(s, floats);
    StoredShows(ParseDisplay(s.display));
  }

  lemma StoredShows(x: Dec)
    ensures Format(Add(Zero, x)) == Format(x)
  {
    NormalizeByValue(Add(Zero, x), x);
  }

  // ---------------------------------------------------------------------------
  // Typing a number.

  /** The digit buttons that type w, one label per character. */
  function DigitKeys(w: string): (keys: seq<string>)
    ensures |keys| == |w|
    decreases |w|
  {
    if |w| == 0 then [] else DigitKeys(w[..|w| - 1]) + [[w[|w| - 1]]]
  }

  /** What the display holds once the digits w are typed into a fresh entry: w itself,
      except that a first "0" gives way to a second digit that is not "0". */
  function Typed(w: string): string
  {
    if |w| >= 2 && w[0] == '0' && w[1] != '0' then w[1..] else w
  }

  /** Pressing a and then b is pressing a + b. */
  lemma {:induction false} RunAppend(s: State, a: seq<string>, b: seq<string>, floats: FloatModel)
    ensures Run(s, a + b, floats) == Run(Run(s, a, floats), b, floats)
    decreases |a|
  {
    if |a| == 0 {
      assert a + b == b;
    } else {
      assert (a + b)[0] == a[0] && (a + b)[1..] == a[1..] + b;
      RunAppend(After(s, ActionPerformed(s, a[0], floats)), a[1..], b, floats);
    }
  }

  lemma PressDigit(s: State, c: char, floats: FloatModel)
    requires IsDigit(c)
    ensures Run(s, [[c]], floats) == AppendNumber(s, [c])
  {
    ClassifyDigit([c]);
    assert [[c]][1..] == [];
  }

  lemma ClassifyPoint()
    ensures Classify(".") == DotKey
  {}

  lemma PressPoint(s: State, floats: FloatModel)
    ensures Run(s, ["."], floats) == AppendDot(s)
  {
    ClassifyPoint();
    assert ["."][1..] == [];
  }

  lemma TypedZero(w: string)
    requires |w| >= 1 && AllDigits(w)
    ensures Typed(w) == "0" <==> w == "0"
  {
    if |w| >= 2 && w[0] == '0' && w[1] != '0' {
      assert Typed(w)[0] == w[1];
    }
  }

  lemma TypedSnoc(w: string, c: char)
    requires |w| >= 1
    ensures Typed(w + [c]) == if w == "0" && c != '0' then [c] else Typed(w) + [c]
  {
    var v := w + [c];
    assert v[0] == w[0];
    if |w| >= 2 {
      assert v[1] == w[1] && v[1..] == w[1..] + [c];
    } else {
      assert w == [w[0]] && v == [w[0], c];
    }
  }

  /** Typed(w) spells the number w spells. */
  lemma TypedValue(w: string)
    requires |w| >= 1 && AllDigits(w)
    ensures |Typed(w)| >= 1 && AllDigits(Typed(w))
    ensures DigitsToNat(Typed(w)) == DigitsToNat(w)
  {
    if |w| >= 2 && w[0] == '0' && w[1] != '0' {
      assert w == Zeros(1) + w[1..];
      LeadingZeros(1, w[1..]);
    }
  }

  /** Digit buttons pressed into a fresh entry leave Typed(w) on the display, open for
      more digits, and change nothing else. */
  lemma {:induction false} TypeDigits(s: State, w: string, floats: FloatModel)
    requires s.startNewNumber && |w| >= 1 && AllDigits(w)
    ensures Run(s, DigitKeys(w), floats) == s.(display := Typed(w), startNewNumber := false)
    decreases |w|
  {
    var n := |w| - 1;
    var v, c := w[..n], w[n];
    assert w == v + [c];
    if n == 0 {
      assert DigitKeys(w) == [[c]];
      PressDigit(s, c, floats);
    } else {
      var u := s.(display := Typed(v), startNewNumber := false);
      TypeDigits(s, v, floats);
      RunAppend(s, DigitKeys(v), [[c]], floats);
      PressDigit(u, c, floats);
      TypedZero(v);
      TypedSnoc(v, c);
    }
  }

  /** Digit buttons on an open entry of two characters or more append their digits. */
  lemma {:induction false} TypeFraction(s: State, f: string, floats: FloatModel)
    requires !s.startNewNumber && |s.display| >= 2 && AllDigits(f)
    ensures Run(s, DigitKeys(f), floats) == s.(display := s.display + f)
    decreases |f|
  {
    if |f| == 0 {
      assert s.display + f == s.display;
    } else {
      var n := |f| - 1;
      var g, c := f[..n], f[n];
      var u := s.(display := s.display + g);
      assert f == g + [c];
      assert Run(s, DigitKeys(f), floats) == AppendNumber(u, [c]) by {
        assert DigitKeys(f) == DigitKeys(g) + [[c]];
        TypeFraction(s, g, floats);
        RunAppend(s, DigitKeys(g), [[c]], floats);
        PressDigit(u, c, floats);
      }
      assert |u.display| >= 2;
    }
  }

  /** A whole number typed into a fresh entry reads back as the number its digits spell. */
  lemma TypeWhole(s: State, w: string, floats: FloatModel)
    requires s.startNewNumber && |w| >= 1 && AllDigits(w)
    ensures var t := Run(s, DigitKeys(w), floats);
      t == s.(display := Typed(w), startNewNumber := false)
      && ParseDisplay(t.display) == Dec(DigitsToNat(w), 0)
  {
    TypeDigits(s, w, floats);
    TypedValue(w);
    UnsignedWhole(Typed(w));
    ParseNonNegative(Typed(w), Dec(DigitsToNat(w), 0));
  }

  /** Digits, the point and digits typed into a fresh entry read back as the decimal they
      spell, with as many places as digits follow the point; with no digits before the
      point the entry starts from "0.". */
  lemma TypeDecimal(s: State, w: string, f: string, floats: FloatModel)
    requires s.startNewNumber && AllDigits(w) && AllDigits(f)
    ensures var t := Run(s, DigitKeys(w) + ["."] + DigitKeys(f), floats);
      t == s.(display := (if |w| == 0 then "0" else Typed(w)) + "." + f, startNewNumber := false)
      && ParseDisplay(t.display) == Dec(DigitsToNat(w + f), |f|)
  {
    var whole := if |w| == 0 then "0" else Typed(w);
    var u := s.(display := whole + ".", startNewNumber := false);
    RunAppend(s, DigitKeys(w) + ["."], DigitKeys(f), floats);
    RunAppend(s, DigitKeys(w), ["."], floats);
    if |w| == 0 {
      PressPoint(s, floats);
    } else {
      TypeDigits(s, w, floats);
      TypedValue(w);
      NoPoint(Typed(w));
      PressPoint(s.(display := Typed(w), startNewNumber := false), floats);
    }
    assert Run(s, DigitKeys(w) + ["."], floats) == u;
    TypeFraction(u, f, floats);
    assert whole + "." + f == u.display + f;
    ParseWholePoint(w, f, whole);
  }

  lemma ParseWholePoint(w: string, f: string, whole: string)
    requires AllDigits(w) && AllDigits(f)
    requires whole == if |w| == 0 then "0" else Typed(w)
    ensures ParseDisplay(whole + "." + f) == Dec(DigitsToNat(w + f), |f|)
  {
    if |w| == 0 {
      assert whole == Zeros(1) && w + f == f;
      LeadingZeros(1, f);
    } else {
      TypedValue(w);
      SameDigitsAppend(whole, w, f);
    }
    UnsignedPoint(whole, f);
    ParseNonNegative(whole + "." + f, Dec(DigitsToNat(whole + f), |f|));
  }

  lemma SameDigitsAppend(a: string, b: string, f: string)
    requires AllDigits(a) && AllDigits(b) && AllDigits(f) && DigitsToNat(a) == DigitsToNat(b)
    ensures AllDigits(a + f) && AllDigits(b + f)
    ensures DigitsToNat(a + f) == DigitsToNat(b + f)
  {
    DigitsAppend(a, f);
    DigitsAppend(b, f);
  }

  // ---------------------------------------------------------------------------
  // compute.

  /** Addition, subtraction and multiplication always complete with the BigDecimal result. */
  lemma ComputeArith(a: Dec, b: Dec, floats: FloatModel)
    ensures Compute(a, b, "+", floats) == Ok(Add(a, b))
    ensures Compute(a, b, "-", floats) == Ok(Sub(a, b))
    ensures Compute(a, b, "*", floats) == Ok(Mul(a, b))
  {}

  /** Subtraction, addition and multiplication are exact. */
  lemma ComputeExact(a: Dec, b: Dec, floats: FloatModel)
    ensures Compute(a, b, "+", floats).Ok? && Value(Compute(a, b, "+", floats).value) == Value(a) + Value(b)
    ensures Compute(a, b, "-", floats).Ok? && Value(Compute(a, b, "-", floats).value) == Value(a) - Value(b)
    ensures Compute(a, b, "*", floats).Ok? && Value(Compute(a, b, "*", floats).value) == Value(a) * Value(b)
  {
    AddValue(a, b);
    SubValue(a, b);
    MulValue(a, b);
  }

  /** Division by a non-zero value rounds half up to twelve places; by zero it fails. */
  lemma ComputeDivide(a: Dec, b: Dec, floats: FloatModel)
    ensures Value(b) == 0.0 <==> Compute(a, b, "/", floats) == Fail(ArithmeticFault)
    ensures Value(b) != 0.0 ==>
      (Compute(a, b, "/", floats).Ok?
       && RoundedHalfUp(Value(Compute(a, b, "/", floats).value), Value(a) / Value(b), 12)
       && Compute(a, b, "/", floats).value.scale == 12)
  {
    if Value(b) != 0.0 {
      DivideRounds(a, b, 12);
    }
  }

  /** The modulus is BigDecimal.remainder unchanged by its trip through toPlainString,
      and it fails on a zero divisor. */
  lemma ComputeModulus(a: Dec, b: Dec, floats: FloatModel)
    ensures Value(b) == 0.0 <==> Compute(a, b, "%", floats) == Fail(ArithmeticFault)
    ensures Value(b) != 0.0 ==> Compute(a, b, "%", floats) == Ok(Remainder(a, b))
  {
    SignOfValue(b);
    if b.unscaled != 0 {
      ModulusNonZero(a, b, floats);
    } else {
      ModulusByZero(a, b, floats);
    }
  }

  lemma ModulusByZero(a: Dec, b: Dec, floats: FloatModel)
    requires b.unscaled == 0
    ensures Compute(a, b, "%", floats) == Fail(ArithmeticFault)
  {}

  lemma ModulusNonZero(a: Dec, b: Dec, floats: FloatModel)
    requires b.unscaled != 0
    ensures Compute(a, b, "%", floats) == Ok(Remainder(a, b))
  {
    var r := Remainder(a, b);
    var parsed := Parse(PlainString(r));
    assert CompareToZero(b) != 0;
    assert Compute(a, b, "%", floats) == if parsed.Some? then Ok(parsed.value) else Fail(NumberFormatFault);
    ParsePlain(r);
  }

  /** From start-up, every operator left pending is one that compute names, so its final
      branch, which returns the second operand unchanged, is never taken. */
  lemma DefaultUnreached(cmds: seq<string>, floats: FloatModel)
    ensures var t := Run(Initial, cmds, floats);
      t.pendingOp.Some? ==> t.pendingOp.value in {"+", "-", "*", "/", "^"}
  {
    Reachable(cmds, floats);
  }

  // ---------------------------------------------------------------------------
  // Operators and equals.

  /** The display after setDisplay(v) reads back as v's value. */
  lemma DisplayValue(v: Dec)
    ensures Value(ParseDisplay(Format(v))) == Value(v)
  {
    FormatShape(v);
  }

  /** With no operator pending, an operator stores the display and waits for a number. */
  lemma OperatorFirst(s: State, op: string, floats: FloatModel)
    requires s.pendingOp.None?
    ensures ApplyOp(s, op, floats)
         == Completed(s.(currentValue := ParseDisplay(s.display), pendingOp := Some(op), startNewNumber := true))
  {}

  /** With an operator pending and a number typed, an operator folds the number into the
      accumulator and shows the result; when the computation fails the exception leaves
      every field as it was. */
  lemma OperatorChains(s: State, op: string, floats: FloatModel)
    requires s.pendingOp.Some? && !s.startNewNumber
    ensures match Compute(s.currentValue, ParseDisplay(s.display), s.pendingOp.value, floats)
            case Ok(v) =>
              ApplyOp(s, op, floats)
                == Completed(s.(display := Format(v), currentValue := v, pendingOp := Some(op), startNewNumber := true))
              && Value(ParseDisplay(Format(v))) == Value(v)
            case Fail(f) =>
              ApplyOp(s, op, floats) == Escaped(f) && After(s, ApplyOp(s, op, floats)) == s
  {
    var r := Compute(s.currentValue, ParseDisplay(s.display), s.pendingOp.value, floats);
    if r.Ok? {
      DisplayValue(r.value);
    }
  }

  /** Two operators in a row act as the second alone: the first either computes what the
      second would compute, or stores the display, and the second then only replaces it.
      When the first escapes, so would the second, with the same exception. */
  lemma OperatorTwice(s: State, op1: string, op2: string, floats: FloatModel)
    ensures ApplyOp(s, op1, floats).Completed? ==>
      ApplyOp(ApplyOp(s, op1, floats).state, op2, floats) == ApplyOp(s, op2, floats)
    ensures ApplyOp(s, op1, floats).Escaped? ==> ApplyOp(s, op2, floats) == ApplyOp(s, op1, floats)
  {}

  /** After "=" shows a result, an operator continues from it: the result becomes the
      first operand, the operator is pending and a new number is due. */
  lemma EqualsThenOperator(s: State, op: string, floats: FloatModel)
    requires s.pendingOp.Some?
    requires Compute(s.currentValue, ParseDisplay(s.display), s.pendingOp.value, floats).Ok?
    ensures var v := Compute(s.currentValue, ParseDisplay(s.display), s.pendingOp.value, floats).value;
      var t := ApplyOp(DoEquals(s, floats).state, op, floats);
      t.Completed? && t.state.display == Format(v) && Value(t.state.currentValue) == Value(v)
      && t.state.pendingOp == Some(op) && t.state.startNewNumber
  {
    var v := Compute(s.currentValue, ParseDisplay(s.display), s.pendingOp.value, floats).value;
    assert DoEquals(s, floats).state
        == s.(display := Format(v), currentValue := v, pendingOp := None, startNewNumber := true);
    DisplayValue(v);
  }

  /** "=" does nothing without a pending operator.  With one, it clears it and waits for a
      new number, whether the computation succeeds (the display then shows the result)
      or divides by zero (the display shows "Error" and the accumulator is kept). */
  lemma EqualsResult(s: State, floats: FloatModel)
    ensures s.pendingOp.None? ==> DoEquals(s, floats) == Completed(s)
    ensures s.pendingOp.Some? ==>
      match Compute(s.currentValue, ParseDisplay(s.display), s.pendingOp.value, floats)
      case Ok(v) =>
        DoEquals(s, floats)
          == Completed(s.(display := Format(v), currentValue := v, pendingOp := None, startNewNumber := true))
        && Value(ParseDisplay(Format(v))) == Value(v)
      case Fail(ArithmeticFault) =>
        DoEquals(s, floats) == Completed(s.(display := "Error", pendingOp := None, startNewNumber := true))
      case Fail(NumberFormatFault) =>
        DoEquals(s, floats) == Escaped(NumberFormatFault)
  {
    if s.pendingOp.Some? {
      var r := Compute(s.currentValue, ParseDisplay(s.display), s.pendingOp.value, floats);
      if r.Ok? {
        DisplayValue(r.value);
      }
    }
  }

  /** Dividing by a zero display at "=" shows "Error" and keeps the accumulator. */
  lemma EqualsDivideByZero(s: State, floats: FloatModel)
    requires s.pendingOp == Some("/") && Value(ParseDisplay(s.display)) == 0.0
    ensures DoEquals(s, floats)
         == Completed(s.(display := "Error", pendingOp := None, startNewNumber := true))
  {
    ComputeDivide(s.currentValue, ParseDisplay(s.display), floats);
  }

  /** Dividing by a zero display with a further operator throws out of applyOp: the
      exception escapes and no field changes. */
  lemma ChainedDivideByZero(s: State, op: string, floats: FloatModel)
    requires s.pendingOp == Some("/") && !s.startNewNumber && Value(ParseDisplay(s.display)) == 0.0
    ensures ApplyOp(s, op, floats) == Escaped(ArithmeticFault)
    ensures After(s, ApplyOp(s, op, floats)) == s
  {
    ComputeDivide(s.currentValue, ParseDisplay(s.display), floats);
  }

  // ---------------------------------------------------------------------------
  // Unary operations.

  /** A unary operation that completes either changes the display alone or shows
      "Error" waiting for a new number; accumulator, memory and pending operator stay. */
  lemma UnaryKeepsFields(s: State, op: string, floats: FloatModel)
    ensures ApplyUnary(s, op, floats).Completed? ==>
      var t := ApplyUnary(s, op, floats).state;
      t == s.(display := t.display) || t == ShowError(s)
  {}

  /** +/- shows exactly the negated value and changes nothing else. */
  lemma NegateExact(s: State, floats: FloatModel)
    ensures ApplyUnary(s, "+/-", floats).Completed?
    ensures ApplyUnary(s, "+/-", floats).state == s.(display := ApplyUnary(s, "+/-", floats).state.display)
    ensures ApplyUnary(s, "+/-", floats).state.display == Format(Neg(ParseDisplay(s.display)))
    ensures Value(ParseDisplay(ApplyUnary(s, "+/-", floats).state.display)) == -Value(ParseDisplay(s.display))
  {
    var x := ParseDisplay(s.display);
    assert ApplyUnary(s, "+/-", floats) == Completed(SetDisplay(s, Neg(x)));
    DisplayValue(Neg(x));
    NegValue(x);
  }

  /** A unary key never clears startNewNumber and only "Error" sets it, so with a new
      number due (after "=", an operator, MR or C) the next digit replaces its result. */
  lemma UnaryLeavesFlag(s: State, op: string, d: string, floats: FloatModel)
    ensures var t := After(s, ApplyUnary(s, op, floats));
      t.startNewNumber == s.startNewNumber || (t.display == "Error" && t.startNewNumber)
    ensures var t := After(s, ApplyUnary(s, op, floats));
      s.startNewNumber && IsDigitLabel(d) ==> AppendNumber(t, d) == t.(display := d, startNewNumber := false)
  {}

  /** The reciprocal itself: 1 / x rounded half up to twelve places. */
  lemma ReciprocalRounds(x: Dec)
    requires x.unscaled != 0
    ensures RoundedHalfUp(Value(Divide(One, x, 12)), 1.0 / Value(x), 12)
  {
    DivideRounds(One, x, 12);
    assert Value(One) == 1.0;
  }

  /** 1/x shows 1 / x rounded half up to twelve places, and "Error" for zero. */
  lemma Reciprocal(s: State, floats: FloatModel)
    ensures ApplyUnary(s, "1/x", floats).Completed?
    ensures Value(ParseDisplay(s.display)) == 0.0 ==> ApplyUnary(s, "1/x", floats).state == ShowError(s)
    ensures Value(ParseDisplay(s.display)) != 0.0 ==>
      var t := ApplyUnary(s, "1/x", floats).state;
      t == s.(display := t.display)
      && t.display == Format(Divide(One, ParseDisplay(s.display), 12))
      && RoundedHalfUp(Value(ParseDisplay(t.display)), 1.0 / Value(ParseDisplay(s.display)), 12)
  {
    var x := ParseDisplay(s.display);
    CompareToZeroSign(x);
    if x.unscaled != 0 {
      var r := Divide(One, x, 12);
      assert ApplyUnary(s, "1/x", floats) == Completed(SetDisplay(s, r));
      ReciprocalRounds(x);
      DisplayValue(r);
    } else {
      assert ApplyUnary(s, "1/x", floats) == Completed(ShowError(s));
    }
  }

  /** The percentage itself: x / 100 rounded half up to twelve places. */
  lemma PercentRounds(x: Dec)
    ensures RoundedHalfUp(Value(Divide(x, Hundred, 12)), Value(x) / 100.0, 12)
  {
    DivideRounds(x, Hundred, 12);
    assert Value(Hundred) == 100.0;
  }

  /** % shows the percentage of the display, taken of the accumulator when an operator
      is pending, and changes nothing else. */
  lemma Percent(s: State, floats: FloatModel)
    ensures ApplyUnary(s, "%", floats).Completed?
    ensures var pct := Divide(ParseDisplay(s.display), Hundred, 12);
      var t := ApplyUnary(s, "%", floats).state;
      t == s.(display := t.display)
      && t.display == Format(if s.pendingOp.Some? then Mul(s.currentValue, pct) else pct)
      && Value(ParseDisplay(t.display))
         == if s.pendingOp.Some? then Times(Value(s.currentValue), Value(pct)) else Value(pct)
  {
    var pct := Divide(ParseDisplay(s.display), Hundred, 12);
    if s.pendingOp.Some? {
      var m := Mul(s.currentValue, pct);
      assert ApplyUnary(s, "%", floats) == Completed(SetDisplay(s, m));
      DisplayValue(m);
      MulValue(s.currentValue, pct);
    } else {
      assert ApplyUnary(s, "%", floats) == Completed(SetDisplay(s, pct));
      DisplayValue(pct);
    }
  }

  /** The square root of a negative display shows "Error". */
  lemma SqrtNegative(s: State, floats: FloatModel)
    requires Value(ParseDisplay(s.display)) < 0.0
    ensures ApplyUnary(s, "sqrt", floats) == Completed(ShowError(s))
  {
    CompareToZeroSign(ParseDisplay(s.display));
  }
}
