/** FullFunctionalCalculator as the object it is: five fields that the event handlers
    update in place, each handler proved to leave the fields as the matching function of
    module Engine says. The text field's contents are the `display` field. */
module Calculator {
  import opened Decimals
  import opened DecimalText
  import opened Engine
  import opened EngineProperties

  class FullFunctionalCalculator {
    var display: string
    var currentValue: Dec
    var memory: Dec
    var pendingOp: Option<string>
    var startNewNumber: bool
    /** Math.sqrt and Math.pow, as the handlers see them. */
    const floats: FloatModel

    /** The fields as one value. */
    function Snapshot(): State
      reads this
    {
      State(display, currentValue, memory, pendingOp, startNewNumber)
    }

    /** What every handler keeps when the switch calls it: a number or "Error" shown, and
        only an operator applyOp accepts pending. */
    predicate Valid()
      reads this
    {
      Inv(Snapshot())
    }

    constructor (floats: FloatModel)
      ensures Snapshot() == Initial && Valid()
      ensures this.floats == floats
    {
      display := "0";
      currentValue := Zero;
      memory := Zero;
      pendingOp := None;
      startNewNumber := true;
      this.floats := floats;
      InitialInv();
    }

    method SetDisplay(val: Dec)
      modifies this
      ensures Snapshot() == Engine.SetDisplay(old(Snapshot()), val)
      ensures old(Valid()) ==> Valid()
    {
      ghost var s := Snapshot();
      display := Format(val);
      if Inv(s) {
        SetDisplayInv(s, val);
      }
    }

    method AppendNumber(digit: string)
      modifies this
      ensures Snapshot() == Engine.AppendNumber(old(Snapshot()), digit)
      ensures old(Valid()) && IsDigitLabel(digit) ==> Valid()
    {
      ghost var s := Snapshot();
      if startNewNumber {
        display := if digit == "0" then "0" else digit;
        startNewNumber := false;
      } else {
        if display == "0" && digit != "0" {
          display := digit;
        } else {
          display := display + digit;
        }
      }
      if Inv(s) && IsDigitLabel(digit) {
        AppendNumberInv(s, digit);
      }
    }

    method AppendDot()
      modifies this
      ensures Snapshot() == Engine.AppendDot(old(Snapshot()))
      ensures old(Valid()) ==> Valid()
    {
      ghost var s := Snapshot();
      if startNewNumber {
        display := "0.";
        startNewNumber := false;
      } else if '.' !in display {
        display := display + ".";
      }
      if Inv(s) {
        AppendDotInv(s);
      }
    }

    method ClearEntry()
      modifies this
      ensures Snapshot() == Engine.ClearEntry(old(Snapshot()))
      ensures old(Valid()) ==> Valid()
    {
      ghost var s := Snapshot();
      display := "0";
      startNewNumber := true;
      if Inv(s) {
        ClearInv(s);
      }
    }

    method AllClear()
      modifies this
      ensures Snapshot() == Engine.AllClear(old(Snapshot()))
      ensures old(Valid()) ==> Valid()
    {
      ghost var s := Snapshot();
      display := "0";
      currentValue := Zero;
      pendingOp := None;
      startNewNumber := true;
      if Inv(s) {
        ClearInv(s);
      }
    }

    method Backspace()
      modifies this
      ensures Snapshot() == Engine.Backspace(old(Snapshot()))
      ensures old(Valid()) ==> Valid()
    {
      ghost var s := Snapshot();
      if !startNewNumber {
        var t := display;
        if |t| <= 1 {
          display := "0";
          startNewNumber := true;
        } else {
          display := t[..|t| - 1];
        }
      }
      if Inv(s) {
        BackspaceInv(s);
      }
    }

    /** The unary keys; `escaped` is the exception that leaves the handler, if any. */
    method ApplyUnary(op: string) returns (escaped: Option<Fault>)
      modifies this
      ensures Snapshot() == After(old(Snapshot()), Engine.ApplyUnary(old(Snapshot()), op, floats))
      ensures escaped == FaultOf(Engine.ApplyUnary(old(Snapshot()), op, floats))
      ensures old(Valid()) ==> Valid()
    {
      ghost var s := Snapshot();
      if Inv(s) {
        ApplyUnaryInv(s, op, floats);
      }
      var x := ParseDisplay(display);
      escaped := None;
      if op == "sqrt" {
        if CompareToZero(x) < 0 {
          display := "Error";
          startNewNumber := true;
        } else {
          match floats.sqrt(x)
          case Some(r) => SetDisplay(SetScale(r, 10));
          case None => escaped := Some(NumberFormatFault);
        }
      } else if op == "1/x" {
        if CompareToZero(x) == 0 {
          display := "Error";
          startNewNumber := true;
        } else {
          SetDisplay(Divide(One, x, 12));
        }
      } else if op == "+/-" {
        SetDisplay(Neg(x));
      } else if op == "%" {
        var pct := Divide(x, Hundred, 12);
        if pendingOp.Some? {
          SetDisplay(Mul(currentValue, pct));
        } else {
          SetDisplay(pct);
        }
      }
    }

    /** The binary operator keys. An exception from compute leaves every field as it was. */
    method ApplyOp(op: string) returns (escaped: Option<Fault>)
      modifies this
      ensures Snapshot() == After(old(Snapshot()), Engine.ApplyOp(old(Snapshot()), op, floats))
      ensures escaped == FaultOf(Engine.ApplyOp(old(Snapshot()), op, floats))
      ensures old(Valid()) && IsBinaryOp(op) ==> Valid()
    {
      ghost var s := Snapshot();
      var x := ParseDisplay(display);
      if pendingOp.None? {
        currentValue := x;
      } else if !startNewNumber {
        var r := Compute(currentValue, x, pendingOp.value, floats);
        if r.Fail? {
          return Some(r.fault);
        }
        currentValue := r.value;
        SetDisplay(currentValue);
      }
      pendingOp := Some(op);
      startNewNumber := true;
      escaped := None;
      if Inv(s) && IsBinaryOp(op) {
        ApplyOpInv(s, op, floats);
      }
    }

    /** "=": an ArithmeticException is caught and shown as "Error"; the exception that a
        non-finite power raises is not, and leaves every field as it was. */
    method DoEquals() returns (escaped: Option<Fault>)
      modifies this
      ensures Snapshot() == After(old(Snapshot()), Engine.DoEquals(old(Snapshot()), floats))
      ensures escaped == FaultOf(Engine.DoEquals(old(Snapshot()), floats))
      ensures old(Valid()) ==> Valid()
    {
      ghost var s := Snapshot();
      var x := ParseDisplay(display);
      escaped := None;
      if pendingOp.Some? {
        var r := Compute(currentValue, x, pendingOp.value, floats);
        match r {
        case Ok(v) =>
          currentValue := v;
          SetDisplay(v);
        case Fail(ArithmeticFault) =>
          display := "Error";
        case Fail(NumberFormatFault) =>
          return Some(NumberFormatFault);
        }
        pendingOp := None;
        startNewNumber := true;
      }
      if Inv(s) {
        DoEqualsInv(s, floats);
      }
    }

    method MemoryClear()
      modifies this
      ensures Snapshot() == Engine.MemoryClear(old(Snapshot()))
      ensures old(Valid()) ==> Valid()
    {
      ghost var s := Snapshot();
      memory := Zero;
      if Inv(s) {
        MemoryInv(s);
      }
    }

    method MemoryRecall()
      modifies this
      ensures Snapshot() == Engine.MemoryRecall(old(Snapshot()))
      ensures old(Valid()) ==> Valid()
    {
      ghost var s := Snapshot();
      SetDisplay(memory);
      startNewNumber := true;
      if Inv(s) {
        MemoryInv(s);
      }
    }

    method MemoryAdd()
      modifies this
      ensures Snapshot() == Engine.MemoryAdd(old(Snapshot()))
      ensures old(Valid()) ==> Valid()
    {
      ghost var s := Snapshot();
      memory := Add(memory, ParseDisplay(display));
      if Inv(s) {
        MemoryInv(s);
      }
    }

    method MemorySubtract()
      modifies this
      ensures Snapshot() == Engine.MemorySubtract(old(Snapshot()))
      ensures old(Valid()) ==> Valid()
    {
      ghost var s := Snapshot();
      memory := Sub(memory, ParseDisplay(display));
      if Inv(s) {
        MemoryInv(s);
      }
    }

    /** The call each case of the switch in actionPerformed makes. */
    method Dispatch(e: Event) returns (escaped: Option<Fault>)
      modifies this
      ensures Snapshot() == After(old(Snapshot()), Step(old(Snapshot()), e, floats))
      ensures escaped == FaultOf(Step(old(Snapshot()), e, floats))
      ensures old(Valid()) && ValidEvent(e) ==> Valid()
    {
      escaped := None;
      match e
      case AllClearKey => AllClear();
      case ClearKey => ClearEntry();
      case BackspaceKey => Backspace();
      case MemoryClearKey => MemoryClear();
      case MemoryRecallKey => MemoryRecall();
      case MemoryAddKey => MemoryAdd();
      case MemorySubtractKey => MemorySubtract();
      case UnaryKey(op) => escaped := ApplyUnary(op);
      case OperatorKey(op) => escaped := ApplyOp(op);
      case EqualsKey => escaped := DoEquals();
      case DotKey => AppendDot();
      case DigitKey(d) => AppendNumber(d);
      case Ignored =>
    }

    /** A button press: the handler its label selects, which keeps the object Valid. */
    method ActionPerformed(cmd: string) returns (escaped: Option<Fault>)
      modifies this
      ensures Snapshot() == After(old(Snapshot()), Engine.ActionPerformed(old(Snapshot()), cmd, floats))
      ensures escaped == FaultOf(Engine.ActionPerformed(old(Snapshot()), cmd, floats))
      ensures old(Valid()) ==> Valid()
    {
      ghost var s := Snapshot();
      ClassifyValid(cmd);
      escaped := Dispatch(Classify(cmd));
    }
  }
}
