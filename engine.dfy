/** The engine of FullFunctionalCalculator as values: its five fields as one record, each
    event handler as a function from the state before to the state after, and the
    arithmetic the operator keys run. */
module Engine {
  import opened Decimals
  import opened DecimalText

  /** The exceptions the engine can raise: ArithmeticException, and the
      NumberFormatException that new BigDecimal(double) throws on NaN or an infinity. */
  datatype Fault = ArithmeticFault | NumberFormatFault

  datatype Result<T> = Ok(value: T) | Fail(fault: Fault)

  /** Math.sqrt and Math.pow on the doubles nearest to their arguments, read back through
      new BigDecimal(double): the exact decimal value of the double result, or None when
      that result is NaN or infinite. */
  datatype FloatModel = FloatModel(sqrt: Dec -> Option<Dec>, pow: (Dec, Dec) -> Option<Dec>)

  /** The display text, the accumulator, the memory register, the pending binary
      operator and the flag saying that the next digit starts a new number. */
  datatype State = State(display: string, currentValue: Dec, memory: Dec,
                         pendingOp: Option<string>, startNewNumber: bool)

  /** The fields as the constructor leaves them. */
  const Initial: State := State("0", Zero, Zero, None, true)

  /** What an event handler leaves behind: its new state, or an exception that escapes
      it, in which case every field keeps the value it had when the exception was thrown. */
  datatype Outcome = Completed(state: State) | Escaped(fault: Fault)

  function After(s: State, o: Outcome): State
  {
    match o
    case Completed(t) => t
    case Escaped(_) => s
  }

  function FaultOf(o: Outcome): Option<Fault>
  {
    match o
    case Completed(_) => None
    case Escaped(f) => Some(f)
  }

  /** The operators applyOp can leave pending. */
  predicate IsBinaryOp(op: string)
  {
    op == "+" || op == "-" || op == "*" || op == "/" || op == "^"
  }

  // ---------------------------------------------------------------------------
  // The pure helpers.

  /** parseDisplay: the display read as a decimal, or zero when it is not one. */
  function ParseDisplay(text: string): Dec
  {
    match Parse(text)
    case Some(d) => d
    case None => Zero
  }

  /** setDisplay: the value written in its normal form. */
  function SetDisplay(s: State, val: Dec): State
  {
    s.(display := Format(val))
  }

  /** compute: the binary operators, a default that returns b for any other op. */
  function Compute(a: Dec, b: Dec, op: string, floats: FloatModel): Result<Dec>
  {
    if op == "+" then Ok(Add(a, b))
    else if op == "-" then Ok(Sub(a, b))
    else if op == "*" then Ok(Mul(a, b))
    else if op == "/" then
      if CompareToZero(b) == 0 then Fail(ArithmeticFault) else Ok(Divide(a, b, 12))
    else if op == "%" then
      if CompareToZero(b) == 0 then Fail(ArithmeticFault)
      else
        match Parse(PlainString(Remainder(a, b)))
        case Some(r) => Ok(r)
        case None => Fail(NumberFormatFault)
    else if op == "^" then
      match floats.pow(a, b)
      case Some(r) => Ok(SetScale(r, 10))
      case None => Fail(NumberFormatFault)
    else Ok(b)
  }

  // ---------------------------------------------------------------------------
  // The event handlers.

  function AppendNumber(s: State, digit: string): State
  {
    if s.startNewNumber then
      s.(display := if digit == "0" then "0" else digit, startNewNumber := false)
    else if s.display == "0" && digit != "0" then
      s.(display := digit)
    else
      s.(display := s.display + digit)
  }

  function AppendDot(s: State): State
  {
    if s.startNewNumber then s.(display := "0.", startNewNumber := false)
    else if '.' !in s.display then s.(display := s.display + ".")
    else s
  }

  function ClearEntry(s: State): State
  {
    s.(display := "0", startNewNumber := true)
  }

  function AllClear(s: State): State
  {
    s.(display := "0", currentValue := Zero, pendingOp := None, startNewNumber := true)
  }

  function Backspace(s: State): State
  {
    if s.startNewNumber then s
    else if |s.display| <= 1 then s.(display := "0", startNewNumber := true)
    else s.(display := s.display[..|s.display| - 1])
  }

  /** The state the ArithmeticException handlers leave. */
  function ShowError(s: State): State
  {
    s.(display := "Error", startNewNumber := true)
  }

  function ApplyUnary(s: State, op: string, floats: FloatModel): Outcome
  {
    var x := ParseDisplay(s.display);
    if op == "sqrt" then
      if CompareToZero(x) < 0 then Completed(ShowError(s))
      else
        match floats.sqrt(x)
        case Some(r) => Completed(SetDisplay(s, SetScale(r, 10)))
        case None => Escaped(NumberFormatFault)
    else if op == "1/x" then
      if CompareToZero(x) == 0 then Completed(ShowError(s))
      else Completed(SetDisplay(s, Divide(One, x, 12)))
    else if op == "+/-" then
      Completed(SetDisplay(s, Neg(x)))
    else if op == "%" then
      var pct := Divide(x, Hundred, 12);
      if s.pendingOp.Some? then Completed(SetDisplay(s, Mul(s.currentValue, pct)))
      else Completed(SetDisplay(s, pct))
    else
      Completed(s)
  }

  function ApplyOp(s: State, op: string, floats: FloatModel): Outcome
  {
    var x := ParseDisplay(s.display);
    if s.pendingOp.None? then
      Completed(s.(currentValue := x, pendingOp := Some(op), startNewNumber := true))
    else if !s.startNewNumber then
      match Compute(s.currentValue, x, s.pendingOp.value, floats)
      case Fail(f) => Escaped(f)
      case Ok(v) =>
        Completed(SetDisplay(s.(currentValue := v), v).(pendingOp := Some(op), startNewNumber := true))
    else
      Completed(s.(pendingOp := Some(op), startNewNumber := true))
  }

  function DoEquals(s: State, floats: FloatModel): Outcome
  {
    var x := ParseDisplay(s.display);
    if s.pendingOp.None? then Completed(s)
    else
      match Compute(s.currentValue, x, s.pendingOp.value, floats)
      case Ok(v) =>
        Completed(SetDisplay(s.(currentValue := v), v).(pendingOp := None, startNewNumber := true))
      case Fail(ArithmeticFault) =>
        Completed(s.(display := "Error", pendingOp := None, startNewNumber := true))
      case Fail(NumberFormatFault) =>
        Escaped(NumberFormatFault)
  }

  function MemoryClear(s: State): State
  {
    s.(memory := Zero)
  }

  function MemoryRecall(s: State): State
  {
    SetDisplay(s, s.memory).(startNewNumber := true)
  }

  function MemoryAdd(s: State): State
  {
    s.(memory := Add(s.memory, ParseDisplay(s.display)))
  }

  function MemorySubtract(s: State): State
  {
    s.(memory := Sub(s.memory, ParseDisplay(s.display)))
  }

  /** The label of a digit button: one character between '0' and '9'. */
  predicate IsDigitLabel(cmd: string)
  {
    |cmd| == 1 && IsDigit(cmd[0])
  }

  /** The handlers a button can reach. */
  datatype Event =
    | AllClearKey | ClearKey | BackspaceKey
    | MemoryClearKey | MemoryRecallKey | MemoryAddKey | MemorySubtractKey
    | UnaryKey(unary: string) | OperatorKey(binary: string) | EqualsKey
    | DotKey | DigitKey(digit: string) | Ignored

  /** The switch in actionPerformed: which handler a button label selects. */
  function Classify(cmd: string): Event
  {
    if cmd == "AC" then AllClearKey
    else if cmd == "C" then ClearKey
    else if cmd == "\U{2190}" then BackspaceKey
    else if cmd == "MC" then MemoryClearKey
    else if cmd == "MR" then MemoryRecallKey
    else if cmd == "M+" then MemoryAddKey
    else if cmd == "M-" then MemorySubtractKey
    else if cmd == "sqrt" || cmd == "%" || cmd == "1/x" || cmd == "+/-" then UnaryKey(cmd)
    else if cmd == "x^y" then OperatorKey("^")
    else if cmd == "+" || cmd == "-" || cmd == "*" || cmd == "/" then OperatorKey(cmd)
    else if cmd == "=" then EqualsKey
    else if cmd == "." then DotKey
    else if IsDigitLabel(cmd) then DigitKey(cmd)
    else Ignored
  }

  /** The call each case of the switch makes. */
  function Step(s: State, e: Event, floats: FloatModel): Outcome
  {
    match e
    case AllClearKey => Completed(AllClear(s))
    case ClearKey => Completed(ClearEntry(s))
    case BackspaceKey => Completed(Backspace(s))
    case MemoryClearKey => Completed(MemoryClear(s))
    case MemoryRecallKey => Completed(MemoryRecall(s))
    case MemoryAddKey => Completed(MemoryAdd(s))
    case MemorySubtractKey => Completed(MemorySubtract(s))
    case UnaryKey(op) => ApplyUnary(s, op, floats)
    case OperatorKey(op) => ApplyOp(s, op, floats)
    case EqualsKey => DoEquals(s, floats)
    case DotKey => Completed(AppendDot(s))
    case DigitKey(d) => Completed(AppendNumber(s, d))
    case Ignored => Completed(s)
  }

  /** actionPerformed: the handler a button label selects; other labels do nothing. */
  function ActionPerformed(s: State, cmd: string, floats: FloatModel): Outcome
  {
    Step(s, Classify(cmd), floats)
  }

  /** The state after a sequence of button presses, each one starting from where the
      previous left the fields. */
  function Run(s: State, cmds: seq<string>, floats: FloatModel): State
    decreases |cmds|
  {
    if |cmds| == 0 then s
    else Run(After(s, ActionPerformed(s, cmds[0], floats)), cmds[1..], floats)
  }
}
