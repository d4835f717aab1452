/**
 * The calculator screen: its buttons, the pending operation, the three
 * pieces of state the view keeps (the display text, the captured left
 * operand and the pending operation) and the button-press handler that
 * updates them.
 *
 * `Tap` is the handler as a function from a state and a button to the next
 * state, or to the trap Swift raises on a division by zero; `ContentView`
 * is the view object whose `DidTap` assigns its fields in place and is
 * proved to follow `Tap`. The lemmas state what each button does in terms
 * of the numbers on the display.
 */
module Calculator {
  import opened SwiftInt

  /** The buttons on the screen; `RawValue` is the label each carries. */
  datatype CalcButton =
    | One | Two | Three | Four | Five | Six | Seven | Eight | Nine | Zero
    | Add | Subtract | Divide | Multiply | Equal | Clear | Percent | Decimal | Negative
  {
    function RawValue(): string {
      match this
      case One => "1"
      case Two => "2"
      case Three => "3"
      case Four => "4"
      case Five => "5"
      case Six => "6"
      case Seven => "7"
      case Eight => "8"
      case Nine => "9"
      case Zero => "0"
      case Add => "+"
      case Subtract => "-"
      case Divide => "/"
      case Multiply => "x"
      case Equal => "="
      case Clear => "AC"
      case Percent => "%"
      case Decimal => "."
      case Negative => "-/+"
    }

    predicate IsNumber() {
      One? || Two? || Three? || Four? || Five? || Six? || Seven? || Eight? || Nine? || Zero?
    }

    predicate IsOperator() {
      Add? || Subtract? || Multiply? || Divide?
    }

    /** The digit a number button types: its label is that one decimal digit. */
    function Digit(): (d: nat)
      requires IsNumber()
      ensures d < 10 && RawValue() == [DigitChar(d)]
    {
      match this
      case One => 1
      case Two => 2
      case Three => 3
      case Four => 4
      case Five => 5
      case Six => 6
      case Seven => 7
      case Eight => 8
      case Nine => 9
      case Zero => 0
    }
  }

  /** Distinct buttons carry distinct labels, as a String-backed enum must. */
  lemma RawValueInjective(b: CalcButton, c: CalcButton)
    ensures b.RawValue() == c.RawValue() <==> b == c
  {
  }

  datatype Operation = Add | Subtract | Divide | Multiply | None

  /** The operation an operator button selects. */
  function OperationOf(b: CalcButton): (op: Operation)
    requires b.IsOperator()
    ensures op != Operation.None
  {
    match b
    case Add => Operation.Add
    case Subtract => Operation.Subtract
    case Multiply => Operation.Multiply
    case Divide => Operation.Divide
  }

  lemma OperationOfInjective(b: CalcButton, c: CalcButton)
    requires b.IsOperator() && c.IsOperator()
    ensures OperationOf(b) == OperationOf(c) <==> b == c
  {
  }

  /** The view's three stored properties. */
  datatype CalcState = CalcState(value: string, runningNumber: int, currentOperation: Operation)

  /** The state the view starts in. */
  const Initial := CalcState("0", 0, Operation.None)

  datatype Fault = DivisionByZero

  /** What a button press leads to: the next state, or a runtime trap. */
  datatype Outcome = Ok(state: CalcState) | Trap(fault: Fault)

  /** The presses that make Swift trap: `=` with a pending division by zero. */
  predicate Traps(s: CalcState, b: CalcButton) {
    b == CalcButton.Equal && s.currentOperation == Operation.Divide && ParseOrZero(s.value) == 0
  }

  /** The `=` branch: apply the pending operation to the captured and the displayed number. */
  function Evaluate(s: CalcState): Outcome {
    var runningValue := s.runningNumber;
    var currentValue := ParseOrZero(s.value);
    match s.currentOperation
    case Add => Ok(s.(value := FormatInt(runningValue + currentValue)))
    case Subtract => Ok(s.(value := FormatInt(runningValue - currentValue)))
    case Multiply => Ok(s.(value := FormatInt(runningValue * currentValue)))
    case Divide =>
      if currentValue == 0 then Trap(DivisionByZero)
      else Ok(s.(value := FormatInt(TruncDiv(runningValue, currentValue))))
    case None => Ok(s)
  }

  /** The button-press handler. */
  function Tap(s: CalcState, b: CalcButton): Outcome {
    match b
    case Add | Subtract | Multiply | Divide =>
      Ok(CalcState("0", ParseOrZero(s.value), OperationOf(b)))
    case Equal => Evaluate(s)
    case Clear => Ok(s.(value := "0"))
    case Decimal | Negative | Percent => Ok(s)
    case _ =>
      var number := b.RawValue();
      Ok(s.(value := if s.value == "0" then number else s.value + number))
  }

  /** A sequence of presses, handled one after the other; a trap ends the run. */
  function Run(s: CalcState, presses: seq<CalcButton>): Outcome {
    if presses == [] then Ok(s)
    else
      match Run(s, presses[..|presses| - 1])
      case Trap(f) => Trap(f)
      case Ok(t) => Tap(t, presses[|presses| - 1])
  }

  /** The display holds a well-formed integer from the start. */
  ghost predicate Valid(s: CalcState) {
    IsCanonical(s.value)
  }

  // ---------------------------------------------------------------------
  // The view object

  class ContentView {
    var value: string
    var runningNumber: int
    var currentOperation: Operation

    function State(): CalcState
      reads this
    {
      CalcState(value, runningNumber, currentOperation)
    }

    constructor ()
      ensures State() == Initial && Valid(State())
    {
      value := "0";
      runningNumber := 0;
      currentOperation := Operation.None;
    }

    /** Handles one press; a pending division by zero traps in Swift, so callers must avoid it. */
    method DidTap(button: CalcButton)
      requires !Traps(State(), button)
      modifies this
      ensures Tap(old(State()), button) == Ok(State())
      ensures old(Valid(State())) ==> Valid(State())
    {
      ghost var before := State();
      if button.IsOperator() || button == CalcButton.Equal {
        if button == CalcButton.Add {
          currentOperation := Operation.Add;
          runningNumber := ParseOrZero(value);
        } else if button == CalcButton.Subtract {
          currentOperation := Operation.Subtract;
          runningNumber := ParseOrZero(value);
        } else if button == CalcButton.Multiply {
          currentOperation := Operation.Multiply;
          runningNumber := ParseOrZero(value);
        } else if button == CalcButton.Divide {
          currentOperation := Operation.Divide;
          runningNumber := ParseOrZero(value);
        } else if button == CalcButton.Equal {
          var runningValue := runningNumber;
          var currentValue := ParseOrZero(value);
          match currentOperation
          case Add => value := FormatInt(runningValue + currentValue);
          case Subtract => value := FormatInt(runningValue - currentValue);
          case Multiply => value := FormatInt(runningValue * currentValue);
          case Divide => value := FormatInt(TruncDiv(runningValue, currentValue));
          case None =>
        }
        if button != CalcButton.Equal {
          value := "0";
        }
      } else if button == CalcButton.Clear {
        value := "0";
      } else if button == CalcButton.Decimal || button == CalcButton.Negative || button == CalcButton.Percent {
      } else {
        var number := button.RawValue();
        if value == "0" {
          value := number;
        } else {
          value := value + number;
        }
      }
      assert Tap(before, button) == Ok(State());
      if Valid(before) {
        TapPreservesValid(before, button);
      }
    }
  }

  // ---------------------------------------------------------------------
  // What each button does

  /** A digit replaces a display of "0" and is appended to any other; nothing else changes. */
  lemma TapNumber(s: CalcState, b: CalcButton)
    requires b.IsNumber()
    ensures Tap(s, b).Ok?
    ensures var t := Tap(s, b).state;
      && t.runningNumber == s.runningNumber && t.currentOperation == s.currentOperation
      && t.value == (if s.value == "0" then [DigitChar(b.Digit())] else s.value + [DigitChar(b.Digit())])
  {
  }

  /**
   * On a well-formed display a digit shifts the displayed number one decimal
   * place and adds the digit away from zero ("-5" then 3 shows "-53").
   */
  lemma TapNumberShifts(s: CalcState, b: CalcButton)
    requires Valid(s) && b.IsNumber()
    ensures Tap(s, b) == Ok(s.(value := FormatInt(ShiftIn(ParseOrZero(s.value), b.Digit()))))
  {
    var c := DigitChar(b.Digit());
    if s.value == "0" {
      ParseFormat(0);
      assert FormatInt(b.Digit()) == [c];
    } else {
      AppendDigit(s.value, c);
      FormatParse(s.value + [c]);
    }
  }

  /**
   * An operator records its operation and captures the displayed number
   * (0 if the display does not parse) as the left operand, then clears the
   * display to "0".
   */
  lemma TapOperator(s: CalcState, b: CalcButton)
    requires b.IsOperator()
    ensures Tap(s, b) == Ok(CalcState("0", ParseOrZero(s.value), OperationOf(b)))
    ensures Valid(s) ==> FormatInt(Tap(s, b).state.runningNumber) == s.value
  {
    if Valid(s) {
      FormatParse(s.value);
    }
  }

  /**
   * `=` shows the pending operation applied to the captured number and the
   * displayed one; it keeps both the captured number and the operation, and
   * with no pending operation it changes nothing.
   */
  lemma TapEqual(s: CalcState)
    requires !Traps(s, CalcButton.Equal)
    ensures Tap(s, CalcButton.Equal).Ok?
    ensures var t := Tap(s, CalcButton.Equal).state;
      var x, y := s.runningNumber, ParseOrZero(s.value);
      && t.runningNumber == x && t.currentOperation == s.currentOperation
      && (s.currentOperation == Operation.Add ==> t.value == FormatInt(x + y) && ParseInt(t.value) == Some(x + y))
      && (s.currentOperation == Operation.Subtract ==> t.value == FormatInt(x - y) && ParseInt(t.value) == Some(x - y))
      && (s.currentOperation == Operation.Multiply ==> t.value == FormatInt(x * y) && ParseInt(t.value) == Some(x * y))
      && (s.currentOperation == Operation.Divide ==>
            y != 0 && t.value == FormatInt(TruncDiv(x, y)) && ParseInt(t.value) == Some(TruncDiv(x, y)))
      && (s.currentOperation == Operation.None ==> t == s)
      && (s.currentOperation != Operation.None ==> IsCanonical(t.value))
  {
    var x, y := s.runningNumber, ParseOrZero(s.value);
    match s.currentOperation
    case Add => ParseFormat(x + y);
    case Subtract => ParseFormat(x - y);
    case Multiply => ParseFormat(x * y);
    case Divide => ParseFormat(TruncDiv(x, y));
    case None =>
  }

  /** A press traps exactly when it is `=` on a pending division and the display reads as 0. */
  lemma TapTrapsExactly(s: CalcState, b: CalcButton)
    ensures Tap(s, b).Trap? <==> Traps(s, b)
  {
  }

  /** AC clears the display only; the captured number and the operation stay pending. */
  lemma TapClear(s: CalcState)
    ensures Tap(s, CalcButton.Clear) == Ok(CalcState("0", s.runningNumber, s.currentOperation))
  {
  }

  /** The decimal point, sign and percent buttons change nothing. */
  lemma TapInert(s: CalcState, b: CalcButton)
    requires b == CalcButton.Decimal || b == CalcButton.Negative || b == CalcButton.Percent
    ensures Tap(s, b) == Ok(s)
  {
  }

  // ---------------------------------------------------------------------
  // The display invariant

  /** Every press that does not trap keeps the display a well-formed integer. */
  lemma TapPreservesValid(s: CalcState, b: CalcButton)
    requires Valid(s) && Tap(s, b).Ok?
    ensures Valid(Tap(s, b).state)
  {
    if b.IsNumber() {
      TapNumberShifts(s, b);
    }
  }

  lemma {:induction false} RunPreservesValid(s: CalcState, presses: seq<CalcButton>)
    requires Valid(s) && Run(s, presses).Ok?
    ensures Valid(Run(s, presses).state)
  {
    if presses != [] {
      var init := presses[..|presses| - 1];
      RunPreservesValid(s, init);
      TapPreservesValid(Run(s, init).state, presses[|presses| - 1]);
    }
  }

  /**
   * From the initial state, whatever is pressed, the display is a
   * well-formed integer, so `Int(value) ?? 0` never falls back to its default.
   */
  lemma DisplayAlwaysParses(presses: seq<CalcButton>)
    requires Run(Initial, presses).Ok?
    ensures Valid(Run(Initial, presses).state)
    ensures ParseInt(Run(Initial, presses).state.value).Some?
  {
    RunPreservesValid(Initial, presses);
    FormatParse(Run(Initial, presses).state.value);
  }

  // ---------------------------------------------------------------------
  // Typing numbers

  /** The number a sequence of number buttons spells, most significant first. */
  function Typed(ds: seq<CalcButton>): (n: nat)
    requires forall i :: 0 <= i < |ds| ==> ds[i].IsNumber()
  {
    if ds == [] then 0 else Typed(ds[..|ds| - 1]) * 10 + ds[|ds| - 1].Digit()
  }

  /**
   * Typing digits on a display of "0" shows the number they spell, leading
   * zeros dropped, and leaves the pending operand and operation alone.
   */
  lemma {:induction false} TypingDigits(s: CalcState, ds: seq<CalcButton>)
    requires s.value == "0"
    requires forall i :: 0 <= i < |ds| ==> ds[i].IsNumber()
    ensures Run(s, ds) == Ok(s.(value := FormatInt(Typed(ds))))
  {
    if ds != [] {
      var init := ds[..|ds| - 1];
      TypingDigits(s, init);
      var t := s.(value := FormatInt(Typed(init)));
      TapNumberShifts(t, ds[|ds| - 1]);
      ParseFormat(Typed(init));
    }
  }

  // ---------------------------------------------------------------------
  // Sessions

  /** A run reaches the last of a chain of states each press leads to from the one before. */
  lemma {:induction false} RunSteps(s: CalcState, presses: seq<CalcButton>, states: seq<CalcState>)
    requires |states| == |presses| + 1 && states[0] == s
    requires forall i :: 0 <= i < |presses| ==> Tap(states[i], presses[i]) == Ok(states[i + 1])
    ensures Run(s, presses) == Ok(states[|presses|])
  {
    if presses != [] {
      RunSteps(s, presses[..|presses| - 1], states[..|presses|]);
    }
  }

  /** Pressing one sequence of buttons and then another is pressing their concatenation. */
  lemma {:induction false} RunAppend(s: CalcState, first: seq<CalcButton>, second: seq<CalcButton>)
    ensures Run(s, first + second) == match Run(s, first)
      case Trap(f) => Trap(f)
      case Ok(t) => Run(t, second)
  {
    if second == [] {
      assert first + second == first;
    } else {
      var init := second[..|second| - 1];
      RunAppend(s, first, init);
      assert (first + second)[..|first + second| - 1] == first + init;
    }
  }

  /** 7 + 3 = shows "10". */
  lemma AddSession()
    ensures Run(Initial, [CalcButton.Seven, CalcButton.Add, CalcButton.Three, CalcButton.Equal])
      == Ok(CalcState("10", 7, Operation.Add))
  {
    assert FormatInt(10) == "10";
    RunSteps(Initial, [CalcButton.Seven, CalcButton.Add, CalcButton.Three, CalcButton.Equal],
      [Initial, CalcState("7", 0, Operation.None), CalcState("0", 7, Operation.Add),
       CalcState("3", 7, Operation.Add), CalcState("10", 7, Operation.Add)]);
  }

  /** 9 - 4 = shows "5". */
  lemma SubtractSession()
    ensures Run(Initial, [CalcButton.Nine, CalcButton.Subtract, CalcButton.Four, CalcButton.Equal])
      == Ok(CalcState("5", 9, Operation.Subtract))
  {
    RunSteps(Initial, [CalcButton.Nine, CalcButton.Subtract, CalcButton.Four, CalcButton.Equal],
      [Initial, CalcState("9", 0, Operation.None), CalcState("0", 9, Operation.Subtract),
       CalcState("4", 9, Operation.Subtract), CalcState("5", 9, Operation.Subtract)]);
  }

  /** 6 x 7 = shows "42". */
  lemma MultiplySession()
    ensures Run(Initial, [CalcButton.Six, CalcButton.Multiply, CalcButton.Seven, CalcButton.Equal])
      == Ok(CalcState("42", 6, Operation.Multiply))
  {
    assert FormatInt(42) == "42";
    RunSteps(Initial, [CalcButton.Six, CalcButton.Multiply, CalcButton.Seven, CalcButton.Equal],
      [Initial, CalcState("6", 0, Operation.None), CalcState("0", 6, Operation.Multiply),
       CalcState("7", 6, Operation.Multiply), CalcState("42", 6, Operation.Multiply)]);
  }

  /** 8 / 2 = shows "4". */
  lemma DivideSession()
    ensures Run(Initial, [CalcButton.Eight, CalcButton.Divide, CalcButton.Two, CalcButton.Equal])
      == Ok(CalcState("4", 8, Operation.Divide))
  {
    RunSteps(Initial, [CalcButton.Eight, CalcButton.Divide, CalcButton.Two, CalcButton.Equal],
      [Initial, CalcState("8", 0, Operation.None), CalcState("0", 8, Operation.Divide),
       CalcState("2", 8, Operation.Divide), CalcState("4", 8, Operation.Divide)]);
  }

  /** 5 / 0 = traps rather than showing a number. */
  lemma DivisionByZeroSession()
    ensures Run(Initial, [CalcButton.Five, CalcButton.Divide, CalcButton.Zero, CalcButton.Equal])
      == Trap(DivisionByZero)
  {
    var p := [CalcButton.Five, CalcButton.Divide, CalcButton.Zero, CalcButton.Equal];
    RunSteps(Initial, p[..3],
      [Initial, CalcState("5", 0, Operation.None), CalcState("0", 5, Operation.Divide),
       CalcState("0", 5, Operation.Divide)]);
  }

  /**
   * A second `=` applies the pending operation again to the result, so `=`
   * is not idempotent: 7 + 3 = shows "10", and one more = shows "17".
   */
  lemma EqualRepeatsOperation()
    ensures Run(Initial, [CalcButton.Seven, CalcButton.Add, CalcButton.Three, CalcButton.Equal, CalcButton.Equal])
      == Ok(CalcState("17", 7, Operation.Add))
  {
    assert FormatInt(10) == "10" && FormatInt(17) == "17";
    RunSteps(Initial, [CalcButton.Seven, CalcButton.Add, CalcButton.Three, CalcButton.Equal, CalcButton.Equal],
      [Initial, CalcState("7", 0, Operation.None), CalcState("0", 7, Operation.Add),
       CalcState("3", 7, Operation.Add), CalcState("10", 7, Operation.Add), CalcState("17", 7, Operation.Add)]);
  }

  /** AC between operator and operand keeps the pending addition: 7 + AC 3 = shows "10". */
  lemma ClearKeepsPendingOperation()
    ensures Run(Initial, [CalcButton.Seven, CalcButton.Add, CalcButton.Clear, CalcButton.Three, CalcButton.Equal])
      == Ok(CalcState("10", 7, Operation.Add))
  {
    assert FormatInt(10) == "10";
    RunSteps(Initial, [CalcButton.Seven, CalcButton.Add, CalcButton.Clear, CalcButton.Three, CalcButton.Equal],
      [Initial, CalcState("7", 0, Operation.None), CalcState("0", 7, Operation.Add), CalcState("0", 7, Operation.Add),
       CalcState("3", 7, Operation.Add), CalcState("10", 7, Operation.Add)]);
  }

  /** 3 - 8 = shows the negative result "-5". */
  lemma NegativeResultSession()
    ensures Run(Initial, [CalcButton.Three, CalcButton.Subtract, CalcButton.Eight, CalcButton.Equal])
      == Ok(CalcState("-5", 3, Operation.Subtract))
  {
    assert FormatInt(-5) == "-5";
    RunSteps(Initial, [CalcButton.Three, CalcButton.Subtract, CalcButton.Eight, CalcButton.Equal],
      [Initial, CalcState("3", 0, Operation.None), CalcState("0", 3, Operation.Subtract),
       CalcState("8", 3, Operation.Subtract), CalcState("-5", 3, Operation.Subtract)]);
  }

  /**
   * A negative result is read back as an operand and divided with
   * truncation toward zero: after 3 - 8 = shows "-5", / 2 = shows "-2"
   * (Euclidean division would show "-3").
   */
  lemma NegativeOperandTruncates()
    ensures Run(Initial, [CalcButton.Three, CalcButton.Subtract, CalcButton.Eight, CalcButton.Equal,
                          CalcButton.Divide, CalcButton.Two, CalcButton.Equal])
      == Ok(CalcState("-2", -5, Operation.Divide))
  {
    var first := [CalcButton.Three, CalcButton.Subtract, CalcButton.Eight, CalcButton.Equal];
    var second := [CalcButton.Divide, CalcButton.Two, CalcButton.Equal];
    var minusFive := CalcState("-5", 3, Operation.Subtract);
    assert Run(minusFive, second) == Ok(CalcState("-2", -5, Operation.Divide)) by {
      assert Tap(minusFive, CalcButton.Divide) == Ok(CalcState("0", -5, Operation.Divide)) by {
        ParseFormat(-5);
      }
      assert Tap(CalcState("2", -5, Operation.Divide), CalcButton.Equal) == Ok(CalcState("-2", -5, Operation.Divide)) by {
        assert TruncDiv(-5, 2) == -2;
        assert FormatInt(-2) == "-2";
      }
      RunSteps(minusFive, second,
        [minusFive, CalcState("0", -5, Operation.Divide), CalcState("2", -5, Operation.Divide),
         CalcState("-2", -5, Operation.Divide)]);
    }
    NegativeResultSession();
    RunAppend(Initial, first, second);
    assert first + second == [CalcButton.Three, CalcButton.Subtract, CalcButton.Eight, CalcButton.Equal,
                              CalcButton.Divide, CalcButton.Two, CalcButton.Equal];
  }
}
