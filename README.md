# Calculator button handler, modelled in Dafny

The app is a one-screen iOS calculator. Its only logic is the handler the view
runs on each button tap, `ContentView.didTap(button:)`. The handler updates
three stored properties of the view:

- `value`, the text on the display, which starts as `"0"`;
- `runningNumber`, the left operand captured when an operator is pressed, which starts as `0`;
- `currentOperation`, the pending operation, which starts as `.none`.

The buttons are the nineteen cases of the `CalcButton` enum. Each case's raw
value is its label. The pending operations are the cases of `Operation`.

The model has two modules.

- `SwiftInt` (`swift_int.dfy`) gives the three pieces of Swift's `Int` that the
  handler uses:
  - `ParseInt` is `Int(s)`: an optional sign, then one or more decimal digits, else nil.
  - `ParseOrZero` is `Int(s) ?? 0`.
  - `FormatInt` is the string interpolation `"\(n)"`.
  - `TruncDiv` is `/`, which truncates toward zero.

  The lemmas prove that `FormatInt` and `ParseInt` are inverse bijections
  between the integers and the canonical integer strings. A canonical string
  is an optional `-` followed by digits, with no leading zero except in `"0"`.
  Other lemmas characterise truncating division and say what appending a
  digit does to the number.
- `Calculator` (`calculator.dfy`) has these parts:
  - `CalcButton` and `Operation` are datatypes.
  - `CalcState` holds the three properties.
  - `Tap` is the handler as a pure function. It returns the next state, or
    `Trap(DivisionByZero)` where Swift would trap.
  - `Run` applies a sequence of taps.
  - `ContentView` is a class with the three fields. Its `DidTap` method assigns
    them in place through the same chain of branches as the Swift code, and is
    proved to follow `Tap`.

  The lemmas state each button's effect in terms of the number on the display.
  They also prove that the display is always a canonical integer string. Last,
  they replay sample sessions, for example 7 + 3 = showing `"10"`.

Behaviour kept exactly as the code has it:

- `=` is not idempotent: it keeps the operand and the operation, so a second
  `=` applies the operation again to the result, and 7 + 3 = = shows `"17"`
  (`Calculator.EqualRepeatsOperation`).
- The display never holds a decimal point, because the decimal, sign and
  percent buttons do nothing. So the display invariant is the canonical
  integer form.
- AC clears only the display. The pending operand and operation stay in
  place.
- Division by zero traps in Swift. `Tap` reports this as `Trap(DivisionByZero)`,
  and `ContentView.DidTap` requires that the press is not such a division.

## Model

| member | source | states |
|---|---|---|
| `SwiftInt.FormatInt` | ContentView.swift:164-167 | `"\(n)"` is canonical: an optional `-`, then digits with no leading zero except `"0"`. It starts with `-` exactly when `n` is negative |
| `SwiftInt.FormatNat` | ContentView.swift:164-167 | The decimal digits of a natural number have no leading zero, and the first digit is `'0'` only for 0 |
| `SwiftInt.DigitsValue` | ContentView.swift:162 | A digit string denotes 0 exactly when all its digits are `'0'` |
| `SwiftInt.ParseFormat` | ContentView.swift:162-167 | `Int("\(n)") == n` for every integer `n`, so a displayed result reads back as the same number |
| `SwiftInt.FormatParse` | ContentView.swift:139 | Every canonical string parses, and is the decimal description of the number it parses to |
| `SwiftInt.AppendDigit` | ContentView.swift:193 | Appending a digit to a canonical string other than `"0"` keeps it canonical. The number becomes ten times the old one plus the digit, the digit added away from zero |
| `SwiftInt.ParseRejectsMalformed` | ContentView.swift:139 | `Int(s)` is nil for the empty string, `"-"` and `"+"`, so `?? 0` gives 0 for them |
| `SwiftInt.ParseRejectsDecimalPoint` | ContentView.swift:139 | `Int(s)` is nil for every string that contains a `.`, so `?? 0` gives 0 for it |
| `SwiftInt.TruncDiv` | ContentView.swift:167 | `a / b` has the magnitude of `abs(a) / abs(b)` and is zero or has the sign of `a * b`: it truncates toward zero |
| `SwiftInt.TruncDivRemainder` | ContentView.swift:167 | The remainder `a - (a / b) * b` is smaller than `b` in magnitude and is zero or has the sign of `a` |
| `SwiftInt.TruncDivOddInDividend` | ContentView.swift:167 | `(-a) / b == -(a / b)`, which Euclidean division does not satisfy |
| `SwiftInt.TruncDivAgreesOnNaturals` | ContentView.swift:167 | On non-negative operands Swift's `/` equals Euclidean division |
| `SwiftInt.TruncDivDiffersFromEuclidean` | ContentView.swift:167 | `-7 / 2` is `-3` in Swift and `-4` in Euclidean division |
| `Calculator.CalcButton.Digit` | ContentView.swift:14-23 | Each number button's raw value is the one decimal digit it types |
| `Calculator.RawValueInjective` | ContentView.swift:13-32 | Two buttons have the same raw value exactly when they are the same button |
| `Calculator.OperationOf` | ContentView.swift:136-157 | An operator button selects a pending operation other than `.none` |
| `Calculator.OperationOfInjective` | ContentView.swift:136-157 | Two operator buttons select the same operation exactly when they are the same button |
| `Calculator.ContentView.constructor` | ContentView.swift:60-66 | The view starts with `value == "0"`, `runningNumber == 0` and `currentOperation == .none`, and the display invariant holds |
| `Calculator.ContentView.DidTap` | ContentView.swift:131-196 | Updating the three fields in place gives the state `Tap` computes for the press. A press that would divide by zero is excluded. A canonical display stays canonical |
| `Calculator.TapNumber` | ContentView.swift:187-194 | A digit replaces a display of `"0"` and is appended to any other display. The operand and operation do not change |
| `Calculator.TapNumberShifts` | ContentView.swift:187-194 | On a canonical display, a digit shows ten times the old number plus the digit, the digit added away from zero. For example, `"-5"` then 3 shows `"-53"` |
| `Calculator.TapOperator` | ContentView.swift:134-177 | `+ - x /` each record their operation, capture `Int(value) ?? 0` as the operand and reset the display to `"0"`. On a canonical display the captured number is exactly the one shown |
| `Calculator.TapEqual` | ContentView.swift:160-172 | `=` sets the display to the decimal string `"\(runningNumber ⊕ (Int(value) ?? 0))"` for the pending operation, which is canonical and parses back to that number, with `/` truncating and a non-zero divisor. It keeps the operand and the operation. With `.none` pending it changes nothing |
| `Calculator.TapTrapsExactly` | ContentView.swift:167 | A press traps exactly when it is `=`, the pending operation is division and the display reads as 0 |
| `Calculator.TapClear` | ContentView.swift:180-181 | AC sets the display to `"0"` and keeps the pending operand and operation |
| `Calculator.TapInert` | ContentView.swift:183-184 | The decimal, sign and percent buttons change nothing |
| `Calculator.TapPreservesValid` | ContentView.swift:131-196 | Every press that does not trap keeps the display a canonical integer string |
| `Calculator.RunPreservesValid` | ContentView.swift:131-196 | Any sequence of presses keeps the display canonical |
| `Calculator.DisplayAlwaysParses` | ContentView.swift:60-196 | From the initial state, after any presses, the display is canonical, so `Int(value)` never falls back to 0 |
| `Calculator.TypingDigits` | ContentView.swift:187-194 | Typing digits on a display of `"0"` shows the number they spell, with leading zeros dropped. The operand and operation do not change |
| `Calculator.AddSession` | ContentView.swift:164 | 7 + 3 = shows `"10"` |
| `Calculator.SubtractSession` | ContentView.swift:165 | 9 - 4 = shows `"5"` |
| `Calculator.MultiplySession` | ContentView.swift:166 | 6 x 7 = shows `"42"` |
| `Calculator.DivideSession` | ContentView.swift:167 | 8 / 2 = shows `"4"` |
| `Calculator.DivisionByZeroSession` | ContentView.swift:167 | 5 / 0 = traps and does not show a number |
| `Calculator.EqualRepeatsOperation` | ContentView.swift:160-177 | 7 + 3 = = shows `"17"`: `=` is not idempotent |
| `Calculator.ClearKeepsPendingOperation` | ContentView.swift:180-181 | 7 + AC 3 = still shows `"10"` |
| `Calculator.NegativeResultSession` | ContentView.swift:165 | 3 - 8 = shows `"-5"` |
| `Calculator.NegativeOperandTruncates` | ContentView.swift:162-167 | After 3 - 8 =, pressing / 2 = reads `"-5"` back as the operand and shows `"-2"`, truncated toward zero |

## Left out

- The SwiftUI `body`, the `buttons` grid, the `ForEach` layout and the previews (ContentView.swift:70-126, 214-218). They only render the view and forward taps to `didTap`.
- `buttonWidth` and `buttonHeight` (ContentView.swift:200-211). They are floating-point arithmetic over the device's screen bounds.
- `buttonColor` (ContentView.swift:36-48). It only maps buttons to display colours.
- Fixed-width `Int`: the model uses unbounded integers. In Swift, `+`, `-` and `*` trap on 64-bit overflow, and so does `/` on `Int.min / -1`, which the app can reach (a pending division with `Int.min` captured, then `Int.max` typed and `=` pressed twice). `Calculator.TapTrapsExactly` is therefore exact only for the model's unbounded integers, where a zero divisor is the only trap. `Int(value)` is nil for a digit string outside the 64-bit range, so `?? 0` then yields 0. The model has neither behaviour.
- Calculator.DisplayAlwaysParses: holds only for unbounded integers. In Swift, once the typed digits exceed `Int.max` (9223372036854775807), the display no longer parses.
- Swift's standard library is not part of this model. `ParseInt`, `FormatInt` and `TruncDiv` follow the documented behaviour of `Int.init?(_:)`, of integer description and of `Int./`.
- SwiftUI's `@State` storage and view re-rendering are not modelled. The taps arrive one at a time on the main thread, and the model treats them as sequential calls.
