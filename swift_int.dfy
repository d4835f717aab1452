/**
 * The three pieces of Swift's `Int` that the calculator relies on:
 *  - `Int(s)`, the failable base-10 initializer from a string,
 *  - `"\(n)"`, string interpolation of an integer (its decimal description),
 *  - `a / b`, integer division, which truncates toward zero and traps on
 *    a zero divisor.
 * Integers are unbounded here: Swift's 64-bit overflow trap, and the nil
 * that `Int(s)` returns for out-of-range digit strings, are not modelled.
 */
module SwiftInt {

  datatype Option<T> = None | Some(value: T)

  predicate IsDigit(c: char) {
    '0' <= c <= '9'
  }

  predicate AllDigits(s: string) {
    forall i :: 0 <= i < |s| ==> IsDigit(s[i])
  }

  function DigitValue(c: char): (d: nat)
    requires IsDigit(c)
    ensures d < 10
  {
    c as int - '0' as int
  }

  function DigitChar(d: nat): (c: char)
    requires d < 10
    ensures IsDigit(c) && DigitValue(c) == d
  {
    ('0' as int + d) as char
  }

  /** The number a string of decimal digits denotes (leading zeros allowed). */
  function DigitsValue(s: string): (n: nat)
    requires AllDigits(s)
    ensures n == 0 <==> forall i :: 0 <= i < |s| ==> s[i] == '0'
  {
    if s == [] then 0
    else
      var init := s[..|s| - 1];
      assert forall i :: 0 <= i < |init| ==> init[i] == s[i];
      DigitsValue(init) * 10 + DigitValue(s[|s| - 1])
  }

  /** A digit string without superfluous leading zeros: "0", or digits not starting with '0'. */
  predicate IsMagnitude(s: string) {
    |s| > 0 && AllDigits(s) && (s[0] == '0' ==> s == "0")
  }

  /** What `"\(n)"` can produce: a magnitude, or '-' followed by a non-zero magnitude. */
  predicate IsCanonical(s: string) {
    IsMagnitude(s) || (|s| > 1 && s[0] == '-' && IsMagnitude(s[1..]) && s[1] != '0')
  }

  /** Decimal digits of a natural number, most significant first. */
  function FormatNat(n: nat): (r: string)
    ensures IsMagnitude(r)
    ensures r[0] == '0' <==> n == 0
  {
    if n < 10 then [DigitChar(n)]
    else FormatNat(n / 10) + [DigitChar(n % 10)]
  }

  /** Swift's `"\(n)"` for an `Int`. */
  function FormatInt(n: int): (r: string)
    ensures IsCanonical(r)
    ensures r[0] == '-' <==> n < 0
  {
    if n < 0 then "-" + FormatNat(-n) else FormatNat(n)
  }

  /**
   * Swift's `Int(s)` in base 10: an optional '+' or '-' followed by one or
   * more decimal digits; anything else (the empty string, a lone sign, any
   * other character) yields nil.
   */
  function ParseInt(s: string): Option<int> {
    if |s| > 0 && (s[0] == '-' || s[0] == '+') then
      var m := s[1..];
      if |m| > 0 && AllDigits(m) then
        var n: int := DigitsValue(m);
        Some(if s[0] == '-' then -n else n)
      else None
    else if |s| > 0 && AllDigits(s) then Some(DigitsValue(s))
    else None
  }

  /** `Int(s) ?? 0`. */
  function ParseOrZero(s: string): int {
    match ParseInt(s)
    case Some(n) => n
    case None => 0
  }

  function Abs(n: int): nat {
    if n < 0 then -n else n
  }

  /**
   * Swift's `a / b` on `Int`: the quotient truncated toward zero, so its
   * magnitude is the quotient of the magnitudes and its sign is the product
   * of the operands' signs (Dafny's own `/` is Euclidean instead).
   */
  function TruncDiv(a: int, b: int): (q: int)
    requires b != 0
    ensures Abs(q) == Abs(a) / Abs(b)
    ensures q == 0 || (q < 0 <==> (a < 0) != (b < 0))
  {
    var divisor := Abs(b);
    assert divisor > 0;
    var q0: int := Abs(a) / divisor;
    if (a < 0) == (b < 0) then q0 else -q0
  }

  /**
   * The remainder `a - TruncDiv(a, b) * b` that Swift's `%` would give is
   * smaller than the divisor in magnitude and is zero or has the sign of
   * the dividend: the defining property of division truncated toward zero.
   */
  lemma TruncDivRemainder(a: int, b: int)
    requires b != 0
    ensures var r := a - TruncDiv(a, b) * b;
      && Abs(r) < Abs(b)
      && (r == 0 || (r < 0 <==> a < 0))
  {
  }

  lemma TruncDivOddInDividend(a: int, b: int)
    requires b != 0
    ensures TruncDiv(-a, b) == -TruncDiv(a, b)
  {
  }

  lemma TruncDivAgreesOnNaturals(a: nat, b: nat)
    requires b != 0
    ensures TruncDiv(a, b) == a / b
  {
  }

  /** Dafny's `/` and Swift's `/` differ on a negative dividend. */
  lemma TruncDivDiffersFromEuclidean()
    ensures TruncDiv(-7, 2) == -3 && -7 / 2 == -4
  {
  }

  // ---------------------------------------------------------------------
  // Round trips between FormatInt and ParseInt

  lemma {:induction false} DigitsOfFormatNat(n: nat)
    ensures DigitsValue(FormatNat(n)) == n
  {
    var r := FormatNat(n);
    if n >= 10 {
      DigitsOfFormatNat(n / 10);
      assert r[..|r| - 1] == FormatNat(n / 10);
    }
  }

  lemma {:induction false} FormatNatOfDigits(s: string)
    requires IsMagnitude(s)
    ensures FormatNat(DigitsValue(s)) == s
  {
    var init := s[..|s| - 1];
    var d := DigitValue(s[|s| - 1]);
    if init == [] {
      assert s == [DigitChar(d)];
    } else {
      assert IsMagnitude(init) && init[0] == s[0] && s[0] != '0';
      var m := DigitsValue(init);
      assert m != 0;
      FormatNatOfDigits(init);
      assert DigitsValue(s) / 10 == m && DigitsValue(s) % 10 == d;
      assert s == init + [DigitChar(d)];
    }
  }

  /** Parsing the decimal description of any integer gives the integer back. */
  lemma ParseFormat(n: int)
    ensures ParseInt(FormatInt(n)) == Some(n)
    ensures ParseOrZero(FormatInt(n)) == n
  {
    var r := FormatInt(n);
    if n < 0 {
      assert r[1..] == FormatNat(-n);
      DigitsOfFormatNat(-n);
    } else {
      DigitsOfFormatNat(n);
    }
  }

  /** Every canonical string parses, and is the decimal description of what it parses to. */
  lemma FormatParse(s: string)
    requires IsCanonical(s)
    ensures ParseInt(s).Some?
    ensures FormatInt(ParseInt(s).value) == s
  {
    if s[0] == '-' {
      var m := s[1..];
      FormatNatOfDigits(m);
      assert DigitsValue(m) != 0;
      assert s == "-" + m;
    } else {
      FormatNatOfDigits(s);
    }
  }

  /**
   * Appending a digit to a canonical string other than "0" keeps it
   * canonical and shifts its value one decimal place, the new digit added
   * away from zero.
   */
  lemma AppendDigit(s: string, c: char)
    requires IsCanonical(s) && s != "0" && IsDigit(c)
    ensures IsCanonical(s + [c])
    ensures ParseOrZero(s + [c]) == ShiftIn(ParseOrZero(s), DigitValue(c))
  {
    var t := s + [c];
    if s[0] == '-' {
      assert t[1..] == s[1..] + [c];
      assert t[1..][..|t[1..]| - 1] == s[1..];
    } else {
      assert t[..|t| - 1] == s;
    }
  }

  /** The number shown after typing digit `d` behind the number `v`. */
  function ShiftIn(v: int, d: nat): int {
    if v < 0 then v * 10 - d else v * 10 + d
  }

  /** `Int(s)` is nil for the empty string and a lone sign, so `?? 0` reads them as 0. */
  lemma ParseRejectsMalformed()
    ensures ParseInt("") == None && ParseInt("-") == None && ParseInt("+") == None
    ensures ParseOrZero("") == 0 && ParseOrZero("-") == 0 && ParseOrZero("+") == 0
  {
  }

  /** `Int(s)` is nil for every string holding a decimal point, so `?? 0` reads it as 0. */
  lemma ParseRejectsDecimalPoint(s: string)
    requires '.' in s
    ensures ParseInt(s) == None && ParseOrZero(s) == 0
  {
    var i :| 0 <= i < |s| && s[i] == '.';
    assert !IsDigit(s[i]);
    if i > 0 {
      assert s[1..][i - 1] == '.';
      assert !IsDigit(s[1..][i - 1]);
    }
  }
}
