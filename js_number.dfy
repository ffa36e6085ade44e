/**
 * ECMAScript's `Number(string)` followed by `Number.isFinite`, on exact values:
 * the string grammar StringNumericLiteral (surrounding whitespace, an empty
 * string, signed decimal literals with fraction and exponent, `0x`/`0o`/`0b`
 * integers, `Infinity`) with the value computed as an exact real.
 */
module JsNumber {
  import opened Wrappers
  import opened JsText

  predicate IsDigit(c: char) {
    '0' <= c <= '9'
  }

  predicate AllDigits(s: string) {
    forall i :: 0 <= i < |s| ==> IsDigit(s[i])
  }

  function DigitValue(c: char): nat
    requires IsDigit(c)
  {
    c as int - '0' as int
  }

  /** The value of a decimal digit string, most significant digit first. */
  function DigitsValue(d: string): nat
    requires AllDigits(d)
    decreases |d|
  {
    if d == [] then 0 else 10 * DigitsValue(d[..|d| - 1]) + DigitValue(d[|d| - 1])
  }

  /** The length of the run of decimal digits that starts at `p`. */
  function DigitRun(s: string, p: nat): (n: nat)
    requires p <= |s|
    ensures p + n <= |s| && AllDigits(s[p..p + n])
    ensures p + n == |s| || !IsDigit(s[p + n])
    ensures AllDigits(s[p..]) ==> p + n == |s|
    decreases |s| - p
  {
    if p < |s| && IsDigit(s[p]) then
      var n := DigitRun(s, p + 1);
      assert s[p..p + 1 + n] == [s[p]] + s[p + 1..p + 1 + n];
      1 + n
    else 0
  }

  function Pow10(n: nat): (r: nat)
    ensures r >= 1
  {
    if n == 0 then 1 else 10 * Pow10(n - 1)
  }

  /** Ten to the power `e`, for any integer `e`, as an exact real. */
  function Scale(e: int): (r: real)
    ensures r > 0.0
  {
    if e >= 0 then Pow10(e) as real else 1.0 / (Pow10(-e) as real)
  }

  /** The value of `c` as a digit in base `radix` (2, 8 or 16; hex digits in either case). */
  function RadixDigit(c: char, radix: nat): (r: Option<nat>)
    ensures r.Some? ==> r.value < radix
  {
    var v :=
      if '0' <= c <= '9' then c as int - '0' as int
      else if 'a' <= c <= 'f' then c as int - 'a' as int + 10
      else if 'A' <= c <= 'F' then c as int - 'A' as int + 10
      else radix;
    if 0 <= v < radix then Some(v) else None
  }

  /** The value of a non-empty run of base-`radix` digits; None when a character is not one. */
  function RadixValue(d: string, radix: nat): Option<nat>
    decreases |d|
  {
    if |d| == 0 then None
    else
      var last := RadixDigit(d[|d| - 1], radix);
      if last.None? then None
      else if |d| == 1 then last
      else match RadixValue(d[..|d| - 1], radix)
        case None => None
        case Some(high) => Some(high * radix + last.value)
  }

  /** An optional ExponentPart that spans all of `x`: nothing, or `e`/`E`, an optional sign and digits. */
  function Exponent(x: string): Option<int>
  {
    if x == [] then Some(0)
    else if x[0] != 'e' && x[0] != 'E' then None
    else
      var signed := |x| > 1 && (x[1] == '+' || x[1] == '-');
      var digits := if signed then x[2..] else x[1..];
      if digits != [] && AllDigits(digits) then
        Some(if signed && x[1] == '-' then -(DigitsValue(digits) as int) else DigitsValue(digits))
      else None
  }

  /**
   * StrUnsignedDecimalLiteral other than `Infinity`: digits with an optional fraction,
   * or a fraction alone, then an optional exponent, spanning all of `u`.
   */
  function UnsignedDecimal(u: string): Option<real>
  {
    var a := DigitRun(u, 0);
    var hasDot := a < |u| && u[a] == '.';
    var b := if hasDot then DigitRun(u, a + 1) else 0;
    var p := if hasDot then a + 1 + b else a;
    if a + b == 0 then None
    else
      var mantissa := DigitsValue(u[..a] + u[p - b..p]);
      match Exponent(u[p..])
      case None => None
      case Some(e) => Some(mantissa as real * Scale(e - b))
  }

  /**
   * `Number(s)` when it is finite; None when `Number(s)` is NaN or an infinity,
   * which is exactly when `Number.isFinite(Number(s))` is false.
   */
  function FiniteNumber(s: string): Option<real>
  {
    TrimmedNumber(Trim(s))
  }

  /** StringNumericLiteral once the surrounding whitespace is gone. */
  function TrimmedNumber(t: string): Option<real>
  {
    if t == [] then Some(0.0)
    else if |t| >= 2 && t[0] == '0' && t[1] in "xXoObB" then NonDecimalInteger(t)
    else SignedDecimal(t)
  }

  /** NonDecimalIntegerLiteral: `0x`, `0o` or `0b` (either case) and at least one digit. */
  function NonDecimalInteger(t: string): Option<real>
    requires |t| >= 2
  {
    var radix := if t[1] in "xX" then 16 else if t[1] in "oO" then 8 else 2;
    match RadixValue(t[2..], radix)
    case Some(v) => Some(v as real)
    case None => None
  }

  /** StrDecimalLiteral: an optional sign, then `Infinity` (not finite) or an unsigned decimal. */
  function SignedDecimal(t: string): Option<real>
    requires t != []
  {
    var negative := t[0] == '-';
    var u := if t[0] == '-' || t[0] == '+' then t[1..] else t;
    if u == "Infinity" then None
    else match UnsignedDecimal(u)
      case None => None
      case Some(v) => Some(if negative then -v else v)
  }

  /** The decimal spelling of `n`, without leading zeros. */
  function DecimalString(n: nat): (r: string)
    ensures r != [] && AllDigits(r)
  {
    var last := ['0' + (n % 10) as char];
    if n < 10 then last else DecimalString(n / 10) + last
  }

  /** Reading back a spelled-out number gives the number. */
  lemma {:induction false} DecimalStringValue(n: nat)
    ensures DigitsValue(DecimalString(n)) == n
  {
    var s := DecimalString(n);
    if n >= 10 {
      DecimalStringValue(n / 10);
      assert s[..|s| - 1] == DecimalString(n / 10);
    }
  }

  /** A string that neither starts nor ends with whitespace is its own trim. */
  lemma TrimUnchanged(s: string)
    requires s != [] && !IsSpace(s[0]) && !IsSpace(s[|s| - 1])
    ensures Trim(s) == s
  {
  }

  /** `Number(x.trim())` and `Number(x)` agree: Number skips the same whitespace. */
  lemma FiniteNumberIgnoresTrim(s: string)
    ensures FiniteNumber(Trim(s)) == FiniteNumber(s)
  {
    TrimIdempotent(s);
    assert Trim(Trim(s)) == Trim(s);
  }

  /** An unsigned run of digits, with no fraction and no exponent, is an integer literal. */
  lemma UnsignedDecimalOfDigits(d: string)
    requires d != [] && AllDigits(d)
    ensures UnsignedDecimal(d) == Some(DigitsValue(d) as real)
  {
    var a := DigitRun(d, 0);
    assert a == |d| by {
      assert d[0..] == d;
    }
    assert d[..a] + d[a - 0..a] == d;
    assert Exponent(d[a..]) == Some(0) by {
      assert d[a..] == [];
    }
    assert Scale(0 - 0) == 1.0 by {
      assert Pow10(0) == 1;
    }
  }

  /** A run of decimal digits reads as its value. */
  lemma FiniteNumberOfDigits(d: string)
    requires d != [] && AllDigits(d)
    ensures FiniteNumber(d) == Some(DigitsValue(d) as real)
  {
    TrimUnchanged(d);
    assert d != "Infinity" by { assert !IsDigit('I'); }
    assert !(|d| >= 2 && d[1] in "xXoObB") by {
      if |d| >= 2 { assert IsDigit(d[1]); }
    }
    UnsignedDecimalOfDigits(d);
    assert SignedDecimal(d) == Some(DigitsValue(d) as real);
  }

  /** A minus sign before a run of digits negates its value. */
  lemma FiniteNumberOfNegatedDigits(t: string)
    requires |t| >= 2 && t[0] == '-' && AllDigits(t[1..])
    ensures FiniteNumber(t) == Some(-(DigitsValue(t[1..]) as real))
  {
    var d := t[1..];
    assert t[|t| - 1] == d[|d| - 1];
    TrimUnchanged(t);
    assert FiniteNumber(t) == SignedDecimal(t);
    assert d != "Infinity" by { assert !IsDigit('I'); }
    UnsignedDecimalOfDigits(d);
  }

  /** `Number` inverts the decimal spelling of every natural number. */
  lemma FiniteNumberRoundTrip(n: nat)
    ensures FiniteNumber(DecimalString(n)) == Some(n as real)
  {
    DecimalStringValue(n);
    FiniteNumberOfDigits(DecimalString(n));
  }
}
