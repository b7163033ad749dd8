/** The vendored integer parser (headers/cxxopts-master/include/cxxopts.hpp:886-1015).

    The text has been split into an optional minus sign, an optional `0x` and the
    digits.  Arithmetic is that of the machine: operands narrower than `int` are
    promoted and computed exactly, wider unsigned ones wrap.
 */
module IntegerParser {
  import opened Bytes
  import opened Wrappers

  /** An integral type T of the template: its width in bits and signedness. */
  datatype Integral = Integral(bits: nat, isSigned: bool)

  predicate IsWidth(n: nat) {
    n == 8 || n == 16 || n == 32 || n == 64
  }

  /** 2^n for the four widths. */
  function Modulus(n: nat): (m: nat)
    requires IsWidth(n)
    ensures m > 0
  {
    match n
    case 8 => 0x100
    case 16 => 0x1_0000
    case 32 => 0x1_0000_0000
    case 64 => 0x1_0000_0000_0000_0000
  }

  function MaxOf(t: Integral): nat
    requires IsWidth(t.bits)
  {
    if t.isSigned then Modulus(t.bits) / 2 - 1 else Modulus(t.bits) - 1
  }

  function MinOf(t: Integral): int
    requires IsWidth(t.bits)
  {
    if t.isSigned then -(Modulus(t.bits) / 2) else 0
  }

  // ------------------------------------------------- what a text denotes

  function DigitOf(ch: byte, hex: bool): Option<nat> {
    if 48 <= ch <= 57 then Some(ch - 48)
    else if hex && 97 <= ch <= 102 then Some(ch - 97 + 10)
    else if hex && 65 <= ch <= 70 then Some(ch - 65 + 10)
    else None
  }

  ghost predicate IsNumeral(digits: Str, hex: bool) {
    forall i :: 0 <= i < |digits| ==> DigitOf(digits[i], hex).Some?
  }

  function Base(hex: bool): nat {
    if hex then 16 else 10
  }

  /** The number a numeral denotes, by Horner's rule. */
  ghost function ValueOf(digits: Str, hex: bool): nat
    requires IsNumeral(digits, hex)
  {
    if digits == [] then 0
    else
      assert DigitOf(digits[|digits| - 1], hex).Some?;
      ValueOf(digits[..|digits| - 1], hex) * Base(hex) + DigitOf(digits[|digits| - 1], hex).value
  }

  /** The number a split text denotes, if the digits are digits of its base. */
  ghost function Denotes(negative: bool, hex: bool, digits: Str): Option<int> {
    if !IsNumeral(digits, hex) then None
    else Some(if negative then 0 - ValueOf(digits, hex) else ValueOf(digits, hex))
  }

  /** Which bytes are digits, and of which value: `0` to `9` in both bases, `a` to `f` and
      `A` to `F` in base 16 only, and no others. */
  lemma DigitBytes(ch: byte, hex: bool)
    ensures forall d :: 0 <= d < 10 ==> (DigitOf(ch, hex) == Some(d) <==> ch == 48 + d)
    ensures forall d :: 10 <= d < 16 ==> (DigitOf(ch, hex) == Some(d) <==> hex && (ch == 87 + d || ch == 55 + d))
    ensures forall d :: d >= 16 ==> DigitOf(ch, hex) != Some(d)
    ensures DigitOf(ch, hex) == None <==>
              !(48 <= ch <= 57) && !(hex && 97 <= ch <= 102) && !(hex && 65 <= ch <= 70)
  {
  }

  function Power(base: nat, e: nat): nat {
    if e == 0 then 1 else base * Power(base, e - 1)
  }

  /** A numeral's value is the sum of its digits times the powers of ten, or of sixteen:
      stated from the first digit on, where the parser works from the last. */
  lemma {:induction false} ValueByPlaces(digits: Str, hex: bool)
    requires IsNumeral(digits, hex) && digits != []
    ensures IsNumeral(digits[1..], hex)
    ensures ValueOf(digits, hex)
         == DigitOf(digits[0], hex).value * Power(if hex then 16 else 10, |digits| - 1) + ValueOf(digits[1..], hex)
    ensures ValueOf([], hex) == 0
    decreases |digits|
  {
    hide DigitOf, Power;
    var n, b := |digits| - 1, if hex then 16 else 10;
    PowerSteps(b, n);
    EmptyNumeral(hex);
    if n == 0 {
      assert digits[..0] == [] && digits[1..] == [];
    } else {
      var front := digits[..n];
      ValueByPlaces(front, hex);
      assert front[1..] == digits[1..][..n - 1];
      var d, v, e := DigitOf(digits[0], hex).value, ValueOf(front[1..], hex), DigitOf(digits[n], hex).value;
      assert ValueOf(digits, hex) == (d * Power(b, n - 1) + v) * b + e;
      assert ValueOf(digits[1..], hex) == v * b + e;
      PlaceUp(d, Power(b, n - 1), v, b);
    }
  }

  lemma PowerSteps(b: nat, n: nat)
    ensures n == 0 ==> Power(b, n) == 1
    ensures n > 0 ==> Power(b, n) == b * Power(b, n - 1)
  {
  }

  lemma PlaceUp(d: nat, q: nat, v: nat, b: nat)
    ensures (d * q + v) * b == d * (b * q) + v * b
  {
  }

  /** What the types can hold. */
  lemma RangesOfTypes()
    ensures MinOf(Integral(8, true)) == -128 && MaxOf(Integral(8, true)) == 127
    ensures MinOf(Integral(16, true)) == -32768 && MaxOf(Integral(16, true)) == 32767
    ensures MinOf(Integral(32, true)) == -2147483648 && MaxOf(Integral(32, true)) == 2147483647
    ensures MinOf(Integral(64, true)) == -9223372036854775808 && MaxOf(Integral(64, true)) == 9223372036854775807
    ensures MinOf(Integral(8, false)) == 0 && MaxOf(Integral(8, false)) == 255
    ensures MinOf(Integral(16, false)) == 0 && MaxOf(Integral(16, false)) == 65535
    ensures MinOf(Integral(32, false)) == 0 && MaxOf(Integral(32, false)) == 4294967295
    ensures MinOf(Integral(64, false)) == 0 && MaxOf(Integral(64, false)) == 18446744073709551615
  {
  }

  /** A text denotes the value of its digits, negated after a minus sign, if all are digits. */
  lemma DenotesItsDigits(negative: bool, hex: bool, digits: Str)
    ensures Denotes(negative, hex, digits).None? <==>
              exists i :: 0 <= i < |digits| && DigitOf(digits[i], hex).None?
    ensures IsNumeral(digits, hex) ==>
              Denotes(negative, hex, digits)
              == Some(if negative then -1 * ValueOf(digits, hex) else ValueOf(digits, hex))
  {
  }

  lemma {:induction false} PrefixIsSmaller(digits: Str, hex: bool, i: nat)
    requires IsNumeral(digits, hex) && i <= |digits|
    ensures IsNumeral(digits[..i], hex) && ValueOf(digits[..i], hex) <= ValueOf(digits, hex)
    decreases |digits|
  {
    if i == |digits| {
      assert digits[..i] == digits;
    } else {
      var shorter := digits[..|digits| - 1];
      PrefixIsSmaller(shorter, hex, i);
      assert shorter[..i] == digits[..i];
    }
  }

  // ------------------------------------------------- machine arithmetic

  /** `a * b` on operands of the unsigned type of width n. */
  function Times(n: nat, a: nat, b: nat): nat
    requires IsWidth(n)
  {
    if n < 32 then a * b else a * b % Modulus(n)
  }

  /** `a - b` on operands of the unsigned type of width n. */
  function Minus(n: nat, a: nat, b: nat): int
    requires IsWidth(n)
  {
    if n < 32 then a - b else (a - b) % Modulus(n)
  }

  /** `static_cast` to the signed type of width n. */
  function ToSigned(n: nat, x: int): int
    requires IsWidth(n)
  {
    var m := x % Modulus(n);
    if m >= Modulus(n) / 2 then m - Modulus(n) else m
  }

  /** `static_cast<R>(-static_cast<R>(t-1)-1)`, which avoids negating the minimum. */
  function CheckedNegate(n: nat, t: nat): int
    requires IsWidth(n)
  {
    ToSigned(n, -ToSigned(n, Minus(n, t, 1)) - 1)
  }

  lemma WrapIsIdentity(n: nat, x: nat)
    requires IsWidth(n) && x < Modulus(n)
    ensures x % Modulus(n) == x
  {
  }

  lemma ToSignedIsExact(n: nat, x: int)
    requires IsWidth(n) && -(Modulus(n) / 2) <= x < Modulus(n) / 2
    ensures ToSigned(n, x) == x
  {
    RemainderNearZero(x, Modulus(n));
    ModulusIsEven(n);
  }

  lemma ModulusIsEven(n: nat)
    requires IsWidth(n)
    ensures Modulus(n) == 2 * (Modulus(n) / 2)
  {
  }

  lemma RemainderNearZero(x: int, m: nat)
    requires m > 0 && 0 - m <= x < m
    ensures x % m == if x < 0 then x + m else x
  {
    if x < 0 { RemainderBelowZero(x, m); } else { RemainderBelowModulus(x, m); }
  }

  lemma RemainderBelowModulus(x: nat, m: nat)
    requires x < m
    ensures x % m == x
  {
  }

  lemma RemainderBelowZero(x: int, m: nat)
    requires m > 0 && 0 - m <= x < 0
    ensures x % m == x + m
  {
    RemainderBelowModulus(x + m, m);
    assert x == (0 - 1) * m + (x + m);
  }

  lemma MinusOneIsExact(n: nat, t: nat)
    requires IsWidth(n) && t <= Modulus(n) / 2
    ensures ToSigned(n, Minus(n, t, 1)) == t - 1
  {
    ToSignedIsExact(n, t - 1);
    match n {
      case 8 => case 16 =>
      case 32 => assert (t - 1) % 0x1_0000_0000 % 0x1_0000_0000 == (t - 1) % 0x1_0000_0000;
      case 64 =>
        assert (t - 1) % 0x1_0000_0000_0000_0000 % 0x1_0000_0000_0000_0000 == (t - 1) % 0x1_0000_0000_0000_0000;
    }
  }

  /** Exact on every magnitude up to and including that of the minimum, 0 too. */
  lemma NegateIsExact(n: nat, t: nat)
    requires IsWidth(n) && t <= Modulus(n) / 2
    ensures CheckedNegate(n, t) == 0 - t
  {
    hide ToSigned, Minus;
    MinusOneIsExact(n, t);
    ToSignedIsExact(n, 0 - t);
  }

  /** The largest magnitude the digit loop lets through. */
  function Limit(t: Integral, negative: bool): nat
    requires IsWidth(t.bits)
  {
    if negative then -MinOf(t) else MaxOf(t)
  }

  lemma TimesQuotient(limit: nat, base: nat, result: nat)
    requires base > 0
    ensures result <= limit / base ==> result * base <= limit
    ensures result > limit / base ==> result * base > limit
  {
    var q := limit / base;
    assert limit == q * base + limit % base;
    if result <= q {
      assert result * base <= q * base;
    } else {
      assert result * base >= (q + 1) * base == q * base + base;
    }
  }

  /** Past the first overflow test the product is exact: it cannot wrap. */
  lemma ProductDoesNotWrap(n: nat, limit: nat, base: nat, result: nat)
    requires IsWidth(n) && limit < Modulus(n) && base > 0 && result <= limit / base
    ensures result * base <= limit && Times(n, result, base) == result * base
  {
    hide Modulus;
    TimesQuotient(limit, base, result);
    WrapIsIdentity(n, result * base);
  }

  /** The two overflow tests together reject exactly when the next value exceeds
      the limit, and otherwise nothing wraps. */
  lemma TestsAreExact(n: nat, limit: nat, base: nat, result: nat, digit: nat)
    requires IsWidth(n) && digit <= limit < Modulus(n) && base > 0
    ensures result > limit / base || Times(n, result, base) > Minus(n, limit, digit) <==> result * base + digit > limit
    ensures result * base + digit <= limit ==> Times(n, result, base) == result * base
                                               && (result * base + digit) % Modulus(n) == result * base + digit
  {
    hide Modulus;
    TimesQuotient(limit, base, result);
    WrapIsIdentity(n, limit - digit);
    if result <= limit / base {
      ProductDoesNotWrap(n, limit, base, result);
      if result * base + digit <= limit { WrapIsIdentity(n, result * base + digit); }
    }
  }

  /** Dropping the minus sign of an unsigned type, every digit is below every limit. */
  lemma DigitsAreSmall(t: Integral, negative: bool, ch: byte, hex: bool)
    requires IsWidth(t.bits) && (negative ==> t.isSigned) && DigitOf(ch, hex).Some?
    ensures DigitOf(ch, hex).value <= Limit(t, negative) < Modulus(t.bits)
  {
  }

  /** Accepts exactly the texts whose number T can hold (a sign is never accepted
      for an unsigned T), and returns exactly that number. */
  method ParseInteger(t: Integral, negative: bool, hex: bool, digits: Str) returns (r: Option<int>)
    requires IsWidth(t.bits)
    ensures r.Some? <==> Denotes(negative, hex, digits).Some? && (negative ==> t.isSigned)
                         && MinOf(t) <= Denotes(negative, hex, digits).value <= MaxOf(t)
    ensures r.Some? ==> r == Denotes(negative, hex, digits)
  {
    hide Times, Minus, ToSigned, CheckedNegate, Modulus, ValueOf, DigitOf;
    var base := Base(hex);
    var result: nat := 0;
    EmptyNumeral(hex);
    for i := 0 to |digits|
      invariant IsNumeral(digits[..i], hex)
      invariant (negative ==> t.isSigned) ==> result == ValueOf(digits[..i], hex) && result <= Limit(t, negative)
    {
      var digit := DigitOf(digits[i], hex);
      if digit == None {
        assert !IsNumeral(digits, hex);
        return None;
      }
      var limit := Limit(t, negative);
      NextDigit(digits, hex, i);
      if IsNumeral(digits, hex) { PrefixIsSmaller(digits, hex, i + 1); }
      if negative ==> t.isSigned {
        DigitsAreSmall(t, negative, digits[i], hex);
        TestsAreExact(t.bits, limit, base, result, digit.value);
      }
      if result > limit / base {
        return None;
      }
      if Times(t.bits, result, base) > Minus(t.bits, limit, digit.value) {
        return None;
      }
      result := (Times(t.bits, result, base) + digit.value) % Modulus(t.bits);
    }
    assert digits[..|digits|] == digits;
    if t.isSigned && result > Limit(t, negative) {
      return None;
    }
    if negative {
      if !t.isSigned {
        return None;
      }
      LimitsAreRange(t, negative, result);
      return Some(CheckedNegate(t.bits, result));
    }
    LimitsAreRange(t, negative, result);
    return Some(if t.isSigned then ToSigned(t.bits, result) else result);
  }

  lemma EmptyNumeral(hex: bool)
    ensures IsNumeral([], hex) && ValueOf([], hex) == 0
  {
  }

  lemma NextDigit(digits: Str, hex: bool, i: nat)
    requires i < |digits| && IsNumeral(digits[..i], hex) && DigitOf(digits[i], hex).Some?
    ensures IsNumeral(digits[..i + 1], hex)
    ensures ValueOf(digits[..i + 1], hex) == ValueOf(digits[..i], hex) * Base(hex) + DigitOf(digits[i], hex).value
  {
    assert digits[..i + 1][..i] == digits[..i];
  }

  /** A magnitude within the limit is a value of T, and the final conversions give it. */
  lemma LimitsAreRange(t: Integral, negative: bool, m: nat)
    requires IsWidth(t.bits) && (negative ==> t.isSigned)
    ensures m <= Limit(t, negative) <==> MinOf(t) <= (if negative then 0 - m else m) <= MaxOf(t)
    ensures m <= Limit(t, negative) ==>
              (if negative then CheckedNegate(t.bits, m) else if t.isSigned then ToSigned(t.bits, m) else m)
              == if negative then 0 - m else m
  {
    hide ToSigned, CheckedNegate;
    if m <= Limit(t, negative) {
      if negative { NegateIsExact(t.bits, m); } else if t.isSigned { ToSignedIsExact(t.bits, m); }
    }
  }
}
