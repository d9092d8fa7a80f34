/** Positional numerals: the digit strings that the formatter prints and the parser reads back. */
module Numerals {
  const LOWER_DIGITS := "0123456789abcdef"
  const UPPER_DIGITS := "0123456789ABCDEF"

  predicate IsRadix(radix: int) { radix == 8 || radix == 10 || radix == 16 }

  // Division, remainder and product by a radix, by cases so that each is by a constant

  function Remainder(n: nat, radix: int): (r: nat)
    requires IsRadix(radix)
    ensures r == n % radix && r < radix
  {
    if radix == 8 then n % 8 else if radix == 10 then n % 10 else n % 16
  }

  function Scale(n: nat, radix: int): (p: nat)
    requires IsRadix(radix)
    ensures p == n * radix
  {
    if radix == 8 then n * 8 else if radix == 10 then n * 10 else n * 16
  }

  function Quotient(n: nat, radix: int): (q: nat)
    requires IsRadix(radix)
    ensures q == n / radix && (n > 0 ==> q < n) && (q == 0 <==> n < radix)
    ensures n == Scale(q, radix) + Remainder(n, radix)
  {
    if radix == 8 then n / 8 else if radix == 10 then n / 10 else n / 16
  }

  function DigitTable(upper: bool): (s: string)
    ensures |s| == 16
  {
    if upper then UPPER_DIGITS else LOWER_DIGITS
  }

  /** The entries of the digit table, by arithmetic. */
  function DigitChar(d: nat, upper: bool): char
    requires d < 16
  {
    if d < 10 then '0' + d as char else (if upper then 'A' else 'a') + (d - 10) as char
  }

  /** The numeral of n without leading zeros, most significant digit first. */
  function Digits(n: nat, radix: nat, upper: bool): (s: string)
    requires IsRadix(radix)
    ensures |s| >= 1
  {
    if n < radix then [DigitChar(n, upper)]
    else Digits(Quotient(n, radix), radix, upper) + [DigitChar(Remainder(n, radix), upper)]
  }

  /** The value of a digit character; 16 for a character that is no digit. */
  function DigitValue(c: char): nat {
    if '0' <= c <= '9' then c as int - '0' as int
    else if 'a' <= c <= 'f' then c as int - 'a' as int + 10
    else if 'A' <= c <= 'F' then c as int - 'A' as int + 10
    else 16
  }

  function Value(s: string, radix: nat): nat
    requires IsRadix(radix)
  {
    if s == "" then 0 else Scale(Value(s[..|s| - 1], radix), radix) + DigitValue(s[|s| - 1])
  }

  predicate AllDigits(s: string, radix: nat) { forall i | 0 <= i < |s| :: DigitValue(s[i]) < radix }

  lemma TableEntry(d: nat, upper: bool)
    requires d < 16
    ensures DigitTable(upper)[d] == DigitChar(d, upper)
  {
    if upper {
      assert UPPER_DIGITS == ['0', '1', '2', '3', '4', '5', '6', '7', '8', '9', 'A', 'B', 'C', 'D', 'E', 'F'];
    } else {
      assert LOWER_DIGITS == ['0', '1', '2', '3', '4', '5', '6', '7', '8', '9', 'a', 'b', 'c', 'd', 'e', 'f'];
    }
  }

  lemma CharValue(d: nat, upper: bool)
    requires d < 16
    ensures DigitValue(DigitChar(d, upper)) == d && (DigitChar(d, upper) == '0' <==> d == 0)
  {
  }

  lemma {:induction false} ValueSnoc(s: string, c: char, radix: nat)
    requires IsRadix(radix)
    ensures Value(s + [c], radix) == Scale(Value(s, radix), radix) + DigitValue(c)
  {
    assert (s + [c])[..|s + [c]| - 1] == s;
  }

  lemma ValueOne(c: char, radix: nat)
    requires IsRadix(radix)
    ensures Value([c], radix) == DigitValue(c)
  {
    assert [c][..0] == "";
  }

  /** Printing a number and reading its digits gives the number back. */
  lemma {:induction false} DigitsValue(n: nat, radix: nat, upper: bool)
    requires IsRadix(radix)
    ensures Value(Digits(n, radix, upper), radix) == n
    ensures AllDigits(Digits(n, radix, upper), radix)
    ensures Digits(n, radix, upper)[0] == '0' <==> n == 0
  {
    hide DigitChar, DigitValue, Value;
    if n < radix {
      CharValue(n, upper);
      ValueOne(DigitChar(n, upper), radix);
    } else {
      var q, r := Quotient(n, radix), Remainder(n, radix);
      DigitsValue(q, radix, upper);
      CharValue(r, upper);
      ValueSnoc(Digits(q, radix, upper), DigitChar(r, upper), radix);
    }
  }

  lemma LeadingDigit(n: nat, radix: nat, upper: bool)
    requires IsRadix(radix)
    ensures Digits(n, radix, upper)[0] == '0' <==> n == 0
    ensures Digits(0, radix, upper) == "0"
  {
    DigitsValue(n, radix, upper);
  }

  lemma DivStep(q: nat, r: nat, radix: nat)
    requires IsRadix(radix) && r < radix
    ensures (q * radix + r) / radix == q && (q * radix + r) % radix == r
  {
  }

  /** No digit string of the same value is shorter, so the printed one is the shortest. */
  lemma {:induction false} DigitsShortest(s: string, radix: nat, upper: bool)
    requires IsRadix(radix) && s != "" && AllDigits(s, radix)
    ensures |Digits(Value(s, radix), radix, upper)| <= |s|
  {
    var n := Value(s, radix);
    if n >= radix {
      var init := s[..|s| - 1];
      assert n / radix == Value(init, radix) by { DivStep(Value(init, radix), DigitValue(s[|s| - 1]), radix); }
      if init == "" {
        assert false;
      } else {
        DigitsShortest(init, radix, upper);
      }
    }
  }

  function Power(b: nat, e: nat): nat { if e == 0 then 1 else b * Power(b, e - 1) }

  lemma DivBound(n: nat, radix: nat, q: nat)
    requires IsRadix(radix) && n < radix * q
    ensures n / radix < q
  {
  }

  /** A 64-bit number needs at most 22 octal, 20 decimal or 16 hexadecimal digits. */
  lemma {:induction false} DigitsLength(n: nat, radix: nat, upper: bool, k: nat)
    requires IsRadix(radix) && n < Power(radix, k) && k >= 1
    ensures |Digits(n, radix, upper)| <= k
  {
    if n >= radix {
      DivBound(n, radix, Power(radix, k - 1));
      DigitsLength(Quotient(n, radix), radix, upper, k - 1);
    }
  }

  lemma MulAssociates(x: int, y: int, z: int)
    ensures x * (y * z) == x * y * z
  {
  }

  lemma {:induction false} PowerAdd(b: nat, m: nat, n: nat)
    ensures Power(b, m + n) == Power(b, m) * Power(b, n)
  {
    if m > 0 {
      PowerAdd(b, m - 1, n);
      MulAssociates(b, Power(b, m - 1), Power(b, n));
    }
  }

  lemma PowerDoubled(b: nat, m: nat, p: nat)
    requires Power(b, m) == p
    ensures Power(b, 2 * m) == p * p
  {
    PowerAdd(b, m, m);
  }
}
