/** Printing integers: sign, prefix, zeros and digits, as src/vsnprintf.cpp:327-437 builds them. */
module Numbers {
  import opened Buffers
  import opened Numerals
  import opened Directives
  import opened FormatSpecs

  const MAX_NUMBER_LEN := 66

  function SignOf(s: Spec): string {
    if s.negative then "-" else if Plus in s.flags then "+" else if Space in s.flags then " " else ""
  }

  function PrefixOf(s: Spec, number: nat): string {
    if Alt !in s.flags || number == 0 then ""
    else if s.radix == 8 then "0"
    else if s.radix == 16 then (if Huge in s.flags then "0X" else "0x")
    else ""
  }

  /** The zeros that number_to_string puts before the digits; the zero flag makes the prefix count. */
  function ZeroCount(s: Spec, number: nat, size: nat): nat
    requires IsRadix(s.radix)
  {
    Max(0, Min(size,
      s.precision - |Digits(number, s.radix, Huge in s.flags)| - (if Zero in s.flags then |PrefixOf(s, number)| else 0)))
  }

  function NumberText(s: Spec, number: nat, size: nat): string
    requires IsRadix(s.radix)
  {
    if s.precision == 0 && number == 0 then ""
    else PrefixOf(s, number) + Fill('0', ZeroCount(s, number, size)) + Digits(number, s.radix, Huge in s.flags)
  }

  /** The emulation of the zero flag: the width becomes a precision, less one for a sign. */
  function ZeroRewrite(s: Spec): Spec {
    if Zero !in s.flags then s
    else
      var t := if s.precision < s.width then s.(precision := s.width, width := 0) else s;
      if SignOf(s) != "" then t.(precision := t.precision - 1) else t
  }

  /** Sign and number, before justification, with arrays of `size` characters. */
  function SizedText(s: Spec, number: nat, size: nat): string
    requires IsRadix(s.radix)
  {
    SignOf(s) + NumberText(ZeroRewrite(s), number, size)
  }

  /** Sign and number as format_number builds them. */
  function SignedText(s: Spec, number: nat): string
    requires IsRadix(s.radix)
  {
    SizedText(s, number, MAX_NUMBER_LEN)
  }

  /** The first |text| cells of a hold text backwards, as number_to_string builds it. */
  predicate Backwards(a: seq<char>, text: string) {
    |text| <= |a| && forall k | 0 <= k < |text| :: a[k] == text[|text| - 1 - k]
  }

  /** The digits of nr that are still to be written; none once nr is 0. */
  function Unwritten(nr: nat, radix: int, upper: bool): string
    requires IsRadix(radix)
  {
    if nr == 0 then "" else Digits(nr, radix, upper)
  }

  lemma NextDigit(nr: nat, radix: int, upper: bool, done: string)
    requires IsRadix(radix) && nr != 0
    ensures
      var c := DigitTable(upper)[Remainder(nr, radix)];
      Unwritten(nr, radix, upper) + done == Unwritten(Quotient(nr, radix), radix, upper) + ([c] + done)
  {
    TableEntry(Remainder(nr, radix), upper);
  }

  method WriteDigits(numStr: array<char>, number: nat, radix: int, upper: bool) returns (len: nat)
    requires IsRadix(radix) && |Digits(number, radix, upper)| <= numStr.Length
    modifies numStr
    ensures len == |Digits(number, radix, upper)| && Backwards(numStr[..], Digits(number, radix, upper))
  {
    hide Digits, DigitTable;
    var digits := DigitTable(upper);
    ghost var all := Digits(number, radix, upper);
    if number != 0 {
      var nr: nat := number;
      ghost var done := "";
      len := 0;
      while nr != 0
        invariant all == Unwritten(nr, radix, upper) + done
        invariant len == |done| && Backwards(numStr[..], done)
        decreases nr
      {
        NextDigit(nr, radix, upper, done);
        var n := Remainder(nr, radix);
        nr := Quotient(nr, radix);
        done := [digits[n]] + done;
        assert |all| == |Unwritten(nr, radix, upper)| + |done|;
        numStr[len] := digits[n];
        len := len + 1;
      }
    } else {
      LeadingDigit(0, radix, upper);
      numStr[0] := '0';
      len := 1;
    }
  }

  method AppendZeros(numStr: array<char>, at: nat, count: int, ghost text: string) returns (len: nat)
    requires at == |text| && at + Max(0, count) <= numStr.Length && Backwards(numStr[..], text)
    modifies numStr
    ensures len == |text| + Max(0, count) && Backwards(numStr[..], Fill('0', Max(0, count)) + text)
  {
    var zeroCount := count;
    len := at;
    while zeroCount > 0
      invariant len == |text| + Max(0, count) - Max(0, zeroCount) && zeroCount <= count
      invariant Backwards(numStr[..], Fill('0', len - |text|) + text)
      decreases zeroCount
    {
      numStr[len] := '0';
      len := len + 1;
      zeroCount := zeroCount - 1;
    }
  }

  method AppendPrefix(numStr: array<char>, at: nat, number: nat, spec: Spec, ghost text: string)
    returns (len: nat)
    requires at == |text| && at + |PrefixOf(spec, number)| <= numStr.Length && Backwards(numStr[..], text)
    modifies numStr
    ensures len == at + |PrefixOf(spec, number)|
    ensures Backwards(numStr[..], PrefixOf(spec, number) + text)
  {
    len := at;
    if Alt in spec.flags && number > 0 {
      match spec.radix {
        case 8 =>
          numStr[len] := '0';
          len := len + 1;
        case 16 =>
          numStr[len] := if Huge in spec.flags then 'X' else 'x';
          numStr[len + 1] := '0';
          len := len + 2;
        case _ =>
      }
    }
  }

  /** The part of number_to_string that fills num_str. */
  method BuildNumber(numStr: array<char>, number: nat, spec: Spec, size: nat) returns (len: nat)
    requires IsRadix(spec.radix) && !(spec.precision == 0 && number == 0)
    requires |NumberText(spec, number, size)| <= numStr.Length
    modifies numStr
    ensures len == |NumberText(spec, number, size)|
    ensures Backwards(numStr[..], NumberText(spec, number, size))
  {
    var p := spec.precision;
    len := WriteDigits(numStr, number, spec.radix, Huge in spec.flags);
    ghost var digits := Digits(number, spec.radix, Huge in spec.flags);
    p := p - len;
    if Zero in spec.flags {
      if Alt in spec.flags {
        if number > 0 {
          match spec.radix {
            case 8 => p := p - 1;
            case 16 => p := p - 2;
            case _ =>
          }
        }
      }
    }
    assert Max(0, Min(p, size)) == ZeroCount(spec, number, size);
    len := AppendZeros(numStr, len, Min(p, size), digits);
    len := AppendPrefix(numStr, len, number, spec, Fill('0', ZeroCount(spec, number, size)) + digits);
    assert PrefixOf(spec, number) + (Fill('0', ZeroCount(spec, number, size)) + digits)
        == NumberText(spec, number, size);
  }

  method CopyReversed(buf: array<char>, at: nat, numStr: array<char>, len: nat, ghost text: string)
    requires buf != numStr && Backwards(numStr[..], text) && len <= |text| && at + len <= buf.Length
    modifies buf
    ensures buf[..] == Overwrite(old(buf[..]), at, text[|text| - len..])
  {
    for i := 0 to len
      invariant Backwards(numStr[..], text)
      invariant forall k | 0 <= k < buf.Length ::
        buf[k] == if at <= k < at + i then text[|text| - len + k - at] else old(buf[k])
    {
      buf[at + i] := numStr[len - i - 1];
    }
  }

  /**
   Writes the last min(length, size) characters of the number's text from buf[at] on. The number is built
   backwards in an array of 66 characters, so the text must fit it.
   */
  method NumberToString(buf: array<char>, at: nat, number: nat, spec: Spec, size: nat) returns (len: nat)
    requires IsRadix(spec.radix) && |NumberText(spec, number, size)| <= MAX_NUMBER_LEN
    requires at + Min(|NumberText(spec, number, size)|, size) <= buf.Length
    modifies buf
    ensures len == Min(|NumberText(spec, number, size)|, size)
    ensures
      var text := NumberText(spec, number, size);
      buf[..] == Overwrite(old(buf[..]), at, text[|text| - len..])
  {
    if spec.precision == 0 && number == 0 {
      return 0;
    }
    ghost var text := NumberText(spec, number, size);
    var numStr := new char[MAX_NUMBER_LEN];
    len := BuildNumber(numStr, number, spec, size);
    len := Min(len, size);
    CopyReversed(buf, at, numStr, len, text);
  }

  /** A 64-bit number has at most 22 octal, 20 decimal or 16 hexadecimal digits. */
  lemma DigitsOf64(number: nat, radix: nat, upper: bool)
    requires IsRadix(radix) && number < TWO_64
    ensures |Digits(number, radix, upper)| <= (if radix == 8 then 22 else if radix == 10 then 20 else 16)
  {
    hide Digits;
    if radix == 8 {
      assert Power(8, 1) == 8;
      PowerDoubled(8, 1, 8); PowerDoubled(8, 2, 64); PowerDoubled(8, 4, 4096); PowerDoubled(8, 8, 16777216);
      PowerAdd(8, 16, 4); PowerAdd(8, 20, 2);
      assert Power(8, 22) == 0x4_0000_0000_0000_0000;
      DigitsLength(number, 8, upper, 22);
    } else if radix == 10 {
      assert Power(10, 1) == 10;
      PowerDoubled(10, 1, 10); PowerDoubled(10, 2, 100); PowerDoubled(10, 4, 10000); PowerDoubled(10, 8, 100000000);
      PowerAdd(10, 16, 4);
      assert Power(10, 20) == 100_000_000_000_000_000_000;
      DigitsLength(number, 10, upper, 20);
    } else {
      assert Power(16, 1) == 16;
      PowerDoubled(16, 1, 16); PowerDoubled(16, 2, 256); PowerDoubled(16, 4, 65536); PowerDoubled(16, 8, 0x1_0000_0000);
      assert Power(16, 16) == 0x1_0000_0000_0000_0000;
      DigitsLength(number, 16, upper, 16);
    }
  }

  /** Width or precision, with sign and prefix, leave the number within the 66 characters of num_str and number_str. */
  predicate FieldsFit(s: Spec, number: nat) {
    if Zero in s.flags then s.width <= MAX_NUMBER_LEN
    else s.precision + |SignOf(s)| + |PrefixOf(s, number)| <= MAX_NUMBER_LEN
  }

  /**
   A 64-bit number's text fits the arrays exactly when its fields do. Only decimal numbers have a sign, and a zero
   flag that survives parsing means no precision.
   */
  lemma TextFits(s: Spec, number: nat)
    requires IsRadix(s.radix) && number < TWO_64 && (SignOf(s) != "" ==> s.radix == 10)
    requires Zero in s.flags ==> s.precision == -1
    ensures |SignedText(s, number)| <= MAX_NUMBER_LEN <==> FieldsFit(s, number)
  {
    hide Digits;
    DigitsOf64(number, s.radix, Huge in s.flags);
  }

  /** A text that fits does not depend on the size of larger arrays. */
  lemma LargerArrays(s: Spec, number: nat, size: nat)
    requires IsRadix(s.radix) && |SignedText(s, number)| <= MAX_NUMBER_LEN <= size
    ensures SignedText(s, number) == SizedText(s, number, size)
  {
    hide Digits;
  }
}
