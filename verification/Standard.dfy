/**
 The output that section 7.21.6.1 of ISO/IEC 9899:2011 asks for, for the integer, character, string and percent
 directives whose behaviour it defines, and the exact conditions under which the library's output agrees with it.
 */
module Standard {
  import opened Options
  import opened Buffers
  import opened Numerals
  import opened Directives
  import opened FormatSpecs
  import opened Numbers
  import opened Formatter
  import opened Driver
  import opened Reference
  import opened ReadBack

  function Absolute(value: int): nat { if value < 0 then -value else value }

  // A negative width argument is a minus flag followed by a positive width; a negative precision is no precision.

  function StdMinus(d: Directive): bool { Minus in d.flags || d.width.GetOr(0) < 0 }

  function StdWidth(d: Directive): nat {
    var w := d.width.GetOr(0);
    if w < 0 then -w else w
  }

  function StdPrecision(d: Directive): Option<nat> {
    if d.precision.Some? && d.precision.value >= 0 then Some(d.precision.value) else None
  }

  predicate StdSigned(c: char) { c in "di" }

  function StdRadix(c: char): int {
    if c == 'o' then 8 else if c == 'x' || c == 'X' then 16 else 10
  }

  function StdSign(d: Directive, negative: bool): string {
    if !StdSigned(d.conversion) then ""
    else if negative then "-" else if Plus in d.flags then "+" else if Space in d.flags then " " else ""
  }

  function StdPrefix(d: Directive, number: nat): string {
    if Alt in d.flags && number != 0 && StdRadix(d.conversion) == 16 then (if d.conversion == 'X' then "0X" else "0x")
    else ""
  }

  const STD_LOWER := "0123456789abcdef"
  const STD_UPPER := "0123456789ABCDEF"

  /** The digits of section 7.21.6.1: the letters abcdef, and ABCDEF for `X`. */
  function StdDigits(n: nat, radix: int, upper: bool): string
    requires IsRadix(radix)
    decreases n
  {
    var last := [(if upper then STD_UPPER else STD_LOWER)[n % radix]];
    if n < radix then last else StdDigits(n / radix, radix, upper) + last
  }

  lemma SameDigit(d: nat, upper: bool)
    requires d < 16
    ensures (if upper then STD_UPPER else STD_LOWER)[d] == DigitChar(d, upper)
  {
    assert STD_UPPER == ['0', '1', '2', '3', '4', '5', '6', '7', '8', '9', 'A', 'B', 'C', 'D', 'E', 'F'];
    assert STD_LOWER == ['0', '1', '2', '3', '4', '5', '6', '7', '8', '9', 'a', 'b', 'c', 'd', 'e', 'f'];
  }

  /** The code's digits are these. */
  lemma {:induction false} SameDigits(n: nat, radix: int, upper: bool)
    requires IsRadix(radix)
    ensures StdDigits(n, radix, upper) == Digits(n, radix, upper)
    decreases n
  {
    SameDigit(Remainder(n, radix), upper);
    if n >= radix {
      SameDigits(Quotient(n, radix), radix, upper);
    } else {
      assert Remainder(n, radix) == n;
    }
  }

  /** The digits: as many as the precision asks for, and a leading zero under the alternative octal form. */
  function BodyOf(d: Directive, number: nat, digits: string): string {
    var precision := StdPrecision(d).GetOr(1);
    var shown := if number == 0 && precision == 0 then "" else digits;
    var body := Fill('0', Max(0, precision - |shown|)) + shown;
    if Alt in d.flags && d.conversion == 'o' && (body == "" || body[0] != '0') then "0" + body else body
  }

  function StdBody(d: Directive, number: nat): string {
    BodyOf(d, number, StdDigits(number, StdRadix(d.conversion), d.conversion == 'X'))
  }

  function StdNumber(d: Directive, value: int): string {
    var number := Absolute(value);
    var sign, prefix, body := StdSign(d, value < 0), StdPrefix(d, number), StdBody(d, number);
    if Zero in d.flags && !StdMinus(d) && StdPrecision(d) == None then
      sign + prefix + Fill('0', Padding(StdWidth(d), |sign| + |prefix| + |body|)) + body
    else Justified(StdWidth(d), sign + prefix + body, StdMinus(d))
  }

  /** The standard's conversion of a signed argument to the type of its length modifier. */
  function StdSignedArg(length: Length, v: int): int {
    match length
    case HH => (v + 128) % 256 - 128
    case H => (v + 0x8000) % 0x1_0000 - 0x8000
    case _ => v
  }

  function StdUnsignedArg(length: Length, v: int): int {
    match length case HH => v % 256 case H => v % 0x1_0000 case _ => v
  }

  /** The type of a number's argument: int without a modifier and under h and hh, else the 64-bit types of the host. */
  function StdArgType(d: Directive): CType {
    match d.length
    case NoLength => if StdSigned(d.conversion) then Int32 else UInt32
    case HH => if StdSigned(d.conversion) then Int32 else UInt32
    case H => if StdSigned(d.conversion) then Int32 else UInt32
    case L => if StdSigned(d.conversion) then Int64 else UInt64
    case LL => if StdSigned(d.conversion) then Int64 else UInt64
    case Z => if StdSigned(d.conversion) then Int64 else UInt64
    case T => if StdSigned(d.conversion) then Int64 else UInt64
  }

  /** The value that the standard prints. */
  function StdValue(d: Directive, args: seq<Arg>): int {
    var v := IntAt(args, d.arg);
    if StdSigned(d.conversion) then StdSignedArg(d.length, v) else StdUnsignedArg(d.length, v)
  }

  /**
   The conversions modelled here, with the flags, precision, length modifier and argument for which the standard
   defines them. Pointers are left to the implementation; `l` on `c` and `s` asks for wide characters.
   */
  predicate Defined(d: Directive, args: seq<Arg>) {
    match d.conversion
    case 'd' => Alt !in d.flags
    case 'i' => Alt !in d.flags
    case 'u' => Alt !in d.flags
    case 'o' => true
    case 'x' => true
    case 'X' => true
    case 'c' => Alt !in d.flags && Zero !in d.flags && d.precision == None && d.length == NoLength
    case 's' =>
      && Alt !in d.flags && Zero !in d.flags && d.length == NoLength
      && d.arg < |args| && args[d.arg].Text? && args[d.arg].s.Some?
    case '%' => d.flags == {} && d.width == None && d.precision == None && d.length == NoLength
    case _ => false
  }

  /** The standard's text of a directive. */
  function StdText(d: Directive, args: seq<Arg>): string
    requires Defined(d, args)
  {
    if d.conversion == '%' then "%"
    else if d.conversion == 'c' then Justified(StdWidth(d), [CharOf(IntAt(args, d.arg))], StdMinus(d))
    else if d.conversion == 's' then
      var text := args[d.arg].s.value;
      Justified(StdWidth(d), text[..Min(|text|, StdPrecision(d).GetOr(|text|))], StdMinus(d))
    else StdNumber(d, StdValue(d, args))
  }

  /** The prefix that the code prints: the standard's, or a zero in the alternative octal form. */
  function CodePrefix(d: Directive, number: nat): string {
    if Alt in d.flags && number != 0 && d.conversion == 'o' then "0" else StdPrefix(d, number)
  }

  // The six ways in which a number can differ

  /** A short argument out of range is not narrowed. */
  predicate ShortDiffers(d: Directive, v: int) {
    d.length == H && !(if StdSigned(d.conversion) then -0x8000 <= v < 0x8000 else 0 <= v < 0x1_0000)
  }

  /** The zero flag turns width into precision 0 for the number 0, which then has no digit. */
  predicate LosesZero(d: Directive, value: int) {
    && value == 0 && Zero in d.flags && Minus !in d.flags && d.precision == None
    && d.width == Some(|StdSign(d, false)|)
  }

  /** A `#` octal number gets a zero on top of its precision, and none when value and precision are 0. */
  predicate OctalPrefixDiffers(d: Directive, value: int) {
    && Alt in d.flags && d.conversion == 'o' && value >= 0
    && if value > 0 then StdPrecision(d).GetOr(0) > |StdDigits(value, 8, false)| else StdPrecision(d) == Some(0)
  }

  function StdNatural(d: Directive, value: int): nat {
    |StdSign(d, value < 0)| + |StdPrefix(d, Absolute(value))| + |StdBody(d, Absolute(value))|
  }

  /** A negative width argument gives no padding. */
  predicate NegativeWidthDiffers(d: Directive, natural: nat) { d.width.GetOr(0) < 0 && StdWidth(d) > natural }

  /** A negative precision removes the zero flag, which the standard keeps. */
  predicate NegativePrecisionDiffers(d: Directive, natural: nat) {
    && d.precision.Some? && d.precision.value < 0 && Zero in d.flags && !StdMinus(d)
    && StdWidth(d) > natural
  }

  /**
   The text does not fit the 66 characters of num_str and number_str, and the code writes past their ends: the
   width filled with zeros, or else the precision with sign and prefix, is above 66.
   */
  predicate OverrunsArrays(d: Directive, value: int) {
    if Zero in d.flags && Minus !in d.flags && d.precision == None then d.width.GetOr(-1) > MAX_NUMBER_LEN
    else d.precision.GetOr(-1) + |StdSign(d, value < 0)| + |CodePrefix(d, Absolute(value))| > MAX_NUMBER_LEN
  }

  predicate Conforms(d: Directive, args: seq<Arg>)
    requires Defined(d, args)
  {
    if d.conversion in "diuoxX" then
      var value := StdValue(d, args);
      && !ShortDiffers(d, IntAt(args, d.arg)) && !OverrunsArrays(d, value)
      && !LosesZero(d, value)
      && !OctalPrefixDiffers(d, value)
      && !NegativeWidthDiffers(d, StdNatural(d, value))
      && !NegativePrecisionDiffers(d, StdNatural(d, value))
    else if d.conversion == '%' then true
    else !NegativeWidthDiffers(d, |FieldOf(d, args).1|)
  }

  // Counting the characters that are not blanks tells zero padding from blank padding

  function Ink(s: string): nat {
    if s == "" then 0 else (if s[0] == ' ' then 0 else 1) + Ink(s[1..])
  }

  lemma {:induction false} InkConcat(a: string, b: string)
    ensures Ink(a + b) == Ink(a) + Ink(b)
  {
    if a == "" {
      assert a + b == b;
    } else {
      InkConcat(a[1..], b);
      assert (a + b)[1..] == a[1..] + b;
    }
  }

  lemma {:induction false} InkFull(s: string)
    requires ' ' !in s
    ensures Ink(s) == |s|
  {
    if s != "" { InkFull(s[1..]); }
  }

  lemma {:induction false} InkBlanks(n: nat)
    ensures Ink(Fill(' ', n)) == 0
  {
    if n > 0 {
      InkBlanks(n - 1);
      assert Fill(' ', n)[1..] == Fill(' ', n - 1);
    }
  }

  lemma InkJustified(width: int, text: string, minus: bool)
    ensures Ink(Justified(width, text, minus)) == Ink(text)
  {
    var blanks := Fill(' ', Padding(width, |text|));
    InkBlanks(|blanks|);
    InkConcat(text, blanks);
    InkConcat(blanks, text);
  }

  lemma {:induction false} DigitsNoBlank(n: nat, radix: nat, upper: bool)
    requires IsRadix(radix)
    ensures ' ' !in Digits(n, radix, upper)
  {
    if n >= radix {
      DigitsNoBlank(Quotient(n, radix), radix, upper);
    }
  }

  /** A directive for an integer, with its value. */
  predicate IntegerCase(d: Directive, value: int) {
    && (IsSigned(d.conversion) || IsUnsigned(d.conversion)) && Huge !in d.flags
    && (if IsSigned(d.conversion) then Int64 else UInt64).Has(value)
  }

  /** Arrays of this size hold width and precision of the directive. */
  predicate Sized(d: Directive, size: nat) { size >= d.width.GetOr(-1) && size >= d.precision.GetOr(-1) }

  function NumberDigits(d: Directive, number: nat): string {
    Digits(number, StdRadix(d.conversion), d.conversion == 'X')
  }

  lemma StdBodyDigits(d: Directive, number: nat)
    ensures StdBody(d, number) == BodyOf(d, number, NumberDigits(d, number))
    ensures StdDigits(number, StdRadix(d.conversion), d.conversion == 'X') == NumberDigits(d, number)
  {
    SameDigits(number, StdRadix(d.conversion), d.conversion == 'X');
  }

  lemma SpecParts(d: Directive, value: int)
    requires IntegerCase(d, value)
    ensures
      var s := NumberSpec(d, value);
      && Magnitude(value) == Absolute(value)
      && SignOf(s) == StdSign(d, value < 0) && PrefixOf(s, Absolute(value)) == CodePrefix(d, Absolute(value))
      && s.radix == StdRadix(d.conversion) && (Huge in s.flags <==> d.conversion == 'X')
      && (s.negative <==> value < 0) && (Minus in s.flags <==> Minus in d.flags)
      && s.width == d.width.GetOr(-1) && s.precision == d.precision.GetOr(-1)
      && (Zero in s.flags <==> Zero in d.flags && Minus !in d.flags && d.precision == None)
  {
  }

  /** The code's number, with the number of its zeros made explicit. */
  function CodeNumber(d: Directive, number: nat, precision: int, zeros: int): string {
    if precision == 0 && number == 0 then ""
    else CodePrefix(d, number) + Fill('0', Max(0, zeros)) + NumberDigits(d, number)
  }

  /** Without a zero flag the code prints sign, prefix, zeros up to the precision, and digits. */
  lemma PlainText(d: Directive, value: int, size: nat)
    requires IntegerCase(d, value) && Sized(d, size) && Zero !in NumberSpec(d, value).flags
    ensures
      var s, number := NumberSpec(d, value), Absolute(value);
      && ZeroRewrite(s) == s
      && SizedText(s, Magnitude(value), size) == StdSign(d, value < 0)
           + CodeNumber(d, number, s.precision, s.precision - |NumberDigits(d, number)|)
  {
    SpecParts(d, value);
  }

  /** With it, the zeros reach up to the width, counting sign and prefix. */
  lemma ZeroedText(d: Directive, value: int, size: nat)
    requires IntegerCase(d, value) && Sized(d, size) && Zero in NumberSpec(d, value).flags
    ensures
      var s, number, sign := NumberSpec(d, value), Absolute(value), StdSign(d, value < 0);
      var width := s.width;
      if width >= 0 then
        && ZeroRewrite(s).width == 0
        && SizedText(s, Magnitude(value), size) == sign
             + CodeNumber(d, number, width - |sign|,
                          width - |sign| - |CodePrefix(d, number)| - |NumberDigits(d, number)|)
      else
        && ZeroRewrite(s).width == width
        && SizedText(s, Magnitude(value), size) == sign + CodePrefix(d, number) + NumberDigits(d, number)
  {
    SpecParts(d, value);
    var s, number, sign := NumberSpec(d, value), Absolute(value), StdSign(d, value < 0);
    var t := ZeroRewrite(s);
    assert PrefixOf(t, number) == CodePrefix(d, number);
    if s.width < 0 {
      assert CodePrefix(d, number) + Fill('0', 0) + NumberDigits(d, number)
          == CodePrefix(d, number) + NumberDigits(d, number);
      assert sign + (CodePrefix(d, number) + NumberDigits(d, number))
          == sign + CodePrefix(d, number) + NumberDigits(d, number);
    }
  }

  lemma NoBlanks(d: Directive, number: nat, precision: int, zeros: int)
    ensures ' ' !in CodeNumber(d, number, precision, zeros) && ' ' !in StdPrefix(d, number) + StdBody(d, number)
  {
    StdBodyDigits(d, number);
    DigitsNoBlank(number, StdRadix(d.conversion), d.conversion == 'X');
  }

  lemma OctalMatches(d: Directive, number: nat)
    requires d.conversion == 'o'
    requires
      var digits := Digits(number, 8, false);
      (digits[0] == '0' <==> number == 0) && (number == 0 ==> digits == "0")
    ensures
      var precision := d.precision.GetOr(-1);
      var code := CodeNumber(d, number, precision, precision - |NumberDigits(d, number)|);
      var std := StdPrefix(d, number) + StdBody(d, number);
      && (!OctalPrefixDiffers(d, number) ==> code == std)
      && (OctalPrefixDiffers(d, number) ==> |code| != |std|)
  {
    StdBodyDigits(d, number);
    hide Digits, StdDigits, StdBody;
    var precision, digits := d.precision.GetOr(-1), Digits(number, 8, false);
    var zeros := Fill('0', Max(0, precision - |digits|));
    assert StdPrefix(d, number) == "";
    if number == 0 && precision == 0 {
    } else {
      assert Fill('0', Max(0, StdPrecision(d).GetOr(1) - |digits|)) == zeros;
      if Alt in d.flags && number > 0 && precision <= |digits| {
        assert zeros + digits == digits;
        assert "0" + zeros + digits == "0" + digits;
      }
    }
  }

  /** Prefix, zeros and digits agree with the standard's except in the octal cases, where the lengths differ. */
  lemma NumberMatches(d: Directive, value: int)
    requires IntegerCase(d, value)
    ensures
      var number, precision := Absolute(value), d.precision.GetOr(-1);
      var code := CodeNumber(d, number, precision, precision - |NumberDigits(d, number)|);
      var std := StdPrefix(d, number) + StdBody(d, number);
      && (!OctalPrefixDiffers(d, value) ==> code == std)
      && (OctalPrefixDiffers(d, value) ==> |code| != |std|)
  {
    StdBodyDigits(d, Absolute(value));
    hide Digits, StdDigits, StdBody;
    var number := Absolute(value);
    var digits := NumberDigits(d, number);
    LeadingDigit(number, StdRadix(d.conversion), d.conversion == 'X');
    if d.conversion == 'o' {
      OctalMatches(d, number);
    } else if number == 0 && StdPrecision(d) == Some(0) {
      assert StdBody(d, number) == "";
    } else {
      var precision := d.precision.GetOr(-1);
      assert StdBody(d, number) == Fill('0', Max(0, precision - |digits|)) + digits;
    }
  }

  /** Two fields of the same text with different padding: equal only when both paddings come to the same. */
  lemma PaddingTells(width: int, text: string, minus: bool, sign: string, prefix: string, body: string)
    requires text == sign + prefix + body
    ensures
      var filled := sign + prefix + Fill('0', Padding(width, |text|)) + body;
      filled == Justified(width, text, minus) <==> width <= |text|
  {
    var n := Padding(width, |text|);
    var zeros := Fill('0', n);
    InkJustified(width, text, minus);
    InkConcat(sign + prefix, body);
    InkConcat(sign + prefix, zeros + body);
    InkConcat(zeros, body);
    InkFull(zeros);
    assert sign + prefix + zeros + body == sign + prefix + (zeros + body);
    if width <= |text| {
      assert zeros + body == body;
    }
  }

  /** Where the number itself is the standard's, only the padding can differ. */
  lemma SameNumber(d: Directive, value: int, text: string)
    requires text == StdSign(d, value < 0) + StdPrefix(d, Absolute(value)) + StdBody(d, Absolute(value))
    requires !(Zero in d.flags && Minus !in d.flags && d.precision == None)
    ensures
      Justified(d.width.GetOr(-1), text, Minus in d.flags) == StdNumber(d, value) <==>
        !NegativeWidthDiffers(d, |text|) && !NegativePrecisionDiffers(d, |text|)
  {
    hide StdBody, StdPrefix, StdSign;
    var sign, prefix, body := StdSign(d, value < 0), StdPrefix(d, Absolute(value)), StdBody(d, Absolute(value));
    PaddingTells(StdWidth(d), text, false, sign, prefix, body);
  }

  /** Where the number differs in length, no padding makes up for it. */
  lemma OtherNumber(d: Directive, value: int, number: string)
    requires d.conversion == 'o' && StdPrecision(d).Some? && ' ' !in number
    requires ' ' !in StdPrefix(d, Absolute(value)) + StdBody(d, Absolute(value))
    requires |number| != |StdPrefix(d, Absolute(value)) + StdBody(d, Absolute(value))|
    ensures Justified(d.width.GetOr(-1), StdSign(d, value < 0) + number, Minus in d.flags) != StdNumber(d, value)
  {
    hide StdBody, StdPrefix;
    var std := StdPrefix(d, Absolute(value)) + StdBody(d, Absolute(value));
    assert "" + number == number && "" + StdPrefix(d, Absolute(value)) + StdBody(d, Absolute(value)) == std;
    InkFull(number);
    InkFull(std);
    InkJustified(d.width.GetOr(-1), number, Minus in d.flags);
    InkJustified(StdWidth(d), std, StdMinus(d));
  }

  /** The theorem without a surviving zero flag. */
  lemma PlainConforms(d: Directive, value: int, size: nat)
    requires IntegerCase(d, value) && Sized(d, size) && Zero !in NumberSpec(d, value).flags
    ensures
      var s := NumberSpec(d, value);
      var code := Justified(ZeroRewrite(s).width, SizedText(s, Magnitude(value), size), Minus in d.flags);
      code == StdNumber(d, value) <==>
        && !OctalPrefixDiffers(d, value) && !NegativeWidthDiffers(d, StdNatural(d, value))
        && !NegativePrecisionDiffers(d, StdNatural(d, value))
  {
    hide Digits, StdDigits, CodeNumber, NumberSpec, ZeroRewrite, SizedText, IntegerCase, Justified;
    hide StdBody, StdPrefix, StdSign, StdNumber;
    SpecParts(d, value);
    PlainText(d, value, size);
    NumberMatches(d, value);
    var s, number, sign := NumberSpec(d, value), Absolute(value), StdSign(d, value < 0);
    var codeNumber := CodeNumber(d, number, s.precision, s.precision - |NumberDigits(d, number)|);
    if OctalPrefixDiffers(d, value) {
      NoBlanks(d, number, s.precision, s.precision - |NumberDigits(d, number)|);
      OtherNumber(d, value, codeNumber);
    } else {
      assert sign + codeNumber == sign + StdPrefix(d, number) + StdBody(d, number);
      SameNumber(d, value, sign + codeNumber);
    }
  }

  lemma ZerosCommute(n: nat, digits: string)
    ensures "0" + Fill('0', n) + digits == Fill('0', n) + ("0" + digits)
  {
    assert forall k | 0 <= k < n + 1 :: ("0" + Fill('0', n))[k] == '0' && (Fill('0', n) + "0")[k] == '0';
    assert "0" + Fill('0', n) == Fill('0', n) + "0";
  }

  lemma BodyWithoutPrecision(d: Directive, number: nat)
    requires StdPrecision(d) == None
    ensures
      var digits := NumberDigits(d, number);
      if Alt in d.flags && number != 0 && d.conversion == 'o' then
        StdBody(d, number) == "0" + digits && StdPrefix(d, number) == "" && CodePrefix(d, number) == "0"
      else StdBody(d, number) == digits && CodePrefix(d, number) == StdPrefix(d, number)
  {
    StdBodyDigits(d, number);
    hide Digits, StdDigits, StdBody;
    var digits := NumberDigits(d, number);
    LeadingDigit(number, StdRadix(d.conversion), d.conversion == 'X');
    assert Fill('0', Max(0, 1 - |digits|)) + digits == digits;
  }

  /** Without a precision, zeros go between the code's prefix and its digits as between the standard's. */
  lemma ZerosInside(d: Directive, number: nat, n: nat)
    requires StdPrecision(d) == None
    ensures
      var digits := NumberDigits(d, number);
      && |StdPrefix(d, number)| + |StdBody(d, number)| == |CodePrefix(d, number)| + |digits|
      && CodePrefix(d, number) + Fill('0', n) + digits == StdPrefix(d, number) + Fill('0', n) + StdBody(d, number)
  {
    hide NumberDigits, StdBody, StdPrefix, CodePrefix;
    BodyWithoutPrecision(d, number);
    ZerosCommute(n, NumberDigits(d, number));
    assert "" + Fill('0', n) == Fill('0', n);
  }

  lemma DigitsNonEmpty(d: Directive, number: nat)
    ensures |NumberDigits(d, number)| >= 1
  {
  }

  /** With a width of at least 0, the zero flag's text is the standard's unless it loses the only digit. */
  lemma ZeroFilled(d: Directive, value: int, size: nat)
    requires IntegerCase(d, value) && Sized(d, size) && Zero in NumberSpec(d, value).flags && d.width.GetOr(-1) >= 0
    ensures
      var s := NumberSpec(d, value);
      SizedText(s, Magnitude(value), size) == StdNumber(d, value) <==> !LosesZero(d, value)
  {
    hide NumberSpec, ZeroRewrite, SizedText, IntegerCase, StdBody, StdPrefix, NumberDigits, StdSign, CodePrefix;
    SpecParts(d, value);
    ZeroedText(d, value, size);
    var number, sign, digits := Absolute(value), StdSign(d, value < 0), NumberDigits(d, Absolute(value));
    var prefix, body, codePrefix := StdPrefix(d, number), StdBody(d, number), CodePrefix(d, number);
    ZerosInside(d, number, 0);
    var n := Padding(d.width.value, |sign| + |prefix| + |body|);
    ZerosInside(d, number, n);
    assert sign + (codePrefix + Fill('0', n) + digits) == sign + prefix + Fill('0', n) + body;
    if LosesZero(d, value) {
      assert |digits| >= 1 by { DigitsNonEmpty(d, number); }
    } else if value == 0 {
      assert d.width.value != |StdSign(d, false)|;
    }
  }

  /** A negative width argument: the zero flag has nothing to fill. */
  lemma ZeroNegativeWidth(d: Directive, value: int, size: nat)
    requires IntegerCase(d, value) && Sized(d, size) && Zero in NumberSpec(d, value).flags && d.width.GetOr(-1) < 0
    ensures
      var s := NumberSpec(d, value);
      Justified(ZeroRewrite(s).width, SizedText(s, Magnitude(value), size), Minus in d.flags) == StdNumber(d, value)
      <==> !NegativeWidthDiffers(d, StdNatural(d, value))
  {
    hide NumberSpec, ZeroRewrite, SizedText, IntegerCase, StdBody, StdPrefix, NumberDigits, StdSign, CodePrefix;
    SpecParts(d, value);
    ZeroedText(d, value, size);
    var number, sign, digits := Absolute(value), StdSign(d, value < 0), NumberDigits(d, Absolute(value));
    var prefix, body, codePrefix := StdPrefix(d, number), StdBody(d, number), CodePrefix(d, number);
    ZerosInside(d, number, 0);
    assert prefix + Fill('0', 0) + body == prefix + body && codePrefix + Fill('0', 0) + digits == codePrefix + digits;
    assert sign + codePrefix + digits == sign + (codePrefix + digits) == sign + (prefix + body) == sign + prefix + body;
    assert sign + prefix + Fill('0', 0) + body == sign + prefix + body;
  }

  /** With a surviving zero flag no precision was given, and the emulation is exact up to two differences. */
  lemma ZeroConforms(d: Directive, value: int, size: nat)
    requires IntegerCase(d, value) && Sized(d, size) && Zero in NumberSpec(d, value).flags
    ensures
      var s := NumberSpec(d, value);
      var code := Justified(ZeroRewrite(s).width, SizedText(s, Magnitude(value), size), Minus in d.flags);
      && d.precision == None
      && (code == StdNumber(d, value) <==> !LosesZero(d, value) && !NegativeWidthDiffers(d, StdNatural(d, value)))
  {
    hide NumberSpec, ZeroRewrite, SizedText, IntegerCase, StdBody, StdPrefix, StdSign, StdNumber;
    SpecParts(d, value);
    if d.width.GetOr(-1) >= 0 {
      ZeroFilled(d, value, size);
      ZeroedText(d, value, size);
    } else {
      ZeroNegativeWidth(d, value, size);
    }
  }

  // A short argument out of range

  lemma StdBodyDenotes(d: Directive, number: nat)
    ensures Denotes(StdBody(d, number), number, StdRadix(d.conversion))
  {
    StdBodyDigits(d, number);
    hide Digits, StdDigits, Denotes, StdBody;
    var radix := StdRadix(d.conversion);
    var precision := StdPrecision(d).GetOr(1);
    DigitsDenote(number, radix, d.conversion == 'X');
    EmptyDenotes(radix);
    var digits := if number == 0 && precision == 0 then "" else NumberDigits(d, number);
    var zeros := Fill('0', Max(0, precision - |digits|));
    DenotesAfter(zeros, digits, number, radix);
    DenotesAfter("0", zeros + digits, number, radix);
  }

  lemma NotPadded(text: string)
    ensures Justified(0, text, false) == text
  {
  }

  /** The standard's field denotes its value. */
  lemma StdNumberReads(d: Directive, value: int)
    requires value >= 0 || IsSigned(d.conversion)
    ensures Reading(StdNumber(d, value), StdRadix(d.conversion)) == value
  {
    hide Denotes, StdBody, Reading, Justified;
    var number, radix := Absolute(value), StdRadix(d.conversion);
    var sign, prefix, body := StdSign(d, value < 0), StdPrefix(d, number), StdBody(d, number);
    var zeros := Fill('0', Padding(StdWidth(d), |sign| + |prefix| + |body|));
    StdBodyDenotes(d, number);
    DenotesAfter(prefix, body, number, radix);
    DenotesAfter(prefix + zeros, body, number, radix);
    JustifiedReads(StdWidth(d), sign, prefix + body, StdMinus(d), number, radix);
    JustifiedReads(0, sign, prefix + zeros + body, false, number, radix);
    NotPadded(sign + (prefix + zeros + body));
    assert sign + (prefix + zeros + body) == sign + prefix + zeros + body;
    assert sign + (prefix + body) == sign + prefix + body;
  }

  /** Two different values never have the same field. */
  lemma OtherValue(d: Directive, value: int, std: int, size: nat)
    requires IntegerCase(d, value) && value != std && (std >= 0 || IsSigned(d.conversion))
    ensures
      var s := NumberSpec(d, value);
      Justified(ZeroRewrite(s).width, SizedText(s, Magnitude(value), size), Minus in d.flags) != StdNumber(d, std)
  {
    hide Reading, Justified, SizedText, ZeroRewrite, NumberSpec, StdNumber, IntegerCase, Magnitude;
    SpecParts(d, value);
    FormattedReads(NumberSpec(d, value), Magnitude(value), size);
    StdNumberReads(d, std);
  }

  /** The code reads the standard's value except for a short argument out of range, which it does not narrow. */
  lemma NarrowingMeetsStandard(d: Directive, args: seq<Arg>)
    ensures NumberValue(d, args) == StdValue(d, args) <==> !ShortDiffers(d, IntAt(args, d.arg))
  {
  }

  // The theorem

  /** Which differences can occur with and without a surviving zero flag. */
  lemma ZeroNeeds(d: Directive, value: int)
    requires IntegerCase(d, value)
    ensures Zero !in NumberSpec(d, value).flags ==> !LosesZero(d, value)
    ensures Zero in NumberSpec(d, value).flags ==>
      !OctalPrefixDiffers(d, value) && !NegativePrecisionDiffers(d, StdNatural(d, value))
  {
    SpecParts(d, value);
    hide NumberSpec, StdNatural, IntegerCase;
  }

  /** With arrays that hold width and precision there are five differences. */
  lemma SizedMeetsStandard(d: Directive, value: int, std: int, size: nat)
    requires IntegerCase(d, value) && Sized(d, size) && (std >= 0 || IsSigned(d.conversion))
    ensures
      var s := NumberSpec(d, value);
      Justified(ZeroRewrite(s).width, SizedText(s, Magnitude(value), size), Minus in d.flags) == StdNumber(d, std) <==>
        && value == std && !LosesZero(d, std) && !OctalPrefixDiffers(d, std)
        && !NegativeWidthDiffers(d, StdNatural(d, std)) && !NegativePrecisionDiffers(d, StdNatural(d, std))
  {
    hide NumberSpec, ZeroRewrite, SizedText, Magnitude, Justified, StdNumber, StdNatural, Sized;
    hide LosesZero, OctalPrefixDiffers, NegativeWidthDiffers, NegativePrecisionDiffers;
    ZeroNeeds(d, value);
    if value != std {
      OtherValue(d, value, std, size);
    } else if Zero !in NumberSpec(d, value).flags {
      PlainConforms(d, value, size);
    } else {
      ZeroConforms(d, value, size);
    }
  }

  lemma SameArgType(d: Directive)
    requires d.conversion != 'p'
    ensures ArgType(d) == StdArgType(d)
  {
  }

  /** The arrays hold the text exactly when they are not overrun. */
  lemma ReadyExact(d: Directive, args: seq<Arg>)
    requires (IsSigned(d.conversion) || IsUnsigned(d.conversion)) && HasArg(args, d.arg, ArgType(d)) && Huge !in d.flags
    ensures IntegerCase(d, NumberValue(d, args))
    ensures NumberReady(d, args) <==> !OverrunsArrays(d, NumberValue(d, args))
  {
    FieldsReady(d, args);
    SpecParts(d, NumberValue(d, args));
    hide NumberReady, NumberSpec, Magnitude, StdSign, CodePrefix;
  }

  /** Inside the arrays the text is what larger ones would give. */
  lemma ReadyText(d: Directive, args: seq<Arg>, size: nat)
    requires NumberReady(d, args) && size >= MAX_NUMBER_LEN
    ensures
      var value := NumberValue(d, args);
      var s := NumberSpec(d, value);
      FullText(d, args) == Justified(ZeroRewrite(s).width, SizedText(s, Magnitude(value), size), Minus in d.flags)
  {
    var value := NumberValue(d, args);
    LargerArrays(NumberSpec(d, value), Magnitude(value), size);
    hide NumberSpec, SizedText, ZeroRewrite, Justified;
  }

  /** The code stays inside its arrays and prints the text. */
  predicate Prints(d: Directive, args: seq<Arg>, text: string) {
    (IsNumber(d.conversion) ==> NumberReady(d, args)) && FullText(d, args) == text
  }

  lemma ReadyMeetsStandard(d: Directive, args: seq<Arg>)
    requires NumberReady(d, args) && IntegerCase(d, NumberValue(d, args))
    ensures
      var std := StdValue(d, args);
      FullText(d, args) == StdNumber(d, std) <==>
        && NumberValue(d, args) == std && !LosesZero(d, std) && !OctalPrefixDiffers(d, std)
        && !NegativeWidthDiffers(d, StdNatural(d, std)) && !NegativePrecisionDiffers(d, StdNatural(d, std))
  {
    var size: nat := Max(MAX_NUMBER_LEN, Max(d.width.GetOr(-1), d.precision.GetOr(-1)));
    assert Sized(d, size);
    hide NumberSpec, ZeroRewrite, SizedText, Magnitude, Justified, StdNumber, StdNatural, FullText, NumberReady;
    hide Sized, LosesZero, OctalPrefixDiffers, NegativeWidthDiffers, NegativePrecisionDiffers, NumberValue;
    ReadyText(d, args, size);
    SizedMeetsStandard(d, NumberValue(d, args), StdValue(d, args), size);
  }

  /** What conforming means, and the standard's text, for a number. */
  lemma NumberCase(d: Directive, args: seq<Arg>)
    requires Defined(d, args) && IsNumber(d.conversion)
    ensures IsSigned(d.conversion) || IsUnsigned(d.conversion)
    ensures StdText(d, args) == StdNumber(d, StdValue(d, args))
    ensures
      var value := StdValue(d, args);
      Conforms(d, args) <==>
        && !ShortDiffers(d, IntAt(args, d.arg)) && !OverrunsArrays(d, value)
        && !LosesZero(d, value) && !OctalPrefixDiffers(d, value)
        && !NegativeWidthDiffers(d, StdNatural(d, value)) && !NegativePrecisionDiffers(d, StdNatural(d, value))
  {
    hide StdValue, StdNumber, StdNatural, LosesZero, OctalPrefixDiffers, NegativeWidthDiffers;
    hide NegativePrecisionDiffers, OverrunsArrays, ShortDiffers;
  }

  lemma NumberMeetsStandard(d: Directive, args: seq<Arg>)
    requires Huge !in d.flags && Defined(d, args) && IsNumber(d.conversion) && HasArg(args, d.arg, StdArgType(d))
    ensures Prints(d, args, StdText(d, args)) <==> Conforms(d, args)
  {
    SameArgType(d);
    NumberCase(d, args);
    hide NumberReady, NumberValue, StdValue, StdNumber, StdNatural, FullText, ArgType, StdArgType, ShortDiffers;
    hide IntegerCase, LosesZero, OctalPrefixDiffers, NegativeWidthDiffers, NegativePrecisionDiffers, OverrunsArrays;
    hide Defined, Conforms, StdText, HasArg;
    ReadyExact(d, args);
    NarrowingMeetsStandard(d, args);
    if NumberReady(d, args) {
      ReadyMeetsStandard(d, args);
    }
  }

  /**
   The code prints the standard's text exactly when the directive conforms, for every directive that the standard
   defines and every argument of its type.
   */
  lemma MeetsStandard(d: Directive, args: seq<Arg>)
    requires Huge !in d.flags && Defined(d, args)
    requires IsNumber(d.conversion) ==> HasArg(args, d.arg, StdArgType(d))
    ensures Prints(d, args, StdText(d, args)) <==> Conforms(d, args)
  {
    hide StdNumber, NumberReady;
    if IsNumber(d.conversion) {
      NumberMeetsStandard(d, args);
    }
  }

  /** The directive without what the standard leaves undefined for its conversion, the modifier `l` included. */
  function Plain(d: Directive): Directive {
    if IsSigned(d.conversion) || d.conversion == 'u' then d.(flags := d.flags - {Alt})
    else if d.conversion == 'c' then d.(flags := d.flags - {Alt, Zero}, precision := None, length := NoLength)
    else if d.conversion == 's' then d.(flags := d.flags - {Alt, Zero}, length := NoLength)
    else if d.conversion == '%' then d.(flags := {}, width := None, precision := None, length := NoLength)
    else d
  }

  lemma IgnoredInNumbers(d: Directive, args: seq<Arg>)
    requires IsNumber(d.conversion)
    ensures FieldOf(d, args) == FieldOf(Plain(d), args) && (Minus in d.flags <==> Minus in Plain(d).flags)
  {
    var value := NumberValue(d, args);
    assert NumberValue(Plain(d), args) == value;
    assert NumberSpec(d, value) == NumberSpec(Plain(d), value);
  }

  /** The code ignores all of that: `%ls` and `%lc` print narrow characters. */
  lemma UndefinedIgnored(d: Directive, args: seq<Arg>)
    ensures FullText(d, args) == FullText(Plain(d), args)
  {
    if IsNumber(d.conversion) {
      IgnoredInNumbers(d, args);
    }
  }

  // Letters, and what the standard leaves to the implementation

  predicate IsUpper(c: char) { 'A' <= c <= 'Z' }

  predicate IsLower(c: char) { 'a' <= c <= 'z' }

  /** Letters of one case only. */
  predicate OneCase(s: string, upper: bool) {
    forall i | 0 <= i < |s| :: if upper then !IsLower(s[i]) else !IsUpper(s[i])
  }

  lemma {:induction false} DigitsCase(n: nat, radix: int, upper: bool)
    requires IsRadix(radix)
    ensures OneCase(Digits(n, radix, upper), upper)
    decreases n
  {
    SameDigit(Remainder(n, radix), upper);
    if n >= radix {
      DigitsCase(Quotient(n, radix), radix, upper);
    } else {
      SameDigit(n, upper);
    }
  }

  lemma NumberTextCase(s: Spec, number: nat, size: nat)
    requires IsRadix(s.radix)
    ensures OneCase(NumberText(s, number, size), Huge in s.flags)
  {
    hide Digits;
    DigitsCase(number, s.radix, Huge in s.flags);
  }

  lemma SpecCase(s: Spec, number: nat)
    requires IsRadix(s.radix)
    ensures OneCase(Justified(ZeroRewrite(s).width, SignedText(s, number), Minus in s.flags), Huge in s.flags)
  {
    hide NumberText;
    NumberTextCase(ZeroRewrite(s), number, MAX_NUMBER_LEN);
  }

  /** `%X` prints no small letter, every other number directive no capital one. */
  lemma LetterCase(d: Directive, args: seq<Arg>)
    requires NumberReady(d, args) && Huge !in d.flags
    ensures OneCase(FullText(d, args), d.conversion == 'X')
  {
    var value := NumberValue(d, args);
    SpecCase(NumberSpec(d, value), Magnitude(value));
    SpecOfValue(d, args);
    hide SignedText, Justified, ZeroRewrite;
  }

  /** A positive number in hexadecimal without flags. */
  lemma PlainHex(s: Spec, number: nat)
    requires s.radix == 16 && s.flags <= {Minus} && !s.negative && number > 0
    requires |SignedText(s, number)| <= MAX_NUMBER_LEN
    ensures ZeroRewrite(s) == s
    ensures
      var digits := StdDigits(number, 16, false);
      SignedText(s, number) == Fill('0', Max(0, s.precision - |digits|)) + digits
  {
    SameDigits(number, 16, false);
    hide Digits, StdDigits;
    assert Zero !in s.flags && Alt !in s.flags && Huge !in s.flags && Plus !in s.flags && Space !in s.flags;
  }

  lemma PointerSpec(d: Directive, args: seq<Arg>)
    requires NumberReady(d, args) && d.conversion == 'p' && Huge !in d.flags
    ensures
      var value := NumberValue(d, args);
      var s := NumberSpec(d, value);
      && Magnitude(value) == value > 0
      && s.radix == 16 && s.flags <= {Minus} && (Minus in s.flags <==> Minus in d.flags) && !s.negative
      && s.width == d.width.GetOr(-1)
      && s.precision == if d.width.GetOr(-1) == -1 && d.precision.GetOr(-1) == -1 then 16 else d.precision.GetOr(-1)
  {
    hide SignedText;
    var s := NumberSpec(d, NumberValue(d, args));
    forall f | f in s.flags ensures f == Minus {
      match f case Minus => case Plus => case Space => case Alt => case Zero => case Huge =>
    }
  }

  /** A pointer prints in small hexadecimal digits, with 16 of them when neither width nor precision is given. */
  lemma PointerText(d: Directive, args: seq<Arg>)
    requires NumberReady(d, args) && d.conversion == 'p' && Huge !in d.flags
    ensures
      var value := NumberValue(d, args);
      value > 0 &&
      var digits := StdDigits(value, 16, false);
      var precision := if d.width.GetOr(-1) == -1 && d.precision.GetOr(-1) == -1 then 16 else d.precision.GetOr(-1);
      FullText(d, args)
      == Justified(d.width.GetOr(-1), Fill('0', Max(0, precision - |digits|)) + digits, Minus in d.flags)
  {
    PointerSpec(d, args);
    hide NumberSpec, SignedText, StdDigits, Justified, NumberValue, Magnitude;
    PlainHex(NumberSpec(d, NumberValue(d, args)), NumberValue(d, args));
  }

  /** A null string prints as "(null)", cut to the precision. */
  lemma NullText(d: Directive, args: seq<Arg>)
    requires d.conversion == 's' && d.arg < |args| && args[d.arg] == Text(None)
    ensures
      var precision := d.precision.GetOr(-1);
      var text := "(null)"[..if precision >= 0 then Min(6, precision) else 6];
      FullText(d, args) == Justified(d.width.GetOr(-1), text, Minus in d.flags)
  {
  }

  // Whole formats

  /** The precision is written with a minus sign, which is no format of the standard. */
  predicate NegativeLiteral(fmt: string, i: nat, args: seq<Arg>, k: nat)
    requires i <= |fmt|
  {
    var at := ParseWidth(fmt, FlagsEnd(fmt, i), args, k).at;
    At(fmt, at) == '.' && At(fmt, at + 1) == '-'
  }

  /** The directive ends inside the format and has arguments of the right types. */
  predicate Typed(fmt: string, i: nat, args: seq<Arg>, k: nat)
    requires i <= |fmt|
  {
    var d := ParseDirective(fmt, i, args, k);
    && FieldsReadable(fmt, i, args, k) && d.next <= |fmt|
    && (IsNumber(d.conversion) ==> HasArg(args, d.arg, StdArgType(d)))
    && (d.conversion == 'c' ==> IsInt(args, d.arg))
  }

  /** Every directive is one that the standard defines, with its arguments. */
  predicate AllDefined(fmt: string, i: nat, args: seq<Arg>, k: nat)
    requires i <= |fmt|
    decreases |fmt| - i
  {
    i == |fmt| ||
    if fmt[i] != '%' then AllDefined(fmt, i + 1, args, k)
    else
      && Typed(fmt, i + 1, args, k) && !NegativeLiteral(fmt, i + 1, args, k)
      && var d := ParseDirective(fmt, i + 1, args, k);
         Defined(d, args) && AllDefined(fmt, d.next, args, ArgAfter(d))
  }

  /** The standard's output of a format. */
  function StdRender(fmt: string, i: nat, args: seq<Arg>, k: nat): string
    requires i <= |fmt| && AllDefined(fmt, i, args, k)
    decreases |fmt| - i
  {
    if i == |fmt| then ""
    else if fmt[i] != '%' then [fmt[i]] + StdRender(fmt, i + 1, args, k)
    else
      var d := ParseDirective(fmt, i + 1, args, k);
      StdText(d, args) + StdRender(fmt, d.next, args, ArgAfter(d))
  }

  predicate AllConform(fmt: string, i: nat, args: seq<Arg>, k: nat)
    requires i <= |fmt| && AllDefined(fmt, i, args, k)
    decreases |fmt| - i
  {
    i == |fmt| ||
    if fmt[i] != '%' then AllConform(fmt, i + 1, args, k)
    else
      var d := ParseDirective(fmt, i + 1, args, k);
      Conforms(d, args) && AllConform(fmt, d.next, args, ArgAfter(d))
  }

  lemma NoHugeFlag(fmt: string, i: nat, args: seq<Arg>, k: nat)
    requires i <= |fmt|
    ensures Huge !in ParseDirective(fmt, i, args, k).flags
  {
  }

  lemma ConformingIsLegal(fmt: string, i: nat, args: seq<Arg>, k: nat)
    requires i <= |fmt| && Typed(fmt, i, args, k)
    requires var d := ParseDirective(fmt, i, args, k); Defined(d, args) && Conforms(d, args)
    ensures
      var d := ParseDirective(fmt, i, args, k);
      Legal(fmt, i, args, k) && FullText(d, args) == StdText(d, args) && d.next <= |fmt|
  {
    if IsNumber(ParseDirective(fmt, i, args, k).conversion) { SameArgType(ParseDirective(fmt, i, args, k)); }
    NoHugeFlag(fmt, i, args, k);
    MeetsStandard(ParseDirective(fmt, i, args, k), args);
    hide ParseDirective, FieldsReadable, NumberReady, FullText, StdText, Conforms;
  }

  /** A format of conforming directives is legal and prints what the standard asks for. */
  lemma {:induction false} RenderMeetsStandard(fmt: string, i: nat, args: seq<Arg>, k: nat)
    requires i <= |fmt| && AllDefined(fmt, i, args, k) && AllConform(fmt, i, args, k)
    ensures EveryLegal(fmt, i, args, k) && Render(fmt, i, args, k) == StdRender(fmt, i, args, k)
    decreases |fmt| - i
  {
    hide Legal, Typed, ParseDirective, FullText, StdText, Conforms, Defined, NegativeLiteral;
    if i < |fmt| {
      if fmt[i] != '%' {
        RenderMeetsStandard(fmt, i + 1, args, k);
      } else {
        var d := ParseDirective(fmt, i + 1, args, k);
        ConformingIsLegal(fmt, i + 1, args, k);
        RenderMeetsStandard(fmt, d.next, args, ArgAfter(d));
      }
    }
  }
}
