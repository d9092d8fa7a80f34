/** A printed number can be read back: whatever flags, width and precision, its field denotes the value. */
module ReadBack {
  import opened Buffers
  import opened Numerals
  import opened Directives
  import opened FormatSpecs
  import opened Numbers
  import opened Formatter
  import opened Driver
  import opened Reference

  /** The digits of a field in order; blanks, signs and the x of a prefix are passed over. */
  function DigitsOf(s: string): string {
    if s == "" then ""
    else DigitsOf(s[..|s| - 1]) + if DigitValue(s[|s| - 1]) < 16 then [s[|s| - 1]] else ""
  }

  function Signed(negative: bool, number: nat): int { if negative then -(number as int) else number }

  /** The number that a field denotes. */
  function Reading(s: string, radix: int): int
    requires IsRadix(radix)
  {
    Signed('-' in s, Value(DigitsOf(s), radix))
  }

  lemma {:induction false} DigitsOfConcat(a: string, b: string)
    ensures DigitsOf(a + b) == DigitsOf(a) + DigitsOf(b)
  {
    if b == "" {
      assert a + b == a;
    } else {
      DigitsOfConcat(a, b[..|b| - 1]);
      assert (a + b)[..|a + b| - 1] == a + b[..|b| - 1];
    }
  }

  lemma {:induction false} DigitsOfDigits(s: string)
    requires AllDigits(s, 16)
    ensures DigitsOf(s) == s
  {
    if s != "" {
      DigitsOfDigits(s[..|s| - 1]);
      assert s == s[..|s| - 1] + [s[|s| - 1]];
    }
  }

  /** What can stand before the digits without changing the number: zeros, blanks, a plus and the x of a prefix. */
  predicate Leads(c: char) { c == '0' || c == ' ' || c == '+' || c == 'x' || c == 'X' }

  predicate Lead(s: string) { forall i | 0 <= i < |s| :: Leads(s[i]) }

  predicate Zeros(s: string) { forall i | 0 <= i < |s| :: s[i] == '0' }

  lemma {:induction false} LeadZeros(s: string)
    requires Lead(s)
    ensures Zeros(DigitsOf(s))
  {
    if s != "" {
      LeadZeros(s[..|s| - 1]);
    }
  }

  lemma {:induction false} ValueAfterZeros(z: string, s: string, radix: int)
    requires IsRadix(radix) && Zeros(z)
    ensures Value(z + s, radix) == Value(s, radix)
    decreases |s|, |z|
  {
    if s != "" {
      assert (z + s)[..|z + s| - 1] == z + s[..|s| - 1];
      ValueAfterZeros(z, s[..|s| - 1], radix);
    } else if z != "" {
      assert (z + s)[..|z + s| - 1] == z[..|z| - 1] + s;
      ValueAfterZeros(z[..|z| - 1], s, radix);
    }
  }

  /** An unsigned text denotes the number. */
  predicate Denotes(body: string, number: nat, radix: int)
    requires IsRadix(radix)
  {
    '-' !in body && Value(DigitsOf(body), radix) == number
  }

  lemma DenotesAfter(lead: string, body: string, number: nat, radix: int)
    requires IsRadix(radix) && Lead(lead) && Denotes(body, number, radix)
    ensures Denotes(lead + body, number, radix)
  {
    hide DigitsOf, Value;
    DigitsOfConcat(lead, body);
    LeadZeros(lead);
    ValueAfterZeros(DigitsOf(lead), DigitsOf(body), radix);
    forall i | 0 <= i < |lead + body| ensures (lead + body)[i] != '-' {
      if i < |lead| { assert Leads(lead[i]); } else { assert (lead + body)[i] in body; }
    }
  }

  lemma DigitsDenote(number: nat, radix: int, upper: bool)
    requires IsRadix(radix)
    ensures Denotes(Digits(number, radix, upper), number, radix)
  {
    hide Digits, DigitsOf, Value;
    DigitsValue(number, radix, upper);
    DigitsOfDigits(Digits(number, radix, upper));
  }

  lemma EmptyDenotes(radix: int)
    requires IsRadix(radix)
    ensures Denotes("", 0, radix)
  {
  }

  lemma NumberTextDenotes(s: Spec, number: nat, size: nat)
    requires IsRadix(s.radix)
    ensures Denotes(NumberText(s, number, size), number, s.radix)
  {
    hide Digits, DigitsOf, Value;
    if s.precision == 0 && number == 0 {
      EmptyDenotes(s.radix);
    } else {
      var lead := PrefixOf(s, number) + Fill('0', ZeroCount(s, number, size));
      var digits := Digits(number, s.radix, Huge in s.flags);
      DigitsDenote(number, s.radix, Huge in s.flags);
      DenotesAfter(lead, digits, number, s.radix);
    }
  }

  predicate IsSign(sign: string) { sign == "" || sign == "-" || sign == "+" || sign == " " }

  lemma BlanksHaveNoDigits(n: nat)
    ensures DigitsOf(Fill(' ', n)) == ""
  {
    if n > 0 {
      BlanksHaveNoDigits(n - 1);
      assert Fill(' ', n)[..n - 1] == Fill(' ', n - 1);
    }
  }

  lemma SignHasNoDigits(sign: string)
    requires IsSign(sign)
    ensures DigitsOf(sign) == ""
  {
  }

  lemma JustifiedReads(width: int, sign: string, body: string, minus: bool, number: nat, radix: int)
    requires IsRadix(radix) && IsSign(sign) && Denotes(body, number, radix)
    ensures Reading(Justified(width, sign + body, minus), radix) == Signed(sign == "-", number)
  {
    hide DigitsOf, Value;
    var text, blanks := sign + body, Fill(' ', Padding(width, |sign + body|));
    BlanksHaveNoDigits(Padding(width, |text|));
    SignHasNoDigits(sign);
    DigitsOfConcat(sign, body);
    DigitsOfConcat(text, blanks);
    DigitsOfConcat(blanks, text);
    assert DigitsOf(Justified(width, text, minus)) == DigitsOf(body);
    if sign == "-" { assert text[0] == '-'; assert '-' in text; }
    assert '-' in Justified(width, text, minus) <==> '-' in text;
  }

  /** The field of format_number denotes the number with its sign, for every specification and size of its arrays. */
  lemma FormattedReads(s: Spec, number: nat, size: nat)
    requires IsRadix(s.radix)
    ensures Reading(Justified(ZeroRewrite(s).width, SizedText(s, number, size), Minus in s.flags), s.radix)
         == Signed(s.negative, number)
  {
    hide Reading, NumberText, Denotes, Justified;
    var t := ZeroRewrite(s);
    NumberTextDenotes(t, number, size);
    JustifiedReads(t.width, SignOf(s), NumberText(t, number, size), Minus in s.flags, number, s.radix);
  }

  lemma SpecOfValue(d: Directive, args: seq<Arg>)
    requires NumberReady(d, args)
    ensures
      var value := NumberValue(d, args);
      && Signed(NumberSpec(d, value).negative, Magnitude(value)) == value
      && (Minus in NumberSpec(d, value).flags <==> Minus in d.flags)
  {
    hide SignedText;
  }

  /** The uncut field of every number directive denotes the value that the code has read, the digitless 0 included. */
  lemma FieldReadsBack(d: Directive, args: seq<Arg>)
    requires NumberReady(d, args)
    ensures
      var value := NumberValue(d, args);
      Reading(FullText(d, args), NumberSpec(d, value).radix) == value
  {
    SpecOfValue(d, args);
    hide Reading, Justified, SizedText, ZeroRewrite, NumberSpec, NumberValue, Magnitude;
    var value := NumberValue(d, args);
    FormattedReads(NumberSpec(d, value), Magnitude(value), MAX_NUMBER_LEN);
  }
}
