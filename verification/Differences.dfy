/**
 Inputs on which the library's output is not what the C standard asks for, what it does not implement at all, and
 some inputs on which flags, letters and array sizes show.
 */
module Differences {
  import opened Options
  import opened Buffers
  import opened Numerals
  import opened Directives
  import opened FormatSpecs
  import opened Numbers
  import opened Formatter
  import opened Driver
  import opened Reference
  import opened Standard

  /** The format is one number directive with an argument of its type, defined by the standard. */
  predicate IsDirective(fmt: string, args: seq<Arg>, d: Directive) {
    && |fmt| >= 2 && fmt[0] == '%' && ParseDirective(fmt, 1, args, 0) == d && d.next == |fmt|
    && FieldsReadable(fmt, 1, args, 0) && !NegativeLiteral(fmt, 1, args, 0)
    && IsNumber(d.conversion) && HasArg(args, d.arg, ArgType(d)) && Defined(d, args) && Huge !in d.flags
  }

  lemma Alone(fmt: string, args: seq<Arg>, d: Directive)
    requires IsDirective(fmt, args, d)
    ensures AllDefined(fmt, 0, args, 0) && StdRender(fmt, 0, args, 0) == StdText(d, args)
    ensures AllConform(fmt, 0, args, 0) <==> Conforms(d, args)
    ensures EveryLegal(fmt, 0, args, 0) <==> NumberReady(d, args)
    ensures NumberReady(d, args) ==> Render(fmt, 0, args, 0) == FullText(d, args)
  {
    assert d.conversion != 'p' && d.conversion != 'n';
    hide ParseDirective, FieldsReadable, FullText, StdText, Conforms, NegativeLiteral, Defined, NumberReady;
    assert FullText(d, args) + "" == FullText(d, args) && StdText(d, args) + "" == StdText(d, args);
  }

  /** The steps of the code from the directive to its text. */
  lemma CodeText(d: Directive, args: seq<Arg>, value: int, s: Spec, t: Spec)
    requires IsNumber(d.conversion) && NumberValue(d, args) == value && NumberSpec(d, value) == s && ZeroRewrite(s) == t
    ensures IsRadix(t.radix)
    ensures FullText(d, args)
         == Justified(t.width, SignOf(s) + NumberText(t, Magnitude(value), MAX_NUMBER_LEN), Minus in d.flags)
  {
  }

  lemma CodeEmits(d: Directive, args: seq<Arg>, value: int, s: Spec, t: Spec, left: nat)
    requires IsNumber(d.conversion) && NumberValue(d, args) == value && NumberSpec(d, value) == s && ZeroRewrite(s) == t
    ensures IsRadix(t.radix)
    ensures Emit(d, args, left)
         == Put(t.width, SignOf(s) + NumberText(t, Magnitude(value), MAX_NUMBER_LEN), left, Minus in s.flags)
  {
  }

  /** A directive whose fields are at most 64: what the code prints, and what the standard asks for. */
  lemma Shown(fmt: string, args: seq<Arg>, d: Directive, value: int, s: Spec, t: Spec)
    requires IsDirective(fmt, args, d) && d.precision.GetOr(-1) <= 64 && d.width.GetOr(-1) <= 64
    requires NumberValue(d, args) == value && NumberSpec(d, value) == s && ZeroRewrite(s) == t
    ensures AllDefined(fmt, 0, args, 0) && EveryLegal(fmt, 0, args, 0) && IsRadix(t.radix)
    ensures Render(fmt, 0, args, 0)
         == Justified(t.width, SignOf(s) + NumberText(t, Magnitude(value), MAX_NUMBER_LEN), Minus in d.flags)
    ensures StdRender(fmt, 0, args, 0) == StdNumber(d, StdValue(d, args))
  {
    Alone(fmt, args, d);
    CodeText(d, args, value, s, t);
    SmallFieldsReady(d, args);
    hide FullText, StdNumber, Render, StdRender, AllDefined, EveryLegal, Justified, NumberText;
  }

  const LOSES_ZERO := Directive({Plus, Zero}, Some(1), None, NoLength, 'd', 5, 0)

  lemma LosesZeroParsed()
    ensures IsDirective("%+01d", [Int(0)], LOSES_ZERO)
  {
    var fmt := "%+01d";
    assert FlagsEnd(fmt, 1) == 3 && fmt[1..3] == ['+', '0'];
    assert FlagsIn(fmt[1..3]) == {Plus, Zero};
    assert DigitsEnd(fmt, 3) == 4 && fmt[3..4] == "1";
  }

  /** The zero flag loses the only digit. */
  lemma LosesZeroHappens()
    ensures
      var fmt, args := "%+01d", [Int(0)];
      AllDefined(fmt, 0, args, 0) && Render(fmt, 0, args, 0) == "+" && StdRender(fmt, 0, args, 0) == "+0"
  {
    LosesZeroParsed();
    hide IsDirective, AllDefined, EveryLegal, Render, StdRender;
    var s := Spec({Plus, Zero}, NoLength, 1, -1, false, 10);
    Shown("%+01d", [Int(0)], LOSES_ZERO, 0, s, s.(width := 0, precision := 0));
  }

  const OCTAL_ZEROS := Directive({Alt}, None, Some(3), NoLength, 'o', 5, 0)

  lemma OctalZerosParsed()
    ensures IsDirective("%#.3o", [Int(1)], OCTAL_ZEROS)
  {
    var fmt := "%#.3o";
    assert FlagsEnd(fmt, 1) == 2 && fmt[1..2] == ['#'];
    assert FlagsIn(fmt[1..2]) == {Alt};
    assert DigitsEnd(fmt, 3) == 4 && fmt[3..4] == "3";
  }

  /** The alternative octal form adds a zero to the precision. */
  lemma OctalZerosHappens()
    ensures
      var fmt, args := "%#.3o", [Int(1)];
      AllDefined(fmt, 0, args, 0) && Render(fmt, 0, args, 0) == "0001" && StdRender(fmt, 0, args, 0) == "001"
  {
    OctalZerosParsed();
    hide IsDirective, AllDefined, EveryLegal, Render, StdRender;
    var s := Spec({Alt}, NoLength, -1, 3, false, 8);
    Shown("%#.3o", [Int(1)], OCTAL_ZEROS, 1, s, s);
  }

  const OCTAL_NOTHING := Directive({Alt}, None, Some(0), NoLength, 'o', 5, 0)

  lemma OctalNothingParsed()
    ensures IsDirective("%#.0o", [Int(0)], OCTAL_NOTHING)
  {
    var fmt := "%#.0o";
    assert FlagsEnd(fmt, 1) == 2 && fmt[1..2] == ['#'];
    assert FlagsIn(fmt[1..2]) == {Alt};
    assert DigitsEnd(fmt, 3) == 4 && fmt[3..4] == "0";
  }

  /** And it loses the only digit. */
  lemma OctalNothingHappens()
    ensures
      var fmt, args := "%#.0o", [Int(0)];
      AllDefined(fmt, 0, args, 0) && Render(fmt, 0, args, 0) == "" && StdRender(fmt, 0, args, 0) == "0"
  {
    OctalNothingParsed();
    hide IsDirective, AllDefined, EveryLegal, Render, StdRender;
    var s := Spec({Alt}, NoLength, -1, 0, false, 8);
    Shown("%#.0o", [Int(0)], OCTAL_NOTHING, 0, s, s);
  }

  const NEGATIVE_WIDTH := Directive({}, Some(-3), None, NoLength, 'd', 3, 1)

  lemma NegativeWidthParsed()
    ensures IsDirective("%*d", [Int(-3), Int(5)], NEGATIVE_WIDTH)
  {
    var fmt := "%*d";
    assert FlagsEnd(fmt, 1) == 1 && FlagsIn(fmt[1..1]) == {};
  }

  /** A negative width argument does not pad. */
  lemma NegativeWidthHappens()
    ensures
      var fmt, args := "%*d", [Int(-3), Int(5)];
      AllDefined(fmt, 0, args, 0) && Render(fmt, 0, args, 0) == "5" && StdRender(fmt, 0, args, 0) == "5  "
  {
    NegativeWidthParsed();
    hide IsDirective, AllDefined, EveryLegal, Render, StdRender;
    var s := Spec({}, NoLength, -3, -1, false, 10);
    Shown("%*d", [Int(-3), Int(5)], NEGATIVE_WIDTH, 5, s, s);
  }

  const NEGATIVE_PRECISION := Directive({Zero}, Some(3), Some(-1), NoLength, 'd', 6, 1)

  lemma NegativePrecisionParsed()
    ensures IsDirective("%03.*d", [Int(-1), Int(5)], NEGATIVE_PRECISION)
  {
    var fmt := "%03.*d";
    assert FlagsEnd(fmt, 1) == 2 && fmt[1..2] == ['0'];
    assert FlagsIn(fmt[1..2]) == {Zero};
    assert DigitsEnd(fmt, 2) == 3 && fmt[2..3] == "3";
  }

  /** A negative precision argument removes the zero flag. */
  lemma NegativePrecisionHappens()
    ensures
      var fmt, args := "%03.*d", [Int(-1), Int(5)];
      AllDefined(fmt, 0, args, 0) && Render(fmt, 0, args, 0) == "  5" && StdRender(fmt, 0, args, 0) == "005"
  {
    NegativePrecisionParsed();
    hide IsDirective, AllDefined, EveryLegal, Render, StdRender;
    var s := Spec({}, NoLength, 3, -1, false, 10);
    Shown("%03.*d", [Int(-1), Int(5)], NEGATIVE_PRECISION, 5, s, s);
  }

  lemma ShortDigits()
    ensures Digits(70000, 10, false) == "70000" && StdDigits(4464, 10, false) == "4464"
  {
    SameDigits(4464, 10, false);
    assert Digits(44, 10, false) == "44" && Digits(446, 10, false) == "446";
    assert Digits(70, 10, false) == "70" && Digits(700, 10, false) == "700" && Digits(7000, 10, false) == "7000";
  }

  const SHORT := Directive({}, None, None, H, 'd', 3, 0)

  lemma ShortParsed()
    ensures IsDirective("%hd", [Int(70000)], SHORT)
  {
    var fmt := "%hd";
    assert FlagsEnd(fmt, 1) == 1 && FlagsIn(fmt[1..1]) == {};
  }

  /** A short argument is not narrowed. */
  lemma ShortHappens()
    ensures
      var fmt, args := "%hd", [Int(70000)];
      AllDefined(fmt, 0, args, 0) && Render(fmt, 0, args, 0) == "70000" && StdRender(fmt, 0, args, 0) == "4464"
  {
    ShortParsed();
    hide IsDirective, AllDefined, EveryLegal, Render, StdRender;
    var s := Spec({}, H, -1, -1, false, 10);
    hide Digits, StdDigits;
    ShortDigits();
    assert StdBody(SHORT, 4464) == "4464";
    Shown("%hd", [Int(70000)], SHORT, 70000, s, s);
  }

  const OVERRUN := Directive({}, None, Some(67), NoLength, 'd', 5, 0)

  lemma ArrayOverrunParsed()
    ensures IsDirective("%.67d", [Int(1)], OVERRUN)
  {
    var fmt := "%.67d";
    assert FlagsEnd(fmt, 1) == 1 && FlagsIn(fmt[1..1]) == {};
    assert DigitsEnd(fmt, 2) == 4 && fmt[2..4] == "67";
    assert "67"[..1] == "6" && Value("6", 10) == 6 && Value("67", 10) == 67;
  }

  /** The text of a precision above 66 does not fit the arrays, although nothing else differs. */
  lemma ArrayOverrunHappens()
    ensures
      var fmt, args := "%.67d", [Int(1)];
      AllDefined(fmt, 0, args, 0) && !EveryLegal(fmt, 0, args, 0) && !AllConform(fmt, 0, args, 0)
    ensures OverrunsArrays(OVERRUN, 1)
  {
    var fmt, args := "%.67d", [Int(1)];
    ArrayOverrunParsed();
    hide IsDirective, FieldsReadable;
    Alone(fmt, args, OVERRUN);
    hide ParseDirective, AllDefined, AllConform, EveryLegal, FieldsReadable, SignedText;
    ReadyExact(OVERRUN, args);
  }

  // Agreement

  const SPACE_FLAG := Directive({Space}, None, None, NoLength, 'd', 3, 0)

  lemma SpaceFlagParsed()
    ensures IsDirective("% d", [Int(5)], SPACE_FLAG)
  {
    var fmt := "% d";
    assert FlagsEnd(fmt, 1) == 2 && fmt[1..2] == [' '];
    assert FlagsIn(fmt[1..2]) == {Space};
  }

  /** A space flag puts a space where the sign would be. */
  lemma SpaceFlagHappens()
    ensures
      var fmt, args := "% d", [Int(5)];
      AllDefined(fmt, 0, args, 0) && Render(fmt, 0, args, 0) == " 5" == StdRender(fmt, 0, args, 0)
  {
    SpaceFlagParsed();
    hide IsDirective, AllDefined, EveryLegal, Render, StdRender;
    var s := Spec({Space}, NoLength, -1, -1, false, 10);
    Shown("% d", [Int(5)], SPACE_FLAG, 5, s, s);
  }

  lemma HexDigits()
    ensures Digits(255, 16, false) == "ff" && Digits(255, 16, true) == "FF"
    ensures StdDigits(255, 16, false) == "ff" && StdDigits(255, 16, true) == "FF"
  {
    SameDigits(255, 16, false);
    SameDigits(255, 16, true);
  }

  const SMALL_HEX := Directive({}, None, None, NoLength, 'x', 2, 0)

  lemma SmallHexParsed()
    ensures IsDirective("%x", [Int(255)], SMALL_HEX)
  {
    var fmt := "%x";
    assert FlagsEnd(fmt, 1) == 1 && FlagsIn(fmt[1..1]) == {};
  }

  /** `%x` prints small letters. */
  lemma SmallHexHappens()
    ensures
      var fmt, args := "%x", [Int(255)];
      AllDefined(fmt, 0, args, 0) && Render(fmt, 0, args, 0) == "ff" == StdRender(fmt, 0, args, 0)
  {
    SmallHexParsed();
    hide IsDirective, AllDefined, EveryLegal, Render, StdRender;
    var s := Spec({}, NoLength, -1, -1, false, 16);
    HexDigits();
    hide Digits, StdDigits;
    Shown("%x", [Int(255)], SMALL_HEX, 255, s, s);
  }

  const CAPITAL_HEX := Directive({}, None, None, NoLength, 'X', 2, 0)

  lemma CapitalHexParsed()
    ensures IsDirective("%X", [Int(255)], CAPITAL_HEX)
  {
    var fmt := "%X";
    assert FlagsEnd(fmt, 1) == 1 && FlagsIn(fmt[1..1]) == {};
  }

  /** `%X` prints capital letters. */
  lemma CapitalHexHappens()
    ensures
      var fmt, args := "%X", [Int(255)];
      AllDefined(fmt, 0, args, 0) && Render(fmt, 0, args, 0) == "FF" == StdRender(fmt, 0, args, 0)
  {
    CapitalHexParsed();
    hide IsDirective, AllDefined, EveryLegal, Render, StdRender;
    var s := Spec({Huge}, NoLength, -1, -1, false, 16);
    HexDigits();
    hide Digits, StdDigits;
    Shown("%X", [Int(255)], CAPITAL_HEX, 255, s, s);
  }

  const FULL := Directive({}, None, Some(66), NoLength, 'd', 5, 0)

  lemma FullArraysParsed()
    ensures IsDirective("%.66d", [Int(1)], FULL)
  {
    var fmt := "%.66d";
    assert FlagsEnd(fmt, 1) == 1 && FlagsIn(fmt[1..1]) == {};
    assert DigitsEnd(fmt, 2) == 4 && fmt[2..4] == "66";
    assert "66"[..1] == "6" && Value("6", 10) == 6 && Value("66", 10) == 66;
  }

  /** A precision of 66 still fits the arrays. */
  lemma FullArraysHappens()
    ensures AllDefined("%.66d", 0, [Int(1)], 0) && AllConform("%.66d", 0, [Int(1)], 0)
  {
    var args := [Int(1)];
    FullArraysParsed();
    hide IsDirective;
    Alone("%.66d", args, FULL);
  }

  // Two differences can make up for each other, so a whole format can agree although its directives do not

  const COMPENSATING := Directive({Alt}, None, Some(2), NoLength, 'o', 10, 1)

  lemma FirstParsed(args: seq<Arg>)
    ensures
      var fmt := "%+01d%#.2o";
      && ParseDirective(fmt, 1, args, 0) == LOSES_ZERO
      && FieldsReadable(fmt, 1, args, 0) && !NegativeLiteral(fmt, 1, args, 0)
  {
    var fmt := "%+01d%#.2o";
    assert FlagsEnd(fmt, 1) == 3 && fmt[1..3] == ['+', '0'];
    assert FlagsIn(fmt[1..3]) == {Plus, Zero};
    assert DigitsEnd(fmt, 3) == 4 && fmt[3..4] == "1";
  }

  lemma SecondParsed(args: seq<Arg>)
    ensures
      var fmt := "%+01d%#.2o";
      && ParseDirective(fmt, 6, args, 1) == COMPENSATING
      && FieldsReadable(fmt, 6, args, 1) && !NegativeLiteral(fmt, 6, args, 1)
  {
    var fmt := "%+01d%#.2o";
    assert FlagsEnd(fmt, 6) == 7 && fmt[6..7] == ['#'];
    assert FlagsIn(fmt[6..7]) == {Alt};
    assert DigitsEnd(fmt, 8) == 9 && fmt[8..9] == "2";
  }

  lemma LosesZeroTexts(args: seq<Arg>)
    requires IntAt(args, 0) == 0
    ensures Defined(LOSES_ZERO, args) && !Conforms(LOSES_ZERO, args)
    ensures FullText(LOSES_ZERO, args) == "+" && StdText(LOSES_ZERO, args) == "+0"
  {
    hide FullText;
    var s := Spec({Plus, Zero}, NoLength, 1, -1, false, 10);
    CodeText(LOSES_ZERO, args, 0, s, s.(width := 0, precision := 0));
  }

  lemma CompensatingCode(args: seq<Arg>)
    requires IntAt(args, 1) == 1
    ensures FullText(COMPENSATING, args) == "001"
  {
    hide FullText;
    var s := Spec({Alt}, NoLength, -1, 2, false, 8);
    CodeText(COMPENSATING, args, 1, s, s);
  }

  lemma CompensatingStandard(args: seq<Arg>)
    requires IntAt(args, 1) == 1
    ensures Defined(COMPENSATING, args) && StdText(COMPENSATING, args) == "01"
  {
  }

  lemma CompensatingHappens()
    ensures
      var fmt, args := "%+01d%#.2o", [Int(0), Int(1)];
      && AllDefined(fmt, 0, args, 0) && !AllConform(fmt, 0, args, 0)
      && Render(fmt, 0, args, 0) == StdRender(fmt, 0, args, 0) == "+001"
  {
    hide ParseDirective, FieldsReadable, NegativeLiteral, FullText, StdText, NumberReady, Conforms, Defined;
    var fmt, args := "%+01d%#.2o", [Int(0), Int(1)];
    FirstParsed(args);
    SecondParsed(args);
    SmallFieldsReady(LOSES_ZERO, args);
    SmallFieldsReady(COMPENSATING, args);
    LosesZeroTexts(args);
    CompensatingCode(args);
    CompensatingStandard(args);
    assert Legal(fmt, 1, args, 0) && Legal(fmt, 6, args, 1);
    assert AllDefined(fmt, 10, args, 2) && AllDefined(fmt, 5, args, 1);
    assert Render(fmt, 10, args, 2) == "" && StdRender(fmt, 10, args, 2) == "";
    assert Render(fmt, 5, args, 1) == "001" && StdRender(fmt, 5, args, 1) == "01";
  }

  // What is not implemented

  /** A directive takes no argument exactly when its conversion is not one of the nine, and then prints itself. */
  lemma NotConverted(d: Directive, args: seq<Arg>)
    ensures ArgAfter(d) == d.arg <==> d.conversion !in "diuoxXpcs"
    ensures d.conversion !in "diuoxXpcs" ==> FullText(d, args) == [d.conversion]
  {
  }

  /** Every floating-point field of the standard has a digit, or is at least an inf or a nan. */
  predicate FloatShaped(text: string) { |text| >= 3 || exists c :: c in text && IsDigit(c) }

  lemma FloatDiffers(d: Directive, args: seq<Arg>)
    requires d.conversion in "fFeEgGaA"
    ensures !FloatShaped(FullText(d, args))
  {
    NotConverted(d, args);
  }

  /** `%lc` and `%ls` print as `%c` and `%s`. */
  lemma WideIgnored(d: Directive, args: seq<Arg>)
    requires d.conversion == 'c' || d.conversion == 's'
    ensures FullText(d, args) == FullText(d.(length := NoLength), args)
  {
    hide FullText;
    UndefinedIgnored(d, args);
    UndefinedIgnored(d.(length := NoLength), args);
  }

  lemma RenderStep(fmt: string, args: seq<Arg>)
    requires |fmt| >= 2 && fmt[0] == '%' && Legal(fmt, 1, args, 0) && ParseDirective(fmt, 1, args, 0).next <= |fmt|
    ensures
      var d := ParseDirective(fmt, 1, args, 0);
      Render(fmt, 0, args, 0) == FullText(d, args) + Render(fmt, d.next, args, ArgAfter(d))
  {
    hide Legal, ParseDirective, FullText;
  }

  lemma UnknownAt(fmt: string, args: seq<Arg>)
    requires |fmt| >= 2 && fmt[0] == '%' && fmt[1] in "fjL"
    ensures Render(fmt, 0, args, 0) == [fmt[1]] + Render(fmt, 2, args, 0)
  {
    hide Render;
    assert ParseDirective(fmt, 1, args, 0) == Directive({}, None, None, NoLength, fmt[1], 2, 0) by {
      assert FlagsEnd(fmt, 1) == 1 && FlagsIn(fmt[1..1]) == {};
    }
    hide ParseDirective, FullText;
    NotConverted(ParseDirective(fmt, 1, args, 0), args);
    RenderStep(fmt, args);
  }

  /** The modifiers j and L are read as conversions, so `%jd` prints "jd", and the arguments stay unread. */
  lemma UnknownHappens(args: seq<Arg>)
    ensures Render("%f", 0, args, 0) == "f" && Render("%jd", 0, args, 0) == "jd" && Render("%Lf", 0, args, 0) == "Lf"
  {
    UnknownAt("%f", args);
    UnknownAt("%jd", args);
    UnknownAt("%Lf", args);
    assert Render("%jd", 2, args, 0) == "d" && Render("%Lf", 2, args, 0) == "f" && Render("%f", 2, args, 0) == "";
  }

  const WIDE_STRING := Directive({}, None, None, L, 's', 3, 0)

  lemma WideParses(args: seq<Arg>)
    ensures ParseDirective("%ls", 1, args, 0) == WIDE_STRING && FieldsReadable("%ls", 1, args, 0)
  {
    var fmt := "%ls";
    assert FlagsEnd(fmt, 1) == 1 && FlagsIn(fmt[1..1]) == {};
  }

  /** `%ls` reads and prints a string of plain characters. */
  lemma WideHappens()
    ensures Render("%ls", 0, [Text(Some("ab"))], 0) == "ab"
  {
    var args := [Text(Some("ab"))];
    WideParses(args);
    assert FullText(WIDE_STRING, args) == "ab";
    hide ParseDirective, FieldsReadable, FullText;
    RenderStep("%ls", args);
  }

  // The conversions without a sign

  const ADDRESS := Directive({}, None, None, NoLength, 'p', 2, 0)

  lemma PointerParsed(args: seq<Arg>)
    ensures ParseDirective("%p", 1, args, 0) == ADDRESS && FieldsReadable("%p", 1, args, 0)
  {
    var fmt := "%p";
    assert FlagsEnd(fmt, 1) == 1 && FlagsIn(fmt[1..1]) == {};
  }

  lemma PointerShown(args: seq<Arg>)
    requires args == [Int(255)]
    ensures NumberReady(ADDRESS, args) && FullText(ADDRESS, args) == "00000000000000ff"
  {
    SmallFieldsReady(ADDRESS, args);
    PointerText(ADDRESS, args);
    HexDigits();
    hide FullText, StdDigits, NumberReady;
    assert Fill('0', 14) == "00000000000000";
  }

  /** A pointer prints with all its sixteen digits. */
  lemma PointerHappens()
    ensures Render("%p", 0, [Int(255)], 0) == "00000000000000ff"
  {
    var args := [Int(255)];
    PointerParsed(args);
    PointerShown(args);
    hide ParseDirective, FieldsReadable, FullText, NumberReady;
    RenderStep("%p", args);
  }

  const CHARACTER := Directive({}, None, None, NoLength, 'c', 2, 0)

  lemma CharacterParsed(args: seq<Arg>)
    ensures ParseDirective("%c", 1, args, 0) == CHARACTER && FieldsReadable("%c", 1, args, 0)
  {
    var fmt := "%c";
    assert FlagsEnd(fmt, 1) == 1 && FlagsIn(fmt[1..1]) == {};
  }

  /** `%c` prints the character of the argument's low eight bits. */
  lemma CharacterHappens(v: int)
    requires v == 'A' as int || v == 'A' as int + 256 || v == 'A' as int - 256
    ensures Render("%c", 0, [Int(v)], 0) == "A"
  {
    var args := [Int(v)];
    CharacterParsed(args);
    assert FullText(CHARACTER, args) == "A";
    hide ParseDirective, FieldsReadable, FullText;
    RenderStep("%c", args);
  }

  // The capacity

  lemma AloneRuns(fmt: string, args: seq<Arg>, d: Directive, left: nat)
    requires |fmt| >= 2 && fmt[0] == '%' && ParseDirective(fmt, 1, args, 0) == d && d.next == |fmt|
    requires Legal(fmt, 1, args, 0) && left >= 1
    ensures Run(fmt, 0, args, 0, left) == Emit(d, args, left)
  {
    hide Legal, ParseDirective, Emit;
    var e := Emit(d, args, left);
    assert e.text + "" == e.text;
  }

  const WIDE := Directive({}, Some(8), None, NoLength, 'd', 3, 0)

  lemma WideParsed()
    ensures ParseDirective("%8d", 1, [Int(1)], 0) == WIDE && FieldsReadable("%8d", 1, [Int(1)], 0)
  {
    var fmt := "%8d";
    assert FlagsEnd(fmt, 1) == 1 && FlagsIn(fmt[1..1]) == {};
    assert DigitsEnd(fmt, 1) == 2 && fmt[1..2] == "8";
  }

  lemma WideEmits()
    ensures Emit(WIDE, [Int(1)], 5).advance == 7
  {
    hide Emit;
    var s := Spec({}, NoLength, 8, -1, false, 10);
    CodeEmits(WIDE, [Int(1)], 1, s, s, 5);
    assert NumberText(s, 1, MAX_NUMBER_LEN) == "1";
  }

  /** A width above the capacity moves the position past it. */
  lemma WidthOverrunHappens()
    ensures AllLegal("%8d", 0, [Int(1)], 0, 5) && Run("%8d", 0, [Int(1)], 0, 5).advance == 7
  {
    var fmt, args := "%8d", [Int(1)];
    WideParsed();
    SmallFieldsReady(WIDE, args);
    hide ParseDirective, FieldsReadable, NumberReady, Emit;
    AloneRuns(fmt, args, WIDE, 5);
    WideEmits();
  }

  const LEFT := Directive({Minus}, Some(8), None, NoLength, 's', 4, 0)

  lemma LeftParsed(args: seq<Arg>)
    ensures ParseDirective("%-8s", 1, args, 0) == LEFT && FieldsReadable("%-8s", 1, args, 0)
  {
    var fmt := "%-8s";
    assert FlagsEnd(fmt, 1) == 2 && fmt[1..2] == ['-'];
    assert FlagsIn(fmt[1..2]) == {Minus};
    assert DigitsEnd(fmt, 2) == 3 && fmt[2..3] == "8";
  }

  lemma LeftEmits()
    ensures Emit(LEFT, [Text(Some("abc"))], 5).text == "abc     "
  {
    assert StringPart(Some("abc"), -1, 5) == "abc";
    assert PutText(8, "abc", 5, true) == "abc     ";
  }

  /** Under a minus flag the blanks are cut to the whole capacity, so characters are stored past it. */
  lemma MinusOverrunHappens()
    ensures
      var fmt, args := "%-8s", [Text(Some("abc"))];
      AllLegal(fmt, 0, args, 0, 5) && Run(fmt, 0, args, 0, 5).text == "abc     "
  {
    var fmt, args := "%-8s", [Text(Some("abc"))];
    LeftParsed(args);
    LeftEmits();
    hide ParseDirective, FieldsReadable, Emit;
    AloneRuns(fmt, args, LEFT, 5);
  }

  const MISPLACED := Directive({}, Some(8), None, NoLength, 's', 3, 0)

  lemma MisplacedParsed(args: seq<Arg>)
    ensures ParseDirective("%8s", 1, args, 0) == MISPLACED && FieldsReadable("%8s", 1, args, 0)
  {
    var fmt := "%8s";
    assert FlagsEnd(fmt, 1) == 1 && FlagsIn(fmt[1..1]) == {};
    assert DigitsEnd(fmt, 1) == 2 && fmt[1..2] == "8";
  }

  lemma MisplacedTexts(args: seq<Arg>)
    requires args == [Text(Some("abcdef"))]
    ensures FullText(MISPLACED, args) == "  abcdef" && Emit(MISPLACED, args, 5) == Emission("   ab", 5, 8)
    ensures Placed(MISPLACED, args, 5) && !Fits(MISPLACED, args, 5) && !CutShort(MISPLACED, args, 5)
  {
    assert StringText(MISPLACED, args) == "abcdef" && StringPart(Some("abcdef"), -1, 5) == "abcde";
    assert Put(8, "abcde", 5, false) == Emission("   ab", 5, 8);
  }

  lemma AloneFits(fmt: string, args: seq<Arg>, d: Directive, left: nat)
    requires |fmt| >= 2 && fmt[0] == '%' && ParseDirective(fmt, 1, args, 0) == d && d.next == |fmt|
    requires Legal(fmt, 1, args, 0) && 1 <= left < |FullText(d, args)|
    ensures EveryLegal(fmt, 0, args, 0) && Render(fmt, 0, args, 0) == FullText(d, args)
    ensures Supported(fmt, 0, args, 0, left) <==> Fits(d, args, left)
    ensures StaysWithin(fmt, 0, args, 0, left) <==> Placed(d, args, left)
    ensures CountsAll(fmt, 0, args, 0, left) <==> !CutShort(d, args, left)
  {
    hide Legal, ParseDirective, FullText, Fits, Placed, CutShort;
    assert FullText(d, args) + "" == FullText(d, args);
  }

  /**
   A string is padded after it is cut to the capacity: the text stored is not the beginning of the whole text,
   although the position stays inside the capacity and everything is counted.
   */
  lemma MisplacedStringHappens()
    ensures
      var fmt, args := "%8s", [Text(Some("abcdef"))];
      && EveryLegal(fmt, 0, args, 0) && StaysWithin(fmt, 0, args, 0, 5) && CountsAll(fmt, 0, args, 0, 5)
      && !Supported(fmt, 0, args, 0, 5)
      && Run(fmt, 0, args, 0, 5) == Emission("   ab", 5, 8) && Render(fmt, 0, args, 0) == "  abcdef"
  {
    var fmt, args := "%8s", [Text(Some("abcdef"))];
    MisplacedParsed(args);
    MisplacedTexts(args);
    hide ParseDirective, FieldsReadable, FullText, Emit, Placed, Fits, CutShort;
    hide EveryLegal, StaysWithin, CountsAll, Supported, Run, Render;
    AloneFits(fmt, args, MISPLACED, 5);
    AloneRuns(fmt, args, MISPLACED, 5);
  }

  /** A cut literal is not counted. */
  lemma ReturnTooSmallHappens()
    ensures Supported("ab", 0, [], 0, 1) && EveryLegal("ab", 0, [], 0) && !CountsAll("ab", 0, [], 0, 1)
    ensures Run("ab", 0, [], 0, 1).total == 1 && |Render("ab", 0, [], 0)| == 2
  {
  }
}
