/** Printing a directive from a canonical specification and parsing it back (src/vsnprintf.cpp:92-207). */
module Canonical {
  import opened Options
  import opened Numerals
  import opened Directives
  import opened FormatSpecs
  import opened Numbers
  import Parser

  /**
   A width or precision: left out, written as a number, or taken from an argument; a precision can also be a dot
   alone, which means 0, or a negative number, which is skipped and means none.
   */
  datatype Count = Absent | Literal(n: nat) | Star | Bare | Negative(n: nat) {
    function Text(): string {
      match this
      case Absent => ""
      case Literal(n) => Digits(n, 10, false)
      case Star => "*"
      case Bare => ""
      case Negative(n) => "-" + Digits(n, 10, false)
    }

    /** A negative precision reads as -1. */
    function Value(args: seq<Arg>, k: nat): Option<int> {
      match this
      case Absent => None
      case Literal(n) => Some(n)
      case Star => Some(IntAt(args, k))
      case Bare => Some(0)
      case Negative(n) => Some(-1)
    }

    function Args(): nat { if Star? then 1 else 0 }
  }

  function FlagsText(flags: seq<Flag>): string {
    if flags == [] then "" else FlagText(flags[0]) + FlagsText(flags[1..])
  }

  datatype Canonical = Canonical(flags: seq<Flag>, width: Count, precision: Count, length: Length, conversion: char) {
    /** Flags in any order and number, a width of at least 1, and a conversion that is no other part of the grammar. */
    predicate Valid() {
      && Huge !in flags
      && (width.Literal? ==> width.n >= 1) && !width.Bare? && !width.Negative?
      && conversion in "diuoxXpcsn%"
    }

    function LengthText(): string {
      match length
      case NoLength => "" case H => "h" case HH => "hh" case L => "l" case LL => "ll" case Z => "z" case T => "t"
    }

    function PrecisionText(): string { if precision.Absent? then "" else "." + precision.Text() }

    function Tail(): string { LengthText() + [conversion] }

    function Text(): string { FlagsText(flags) + width.Text() + PrecisionText() + Tail() }
  }

  /** The text t stands in fmt from offset i on. */
  predicate StandsAt(fmt: string, i: nat, t: string) { i + |t| <= |fmt| && fmt[i..i + |t|] == t }

  lemma StandsSplit(fmt: string, i: nat, a: string, b: string)
    requires StandsAt(fmt, i, a + b)
    ensures StandsAt(fmt, i, a) && StandsAt(fmt, i + |a|, b)
  {
    assert fmt[i..i + |a|] == (a + b)[..|a|];
    assert fmt[i + |a|..i + |a| + |b|] == (a + b)[|a|..];
  }

  lemma StandsChar(fmt: string, i: nat, t: string)
    requires StandsAt(fmt, i, t)
    ensures forall k | 0 <= k < |t| :: At(fmt, i + k) == t[k]
  {
    forall k | 0 <= k < |t| ensures At(fmt, i + k) == t[k] {
      assert fmt[i..i + |t|][k] == t[k];
    }
  }

  lemma StandsFirst(fmt: string, i: nat, t: string)
    requires StandsAt(fmt, i, t) && t != ""
    ensures At(fmt, i) == t[0]
  {
    assert fmt[i..i + |t|][0] == t[0];
  }

  lemma DigitsAreDigits(n: nat)
    ensures forall k | 0 <= k < |Digits(n, 10, false)| :: IsDigit(Digits(n, 10, false)[k])
    ensures n >= 1 ==> Digits(n, 10, false)[0] != '0'
  {
    DigitsValue(n, 10, false);
  }

  /** A printed number followed by a non-digit is read back, and reading stops at that non-digit. */
  lemma NumberReadBack(fmt: string, i: nat, n: nat)
    requires StandsAt(fmt, i, Digits(n, 10, false)) && !IsDigit(At(fmt, i + |Digits(n, 10, false)|))
    ensures DigitsEnd(fmt, i) == i + |Digits(n, 10, false)| && DecimalAt(fmt, i) == n && IsDigit(At(fmt, i))
  {
    var t := Digits(n, 10, false);
    DigitsAreDigits(n);
    StandsChar(fmt, i, t);
    forall k | i <= k < i + |t| ensures IsDigit(fmt[k]) { assert At(fmt, i + (k - i)) == t[k - i]; }
    Parser.DigitsEndStep(fmt, i, i + |t|);
    DigitsValue(n, 10, false);
    assert At(fmt, i + 0) == t[0];
  }

  /** number_to_string without flags and precision prints what parse_number reads. */
  lemma PrintThenParse(fmt: string, i: nat, n: nat, size: nat)
    requires StandsAt(fmt, i, NumberText(RESET, n, size))
    requires !IsDigit(At(fmt, i + |NumberText(RESET, n, size)|))
    ensures DecimalAt(fmt, i) == n && DigitsEnd(fmt, i) == i + |NumberText(RESET, n, size)|
  {
    assert NumberText(RESET, n, size) == Digits(n, 10, false) by { hide Digits; }
    hide NumberText;
    NumberReadBack(fmt, i, n);
  }

  lemma FlagsReadBack(fmt: string, i: nat, flags: string)
    requires StandsAt(fmt, i, flags) && (forall c | c in flags :: IsFlag(c)) && !IsFlag(At(fmt, i + |flags|))
    ensures FlagsEnd(fmt, i) == i + |flags| && FlagsIn(fmt[i..FlagsEnd(fmt, i)]) == FlagsIn(flags)
  {
    StandsChar(fmt, i, flags);
    forall k | i <= k < i + |flags| ensures IsFlag(fmt[k]) {
      assert At(fmt, i + (k - i)) == flags[k - i];
      assert flags[k - i] in flags;
    }
    Parser.FlagsEndStep(fmt, i, i + |flags|);
  }

  /** The characters of some flags are read as exactly these flags. */
  lemma {:induction false} FlagsMeant(flags: seq<Flag>)
    requires Huge !in flags
    ensures forall c | c in FlagsText(flags) :: IsFlag(c)
    ensures FlagsIn(FlagsText(flags)) == set f | f in flags
  {
    if flags != [] {
      var f, rest := flags[0], FlagsText(flags[1..]);
      FlagsMeant(flags[1..]);
      var c := FlagText(f)[0];
      assert FlagText(f) == [c] && IsFlag(c) && FlagOf(c) == f;
      assert forall x :: x in [c] + rest <==> x == c || x in rest;
      assert FlagsIn([c] + rest) == {f} + FlagsIn(rest);
      assert forall g :: g in flags <==> g == f || g in flags[1..];
    }
  }

  /** The first character of what follows the flags, the width or the precision. */
  lemma TailStart(c: Canonical)
    requires c.Valid()
    ensures
      var t := c.Tail();
      !IsFlag(t[0]) && !IsDigit(t[0]) && t[0] != '*' && t[0] != '.' && t[0] != '-'
  {
    assert c.Tail()[0] == (if c.LengthText() == "" then c.conversion else c.LengthText()[0]);
  }

  lemma AfterWidth(fmt: string, i: nat, c: Canonical)
    requires c.Valid() && StandsAt(fmt, i, c.PrecisionText() + c.Tail())
    ensures var x := At(fmt, i); !IsFlag(x) && !IsDigit(x) && x != '*'
  {
    TailStart(c);
    StandsFirst(fmt, i, c.PrecisionText() + c.Tail());
  }

  lemma WidthReadBack(fmt: string, i: nat, c: Canonical, args: seq<Arg>, k: nat)
    requires c.Valid() && StandsAt(fmt, i, c.width.Text())
    requires StandsAt(fmt, i + |c.width.Text()|, c.PrecisionText() + c.Tail())
    ensures ParseWidth(fmt, i, args, k) == Parsed(c.width.Value(args, k), i + |c.width.Text()|, k + c.width.Args())
    ensures !IsFlag(At(fmt, i))
  {
    AfterWidth(fmt, i + |c.width.Text()|, c);
    hide DigitsEnd;
    if c.width.Literal? {
      NumberReadBack(fmt, i, c.width.n);
      DigitsAreDigits(c.width.n);
    }
    if !c.width.Absent? {
      StandsFirst(fmt, i, c.width.Text());
    }
  }

  /** A precision that is written out, then a character that is no digit. */
  lemma WrittenReadBack(fmt: string, i: nat, p: Count, args: seq<Arg>, k: nat)
    requires !p.Absent? && StandsAt(fmt, i, "." + p.Text()) && !IsDigit(At(fmt, i + |"." + p.Text()|))
    requires p.Bare? ==> At(fmt, i + 1) != '*' && At(fmt, i + 1) != '-'
    ensures ParsePrecision(fmt, i, args, k) == Parsed(p.Value(args, k), i + |"." + p.Text()|, k + p.Args())
  {
    hide StandsAt, Digits, DigitsEnd, DecimalAt;
    StandsSplit(fmt, i, ".", p.Text());
    StandsFirst(fmt, i, ".");
    match p {
      case Literal(n) => NumberReadBack(fmt, i + 1, n);
      case Star => StandsFirst(fmt, i + 1, "*");
      case Negative(n) =>
        StandsSplit(fmt, i + 1, "-", Digits(n, 10, false));
        StandsFirst(fmt, i + 1, "-");
        NumberReadBack(fmt, i + 2, n);
      case Bare =>
    }
  }

  lemma PrecisionReadBack(fmt: string, i: nat, c: Canonical, args: seq<Arg>, k: nat)
    requires c.Valid() && StandsAt(fmt, i, c.PrecisionText() + c.Tail())
    ensures ParsePrecision(fmt, i, args, k)
         == Parsed(c.precision.Value(args, k), i + |c.PrecisionText()|, k + c.precision.Args())
  {
    TailStart(c);
    StandsSplit(fmt, i, c.PrecisionText(), c.Tail());
    StandsFirst(fmt, i + |c.PrecisionText()|, c.Tail());
    hide StandsAt, Digits;
    if !c.precision.Absent? {
      WrittenReadBack(fmt, i, c.precision, args, k);
    }
  }

  lemma LengthReadBack(fmt: string, i: nat, c: Canonical)
    requires c.Valid() && StandsAt(fmt, i, c.Tail())
    ensures ParseLength(fmt, i).field == c.length && ParseLength(fmt, i).at == i + |c.LengthText()|
    ensures At(fmt, i + |c.LengthText()|) == c.conversion
  {
    var t := c.Tail();
    StandsChar(fmt, i, t);
    assert At(fmt, i + 0) == t[0];
    assert |t| > 1 ==> At(fmt, i + 1) == t[1];
    assert |t| > 2 ==> At(fmt, i + 2) == t[2];
    assert t[|t| - 1] == c.conversion;
  }

  lemma ParseChain(fmt: string, i: nat, args: seq<Arg>, k: nat, f: nat, w: Parsed<Option<int>>,
                   p: Parsed<Option<int>>, l: Parsed<Length>)
    requires i <= |fmt| && f == FlagsEnd(fmt, i) && w == ParseWidth(fmt, f, args, k)
    requires p == ParsePrecision(fmt, w.at, args, w.arg) && l == ParseLength(fmt, p.at)
    ensures ParseDirective(fmt, i, args, k)
      == Directive(FlagsIn(fmt[i..f]), w.field, p.field, l.field, At(fmt, l.at), l.at + 1, p.arg)
  {
  }

  lemma StandsFour(fmt: string, i: nat, a: string, b: string, c: string, d: string)
    requires StandsAt(fmt, i, a + b + c + d)
    ensures StandsAt(fmt, i, a) && StandsAt(fmt, i + |a|, b)
    ensures StandsAt(fmt, i + |a| + |b|, c + d) && StandsAt(fmt, i + |a| + |b| + |c|, d)
  {
    assert a + b + c + d == a + (b + (c + d));
    hide StandsAt;
    StandsSplit(fmt, i, a, b + (c + d));
    StandsSplit(fmt, i + |a|, b, c + d);
    StandsSplit(fmt, i + |a| + |b|, c, d);
  }

  lemma Standing(fmt: string, i: nat, c: Canonical)
    requires c.Valid() && StandsAt(fmt, i, c.Text())
    ensures i + |c.Text()| <= |fmt|
    ensures StandsAt(fmt, i, FlagsText(c.flags)) && StandsAt(fmt, i + |FlagsText(c.flags)|, c.width.Text())
    ensures
      var i2 := i + |FlagsText(c.flags)| + |c.width.Text()|;
      StandsAt(fmt, i2, c.PrecisionText() + c.Tail()) && StandsAt(fmt, i2 + |c.PrecisionText()|, c.Tail())
    ensures |c.Text()|
         == |FlagsText(c.flags)| + |c.width.Text()| + |c.PrecisionText()| + |c.LengthText()| + 1
    ensures Huge !in c.flags
  {
    StandsFour(fmt, i, FlagsText(c.flags), c.width.Text(), c.PrecisionText(), c.Tail());
  }

  /**
   Parsing the text of a canonical specification, wherever it stands in a format, recovers exactly its flags, width,
   precision, length and conversion, stops just after the conversion and consumes one argument for each star.
   */
  lemma ParseReadsBack(fmt: string, i: nat, c: Canonical, args: seq<Arg>, k: nat)
    requires c.Valid() && StandsAt(fmt, i, c.Text())
    ensures i <= |fmt| && ParseDirective(fmt, i, args, k)
      == Directive((set f | f in c.flags), c.width.Value(args, k), c.precision.Value(args, k + c.width.Args()), c.length,
                   c.conversion, i + |c.Text()|, k + c.width.Args() + c.precision.Args())
  {
    hide *;
    Standing(fmt, i, c);
    var flags := FlagsText(c.flags);
    var i1 := i + |flags|;
    var i2 := i1 + |c.width.Text()|;
    FlagsMeant(c.flags);
    WidthReadBack(fmt, i1, c, args, k);
    FlagsReadBack(fmt, i, flags);
    PrecisionReadBack(fmt, i2, c, args, k + c.width.Args());
    LengthReadBack(fmt, i2 + |c.PrecisionText()|, c);
    ParseChain(fmt, i, args, k, i1, ParseWidth(fmt, i1, args, k),
               ParsePrecision(fmt, i2, args, k + c.width.Args()), ParseLength(fmt, i2 + |c.PrecisionText()|));
  }
}
