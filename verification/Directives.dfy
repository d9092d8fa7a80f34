/**
 The directives of a format: what the parser recognises (src/vsnprintf.cpp:92-207), stated on values.
 A format is the text before its terminating NUL; reading at or past the end yields the NUL.
 */
module Directives {
  import opened Options
  import opened Numerals

  datatype Flag = Minus | Plus | Space | Alt | Zero | Huge

  datatype Length = NoLength | H | HH | L | LL | Z | T

  /** One variable argument: an integer of the type the directive reads, or a string pointer. */
  datatype Arg = Int(v: int) | Text(s: Option<string>)

  /** A parsed directive; `next` is the offset after the conversion character, `arg` the next unread argument. */
  datatype Directive = Directive(
    flags: set<Flag>, width: Option<int>, precision: Option<int>, length: Length,
    conversion: char, next: nat, arg: nat)

  const INT_MAX: int := 0x7fff_ffff
  const INT_MIN: int := -0x8000_0000
  const TWO_32: int := 0x1_0000_0000
  const TWO_63: int := 0x8000_0000_0000_0000
  const TWO_64: int := 0x1_0000_0000_0000_0000

  /** The integer types that va_arg reads. */
  datatype CType = Int32 | UInt32 | Int64 | UInt64 {
    predicate Has(v: int) {
      match this
      case Int32 => INT_MIN <= v <= INT_MAX
      case UInt32 => 0 <= v < TWO_32
      case Int64 => -TWO_63 <= v < TWO_63
      case UInt64 => 0 <= v < TWO_64
    }
  }

  /** Argument k is an integer of the type. */
  predicate HasArg(args: seq<Arg>, k: nat, t: CType) { k < |args| && args[k].Int? && t.Has(args[k].v) }

  /** The limits of the types, as powers of 2. */
  lemma TypeLimits(v: int)
    ensures Int32.Has(v) <==> 0 <= v + Power(2, 31) < Power(2, 32)
    ensures UInt32.Has(v) <==> 0 <= v < Power(2, 32)
    ensures Int64.Has(v) <==> 0 <= v + Power(2, 63) < Power(2, 64)
    ensures UInt64.Has(v) <==> 0 <= v < Power(2, 64)
    ensures INT_MAX == Power(2, 31) - 1
  {
    PowerDoubled(2, 1, 2);
    PowerDoubled(2, 2, 4);
    PowerDoubled(2, 4, 16);
    PowerDoubled(2, 8, 256);
    PowerDoubled(2, 16, 0x1_0000);
    PowerDoubled(2, 32, 0x1_0000_0000);
    assert Power(2, 32) == 2 * Power(2, 31) && Power(2, 64) == 2 * Power(2, 63);
  }

  function At(fmt: string, i: nat): char { if i < |fmt| then fmt[i] else '\0' }

  predicate IsDigit(c: char) { '0' <= c <= '9' }

  predicate IsFlag(c: char) { c == '#' || c == ' ' || c == '0' || c == '-' || c == '+' }

  function FlagOf(c: char): Flag
    requires IsFlag(c)
  {
    match c case '#' => Alt case ' ' => Space case '0' => Zero case '-' => Minus case _ => Plus
  }

  /** The characters that section 7.21.6.1 of ISO/IEC 9899:2011 gives the flags. */
  function FlagText(f: Flag): string {
    match f case Minus => "-" case Plus => "+" case Space => " " case Alt => "#" case Zero => "0" case Huge => ""
  }

  function FlagsIn(s: string): set<Flag> { set c | c in s && IsFlag(c) :: FlagOf(c) }

  function FlagsEnd(fmt: string, i: nat): (e: nat)
    ensures i <= |fmt| ==> i <= e <= |fmt|
    ensures i <= e && !IsFlag(At(fmt, e))
    decreases |fmt| - i
  {
    if i < |fmt| && IsFlag(fmt[i]) then FlagsEnd(fmt, i + 1) else i
  }

  function DigitsEnd(fmt: string, i: nat): (e: nat)
    ensures i <= |fmt| ==> i <= e <= |fmt|
    ensures i <= e && !IsDigit(At(fmt, e))
    ensures forall k | i <= k < e && k < |fmt| :: IsDigit(fmt[k])
    decreases |fmt| - i
  {
    if i < |fmt| && IsDigit(fmt[i]) then DigitsEnd(fmt, i + 1) else i
  }

  /** The decimal number that starts at offset i. */
  function DecimalAt(fmt: string, i: nat): nat
    requires i <= |fmt|
  {
    Value(fmt[i..DigitsEnd(fmt, i)], 10)
  }

  predicate IsInt(args: seq<Arg>, k: nat) { HasArg(args, k, Int32) }

  function IntAt(args: seq<Arg>, k: nat): int { if k < |args| && args[k].Int? then args[k].v else 0 }

  /** A field of a directive with the offset and the argument index after it. */
  datatype Parsed<T> = Parsed(field: T, at: nat, arg: nat)

  function ParseWidth(fmt: string, i: nat, args: seq<Arg>, k: nat): (r: Parsed<Option<int>>)
    requires i <= |fmt|
    ensures i <= r.at <= |fmt|
  {
    if At(fmt, i) == '*' then Parsed(Some(IntAt(args, k)), i + 1, k + 1)
    else if IsDigit(At(fmt, i)) then Parsed(Some(DecimalAt(fmt, i)), DigitsEnd(fmt, i), k)
    else Parsed(None, i, k)
  }

  function ParsePrecision(fmt: string, i: nat, args: seq<Arg>, k: nat): (r: Parsed<Option<int>>)
    requires i <= |fmt|
    ensures i <= r.at <= |fmt|
  {
    if At(fmt, i) != '.' then Parsed(None, i, k)
    else if At(fmt, i + 1) == '*' then Parsed(Some(IntAt(args, k)), i + 2, k + 1)
    else if At(fmt, i + 1) == '-' then Parsed(Some(-1), DigitsEnd(fmt, i + 2), k)
    else if IsDigit(At(fmt, i + 1)) then Parsed(Some(DecimalAt(fmt, i + 1)), DigitsEnd(fmt, i + 1), k)
    else Parsed(Some(0), i + 1, k)
  }

  function ParseLength(fmt: string, i: nat): (r: Parsed<Length>)
    requires i <= |fmt|
    ensures i <= r.at <= |fmt|
  {
    match At(fmt, i)
    case 'h' => if At(fmt, i + 1) == 'h' then Parsed(HH, i + 2, 0) else Parsed(H, i + 1, 0)
    case 'l' => if At(fmt, i + 1) == 'l' then Parsed(LL, i + 2, 0) else Parsed(L, i + 1, 0)
    case 'z' => Parsed(Z, i + 1, 0)
    case 't' => Parsed(T, i + 1, 0)
    case _ => Parsed(NoLength, i, 0)
  }

  /** Flags, width and precision, up to the length modifier. */
  datatype Fields = Fields(flags: set<Flag>, width: Option<int>, precision: Option<int>, at: nat, arg: nat)

  function ParseFields(fmt: string, i: nat, args: seq<Arg>, k: nat): (r: Fields)
    requires i <= |fmt|
    ensures i <= r.at <= |fmt|
  {
    var f := FlagsEnd(fmt, i);
    var w := ParseWidth(fmt, f, args, k);
    var p := ParsePrecision(fmt, w.at, args, w.arg);
    Fields(FlagsIn(fmt[i..f]), w.field, p.field, p.at, p.arg)
  }

  /** The directive whose text starts at offset i, just after its percent sign. */
  function ParseDirective(fmt: string, i: nat, args: seq<Arg>, k: nat): (d: Directive)
    requires i <= |fmt|
    ensures i < d.next <= |fmt| + 1
  {
    var r := ParseFields(fmt, i, args, k);
    var l := ParseLength(fmt, r.at);
    Directive(r.flags, r.width, r.precision, l.field, At(fmt, l.at), l.at + 1, r.arg)
  }

  /** The numbers written in the directive fit an int and every `*` has its int argument. */
  predicate FieldsReadable(fmt: string, i: nat, args: seq<Arg>, k: nat)
    requires i <= |fmt|
  {
    var f := FlagsEnd(fmt, i);
    var w := ParseWidth(fmt, f, args, k);
    var p := ParsePrecision(fmt, w.at, args, w.arg);
    && (At(fmt, f) == '*' ==> IsInt(args, k))
    && (w.field.Some? ==> INT_MIN <= w.field.value <= INT_MAX)
    && (At(fmt, w.at) == '.' && At(fmt, w.at + 1) == '*' ==> IsInt(args, w.arg))
    && (p.field.Some? ==> INT_MIN <= p.field.value <= INT_MAX)
  }
}
