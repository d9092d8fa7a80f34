/** The conversions and the driver loop of vsnprintf (src/vsnprintf.cpp:259-325, 439-586). */
module Driver {
  import opened Options
  import opened Buffers
  import opened Numerals
  import opened Directives
  import opened FormatSpecs
  import opened Numbers
  import opened Formatter
  import opened Parser

  /** A 64-bit two's complement reading of v. */
  function Wrap64(v: int): int { (v + TWO_63) % TWO_64 - TWO_63 }

  /** read_signed_number: only `hh` narrows. */
  function SignedArg(length: Length, v: int): int { if length == HH then (v + 128) % 256 - 128 else v }

  /** read_unsigned_number: only `hh` narrows. */
  function UnsignedArg(length: Length, v: int): int { if length == HH then v % 256 else v }

  /** The unsigned number that `d` hands to format_number: negation wraps, then converts to unsigned. */
  function Magnitude(v: int): nat { (if v < 0 then Wrap64(-v) else v) % TWO_64 }

  predicate IsSigned(c: char) { c == 'd' || c == 'i' }

  predicate IsUnsigned(c: char) { c == 'u' || c == 'o' || c == 'x' || c == 'X' }

  predicate IsNumber(c: char) { IsSigned(c) || IsUnsigned(c) || c == 'p' }

  /** Conversions that read one argument. */
  predicate TakesArg(c: char) { IsNumber(c) || c == 'c' || c == 's' }

  function ArgAfter(d: Directive): nat { if TakesArg(d.conversion) then d.arg + 1 else d.arg }

  /** The value that a number directive prints. */
  function NumberValue(d: Directive, args: seq<Arg>): int {
    var v := IntAt(args, d.arg);
    if IsSigned(d.conversion) then SignedArg(d.length, v) else UnsignedArg(d.length, v)
  }

  /** The specification after parsing, with the zero flag dropped by a precision or a minus flag. */
  function Prepared(d: Directive): Spec {
    var noZero := d.precision.Some? || Minus in d.flags;
    Spec(if noZero then d.flags - {Zero} else d.flags, d.length, d.width.GetOr(-1), d.precision.GetOr(-1), false, 10)
  }

  /** The specification with which a number directive calls format_number. */
  function NumberSpec(d: Directive, value: int): (s: Spec)
    ensures IsRadix(s.radix)
  {
    var s := Prepared(d);
    match d.conversion
    case 'u' => s.(flags := s.flags - {Alt} - {Space} - {Plus})
    case 'o' => s.(flags := s.flags - {Space} - {Plus}, radix := 8)
    case 'x' => s.(flags := s.flags - {Space} - {Plus}, radix := 16)
    case 'X' => s.(flags := s.flags + {Huge} - {Space} - {Plus}, radix := 16)
    case 'p' => s.(flags := s.flags - {Zero} - {Space} - {Plus} - {Alt}, radix := 16,
                   precision := if s.precision == -1 && s.width == -1 then PTR_HEX_DIGITS else s.precision)
    case _ => s.(flags := s.flags - {Alt} - (if value < 0 then {Space} else {}), negative := value < 0)
  }

  /** The type that read_signed_number and read_unsigned_number read for a length modifier. */
  function ReadType(length: Length, signed: bool): CType {
    if length == H || length == HH then (if signed then Int32 else UInt32)
    else (if signed then Int64 else UInt64)
  }

  /** The type of a number directive's argument; without a length modifier all but pointers are int or unsigned. */
  function ArgType(d: Directive): CType {
    if d.length == NoLength && d.conversion != 'p' then (if IsSigned(d.conversion) then Int32 else UInt32)
    else ReadType(d.length, IsSigned(d.conversion))
  }

  predicate NumberReady(d: Directive, args: seq<Arg>) {
    && IsNumber(d.conversion) && HasArg(args, d.arg, ArgType(d))
    && (d.conversion == 'p' ==> NumberValue(d, args) > 0)
    && var value := NumberValue(d, args);
       |SignedText(NumberSpec(d, value), Magnitude(value))| <= MAX_NUMBER_LEN
  }

  /**
   The directive ends inside the format, has an argument of the right type and, for a number, a text that
   fits the 66-character array.
   */
  predicate Legal(fmt: string, i: nat, args: seq<Arg>, k: nat)
    requires i <= |fmt|
  {
    var d := ParseDirective(fmt, i, args, k);
    && FieldsReadable(fmt, i, args, k)
    && d.next <= |fmt| && d.conversion != 'n'
    && (IsNumber(d.conversion) ==> NumberReady(d, args))
    && (d.conversion == 'c' ==> IsInt(args, d.arg))
    && (d.conversion == 's' ==> d.arg < |args| && args[d.arg].Text?)
  }

  lemma LegalEnds(fmt: string, i: nat, args: seq<Arg>, k: nat)
    requires i <= |fmt|
    ensures Legal(fmt, i, args, k) ==> ParseDirective(fmt, i, args, k).next <= |fmt|
  {
  }

  /** What one directive emits with `left` characters of capacity. */
  function Emit(d: Directive, args: seq<Arg>, left: nat): (e: Emission)
    ensures |e.text| < e.advance ==> e.advance > left
    ensures |e.text| <= e.advance
  {
    var s := Prepared(d);
    var c := d.conversion;
    if IsNumber(c) then
      var value := NumberValue(d, args);
      PutNumber(NumberSpec(d, value), Magnitude(value), left)
    else if c == 'c' then Put(s.width, [CharOf(IntAt(args, d.arg))], left, Minus in s.flags)
    else if c == 's' then
      var str := if d.arg < |args| && args[d.arg].Text? then args[d.arg].s else None;
      Put(s.width, StringPart(str, s.precision, left), left, Minus in s.flags)
    else Emission([c], 1, 1)
  }

  /** What the loop emits from offset i of the format, argument k and `left` characters of capacity on. */
  function Run(fmt: string, i: nat, args: seq<Arg>, k: nat, left: int): (e: Emission)
    requires i <= |fmt|
    ensures |e.text| <= e.advance
    ensures i == |fmt| || left <= 0 ==> e == NOTHING
    decreases |fmt| - i
  {
    if i == |fmt| || left <= 0 then NOTHING
    else if fmt[i] != '%' then
      var r := Run(fmt, i + 1, args, k, left - 1);
      Emission([fmt[i]] + r.text, 1 + r.advance, 1 + r.total)
    else if !Legal(fmt, i + 1, args, k) then NOTHING
    else
      var d := ParseDirective(fmt, i + 1, args, k);
      var e := Emit(d, args, left);
      var r := Run(fmt, d.next, args, ArgAfter(d), left - e.advance);
      Emission(e.text + r.text, e.advance + r.advance, e.total + r.total)
  }

  /** Every directive that the loop reaches is legal. */
  predicate AllLegal(fmt: string, i: nat, args: seq<Arg>, k: nat, left: int)
    requires i <= |fmt|
    decreases |fmt| - i
  {
    i == |fmt| || left <= 0 ||
    if fmt[i] != '%' then AllLegal(fmt, i + 1, args, k, left - 1)
    else
      && Legal(fmt, i + 1, args, k)
      && var d := ParseDirective(fmt, i + 1, args, k);
         AllLegal(fmt, d.next, args, ArgAfter(d), left - Emit(d, args, left).advance)
  }

  /** The value read fits the long long that the code keeps it in. */
  method ReadSignedNumber(length: Length, w: VaList) returns (value: int)
    requires HasArg(w.args, w.next, ReadType(length, true))
    modifies w
    ensures w.next == old(w.next) + 1 && value == SignedArg(length, IntAt(w.args, old(w.next))) && Int64.Has(value)
  {
    match length {
      case L => value := w.NextInt(Int64);
      case Z => value := w.NextInt(Int64);
      case HH =>
        var v := w.NextInt(Int32);
        value := (v + 128) % 256 - 128;
      case H => value := w.NextInt(Int32);
      case T => value := w.NextInt(Int64);
      case _ => value := w.NextInt(Int64);
    }
  }

  method ReadUnsignedNumber(length: Length, w: VaList) returns (value: int)
    requires HasArg(w.args, w.next, ReadType(length, false))
    modifies w
    ensures w.next == old(w.next) + 1 && value == UnsignedArg(length, IntAt(w.args, old(w.next))) && UInt64.Has(value)
  {
    match length {
      case L => value := w.NextInt(UInt64);
      case Z => value := w.NextInt(UInt64);
      case HH =>
        var v := w.NextInt(UInt32);
        value := v % 256;
      case H => value := w.NextInt(UInt32);
      case _ => value := w.NextInt(UInt64);
    }
  }

  /** What a caller can check: the text of a number of the right type fits exactly when its fields do. */
  lemma FieldsReady(d: Directive, args: seq<Arg>)
    requires IsNumber(d.conversion) && HasArg(args, d.arg, ArgType(d)) && Huge !in d.flags
    requires d.conversion == 'p' ==> NumberValue(d, args) > 0
    ensures
      var value := NumberValue(d, args);
      NumberReady(d, args) <==> FieldsFit(NumberSpec(d, value), Magnitude(value))
  {
    var value := NumberValue(d, args);
    hide SignedText, FieldsFit;
    TextFits(NumberSpec(d, value), Magnitude(value));
  }

  /** In particular up to 64 for precision and zero-filled width. */
  lemma SmallFieldsReady(d: Directive, args: seq<Arg>)
    requires IsNumber(d.conversion) && HasArg(args, d.arg, ArgType(d)) && Huge !in d.flags
    requires d.conversion == 'p' ==> NumberValue(d, args) > 0
    requires d.precision.GetOr(-1) <= 64 && (Zero in d.flags ==> d.width.GetOr(-1) <= 64)
    ensures NumberReady(d, args)
  {
    hide SignedText, NumberReady, Magnitude, ArgType, NumberValue;
    FieldsReady(d, args);
  }

  /** Reads a signed argument and sets sign and flags for it; the number is its magnitude. */
  method ReadSignedInt(spec: FormatSpec, w: VaList, ghost d: Directive) returns (number: nat)
    requires IsSigned(d.conversion) && spec.View() == Prepared(d)
    requires w.next == d.arg && HasArg(w.args, d.arg, ArgType(d))
    modifies spec, w
    ensures w.next == d.arg + 1 && spec.total == old(spec.total)
    ensures number == Magnitude(NumberValue(d, w.args)) && spec.View() == NumberSpec(d, NumberValue(d, w.args))
  {
    spec.flags := spec.flags - {Alt};
    spec.radix := 10;
    var value: int;
    if spec.length == NoLength {
      value := w.NextInt(Int32);
    } else {
      value := ReadSignedNumber(spec.length, w);
    }
    spec.negative := value < 0;
    if value < 0 {
      value := Wrap64(-value);
      spec.flags := spec.flags - {Space};
    }
    number := value % TWO_64;
  }

  method ConvertSigned(buf: array<char>, pos: nat, spec: FormatSpec, left: nat, w: VaList, ghost d: Directive)
    returns (e: nat)
    requires IsSigned(d.conversion) && spec.View() == Prepared(d) && w.next == d.arg && NumberReady(d, w.args)
    requires pos + Emit(d, w.args, left).advance <= buf.Length
    modifies buf, spec, w
    ensures w.next == ArgAfter(d)
    ensures
      var put := Emit(d, w.args, left);
      && e == pos + put.advance && spec.total == old(spec.total) + put.total
      && buf[..] == Overwrite(old(buf[..]), pos, put.text)
  {
    var number := ReadSignedInt(spec, w, d);
    e := FormatNumber(buf, pos, number, spec, left, NumberSpec(d, NumberValue(d, w.args)));
  }

  method ReadUnsignedInt(spec: FormatSpec, w: VaList) returns (value: int)
    requires HasArg(w.args, w.next, if spec.length == NoLength then UInt32 else ReadType(spec.length, false))
    modifies spec`flags, w
    ensures w.next == old(w.next) + 1 && spec.flags == old(spec.flags) - {Space} - {Plus}
    ensures value == UnsignedArg(spec.length, IntAt(w.args, old(w.next)))
  {
    spec.flags := spec.flags - {Space};
    spec.flags := spec.flags - {Plus};
    if spec.length == NoLength {
      value := w.NextInt(UInt32);
    } else {
      value := ReadUnsignedNumber(spec.length, w);
    }
  }

  method ReadFormatUnsignedInt(buf: array<char>, pos: nat, spec: FormatSpec, left: nat, w: VaList,
                               ghost s: Spec, ghost number: nat)
    returns (e: nat)
    requires HasArg(w.args, w.next, if spec.length == NoLength then UInt32 else ReadType(spec.length, false))
    requires number == UnsignedArg(spec.length, IntAt(w.args, w.next))
    requires s == spec.View().(flags := spec.flags - {Space} - {Plus}) && IsRadix(s.radix)
    requires |SignedText(s, number)| <= MAX_NUMBER_LEN
    requires pos + PutNumber(s, number, left).advance <= buf.Length
    modifies buf, spec, w
    ensures w.next == old(w.next) + 1
    ensures
      var put := PutNumber(s, number, left);
      && e == pos + put.advance && spec.total == old(spec.total) + put.total
      && buf[..] == Overwrite(old(buf[..]), pos, put.text)
  {
    var value := ReadUnsignedInt(spec, w);
    e := FormatNumber(buf, pos, value, spec, left, s);
  }

  method SetUpPointer(spec: FormatSpec)
    modifies spec
    ensures spec.total == old(spec.total)
    ensures
      var s := old(spec.View());
      spec.View() == s.(flags := s.flags - {Zero} - {Space} - {Plus} - {Alt}, radix := 16,
        precision := if s.precision == -1 && s.width == -1 then PTR_HEX_DIGITS else s.precision)
  {
    spec.flags := spec.flags - {Zero};
    spec.flags := spec.flags - {Space};
    spec.flags := spec.flags - {Plus};
    spec.flags := spec.flags - {Alt};
    spec.radix := 16;
    if spec.precision == -1 && spec.width == -1 {
      spec.precision := PTR_HEX_DIGITS;
    }
  }

  lemma EmitUnsigned(d: Directive, args: seq<Arg>, left: nat)
    requires NumberReady(d, args) && !IsSigned(d.conversion)
    ensures
      var v := UnsignedArg(d.length, IntAt(args, d.arg));
      && v >= 0 && NumberValue(d, args) == v && Magnitude(v) == v
      && Emit(d, args, left) == PutNumber(NumberSpec(d, v), v, left)
  {
  }

  method ConvertPointer(buf: array<char>, pos: nat, spec: FormatSpec, left: nat, w: VaList, ghost d: Directive)
    returns (e: nat)
    requires d.conversion == 'p' && spec.View() == Prepared(d) && w.next == d.arg && NumberReady(d, w.args)
    requires pos + Emit(d, w.args, left).advance <= buf.Length
    modifies buf, spec, w
    ensures w.next == ArgAfter(d)
    ensures
      var put := Emit(d, w.args, left);
      && e == pos + put.advance && spec.total == old(spec.total) + put.total
      && buf[..] == Overwrite(old(buf[..]), pos, put.text)
  {
    EmitUnsigned(d, w.args, left);
    var value := ReadUnsignedNumber(spec.length, w);
    SetUpPointer(spec);
    e := FormatNumber(buf, pos, value, spec, left, NumberSpec(d, value));
  }

  /** The cases of the switch for unsigned numbers, which set flags and radix. */
  method ConvertUnsigned(buf: array<char>, pos: nat, conversion: char, spec: FormatSpec, left: nat, w: VaList,
                         ghost d: Directive)
    returns (e: nat)
    requires conversion == d.conversion && IsUnsigned(conversion)
    requires spec.View() == Prepared(d) && w.next == d.arg && NumberReady(d, w.args)
    requires pos + Emit(d, w.args, left).advance <= buf.Length
    modifies buf, spec, w
    ensures w.next == ArgAfter(d)
    ensures
      var put := Emit(d, w.args, left);
      && e == pos + put.advance && spec.total == old(spec.total) + put.total
      && buf[..] == Overwrite(old(buf[..]), pos, put.text)
  {
    EmitUnsigned(d, w.args, left);
    hide Emit, PutNumber, SignedText;
    ghost var v := NumberValue(d, w.args);
    match conversion {
      case 'u' =>
        spec.flags := spec.flags - {Alt};
      case 'o' =>
        spec.radix := 8;
      case 'X' =>
        spec.flags := spec.flags + {Huge};
        spec.radix := 16;
      case 'x' =>
        spec.radix := 16;
    }
    e := ReadFormatUnsignedInt(buf, pos, spec, left, w, NumberSpec(d, v), v);
  }

  /** The switch on the conversion character. */
  method Convert(buf: array<char>, pos: nat, conversion: char, spec: FormatSpec, left: nat, w: VaList,
                 ghost d: Directive)
    returns (e: nat)
    requires conversion == d.conversion && spec.View() == Prepared(d) && w.next == d.arg
    requires IsNumber(conversion) ==> NumberReady(d, w.args)
    requires conversion == 'c' ==> IsInt(w.args, d.arg)
    requires conversion == 's' ==> d.arg < |w.args| && w.args[d.arg].Text?
    requires conversion != 'n' && pos + Emit(d, w.args, left).advance <= buf.Length
    modifies buf, spec, w
    ensures w.next == ArgAfter(d)
    ensures
      var put := Emit(d, w.args, left);
      && e == pos + put.advance && spec.total == old(spec.total) + put.total
      && buf[..] == Overwrite(old(buf[..]), pos, put.text)
  {
    hide NumberReady, Put, StringPart;
    if IsSigned(conversion) {
      e := ConvertSigned(buf, pos, spec, left, w, d);
    } else if IsUnsigned(conversion) {
      e := ConvertUnsigned(buf, pos, conversion, spec, left, w, d);
    } else {
      match conversion {
        case 'p' => e := ConvertPointer(buf, pos, spec, left, w, d);
        case 'c' => e := FormatChar(buf, pos, spec, left, w);
        case 's' => e := FormatString(buf, pos, spec, left, w);
        case _ =>
          buf[pos] := conversion;
          e := pos + 1;
          spec.total := spec.total + 1;
      }
    }
  }

  /** One directive: parse it, drop the zero flag under a minus flag, convert. */
  method FormatDirective(buf: array<char>, pos: nat, fmt: string, i: nat, spec: FormatSpec, left: nat, w: VaList)
    returns (e: nat, next: nat)
    requires i <= |fmt| && Legal(fmt, i, w.args, w.next) && spec.View() == RESET
    requires pos + Emit(ParseDirective(fmt, i, w.args, w.next), w.args, left).advance <= buf.Length
    modifies buf, spec, w
    ensures
      var d := ParseDirective(fmt, i, w.args, old(w.next));
      var put := Emit(d, w.args, left);
      && next == d.next && w.next == ArgAfter(d)
      && e == pos + put.advance && spec.total == old(spec.total) + put.total
      && buf[..] == Overwrite(old(buf[..]), pos, put.text)
  {
    ghost var d := ParseDirective(fmt, i, w.args, w.next);
    next := ParseFlagsWidthPrecision(fmt, i, spec, w);
    next := ParseSizeSpecifier(fmt, next, spec);
    if Minus in spec.flags {
      spec.flags := spec.flags - {Zero};
    }
    assert spec.View() == Prepared(d);
    e := Convert(buf, pos, At(fmt, next), spec, left, w, d);
    next := next + 1;
  }

  /**
   The driver loop has reached offset i of the format and argument k: `out` is stored in the buffer, and what it
   has emitted together with what it will still emit is the whole run.
   */
  predicate Reached(fmt: string, args: seq<Arg>, size: nat, start: string, now: string,
                    i: nat, k: nat, pos: nat, total: int, out: string)
  {
    i <= |fmt| &&
    var run, rest := Run(fmt, 0, args, 0, size), Run(fmt, i, args, k, size - pos);
    && run.text == out + rest.text && run.advance == pos + rest.advance && run.total == total + rest.total
    && run.advance < |start| && |out| <= pos && (|out| < pos ==> pos > size)
    && now == Overwrite(start, 0, out)
    && AllLegal(fmt, i, args, k, size - pos)
  }

  lemma AfterOverwrite(start: string, now: string, out: string, text: string)
    requires |out| + |text| <= |start| && now == Overwrite(start, 0, out)
    ensures Overwrite(now, |out|, text) == Overwrite(start, 0, out + text)
  {
  }

  lemma LiteralStep(fmt: string, args: seq<Arg>, size: nat, start: string, now: string,
                    i: nat, k: nat, pos: nat, total: int, out: string)
    requires Reached(fmt, args, size, start, now, i, k, pos, total, out)
    requires i < |fmt| && pos < size && fmt[i] != '%'
    ensures pos < |now|
    ensures Reached(fmt, args, size, start, Overwrite(now, pos, [fmt[i]]), i + 1, k, pos + 1, total + 1, out + [fmt[i]])
  {
    hide Legal, Emit, ParseDirective, Overwrite;
    AfterOverwrite(start, now, out, [fmt[i]]);
  }

  lemma DirectiveStep(fmt: string, args: seq<Arg>, size: nat, start: string, now: string,
                      i: nat, k: nat, pos: nat, total: int, out: string, d: Directive, put: Emission)
    requires Reached(fmt, args, size, start, now, i, k, pos, total, out)
    requires i < |fmt| && pos < size && fmt[i] == '%'
    requires d == ParseDirective(fmt, i + 1, args, k) && put == Emit(d, args, size - pos)
    ensures Legal(fmt, i + 1, args, k) && pos + put.advance <= |now|
    ensures Reached(fmt, args, size, start, Overwrite(now, pos, put.text),
                    d.next, ArgAfter(d), pos + put.advance, total + put.total, out + put.text)
  {
    hide Emit, ParseDirective, Legal, Overwrite;
    LegalEnds(fmt, i + 1, args, k);
    var rest := Run(fmt, d.next, args, ArgAfter(d), size - pos - put.advance);
    assert Run(fmt, i, args, k, size - pos)
        == Emission(put.text + rest.text, put.advance + rest.advance, put.total + rest.total);
    assert out + (put.text + rest.text) == out + put.text + rest.text;
    assert size - pos - put.advance == size - (pos + put.advance);
    AfterOverwrite(start, now, out, put.text);
  }

  method StoreChar(buf: array<char>, pos: nat, c: char)
    requires pos < buf.Length
    modifies buf
    ensures buf[..] == Overwrite(old(buf[..]), pos, [c])
  {
    buf[pos] := c;
  }

  /** The driver loop; returns the final output position. */
  method Loop(buf: array<char>, size: nat, fmt: string, spec: FormatSpec, w: VaList) returns (pos: nat)
    requires w.next == 0 && spec.total == 0 && AllLegal(fmt, 0, w.args, 0, size)
    requires Run(fmt, 0, w.args, 0, size).advance < buf.Length
    modifies buf, spec, w
    ensures
      var run := Run(fmt, 0, w.args, 0, size);
      && spec.total == run.total && pos == run.advance
      && buf[..] == Overwrite(old(buf[..]), 0, run.text)
  {
    hide Legal, Emit, ParseDirective, Run, AllLegal;
    pos := 0;
    var i := 0;
    ghost var start := buf[..];
    ghost var out := "";
    while i < |fmt| && pos < size
      invariant Reached(fmt, w.args, size, start, buf[..], i, w.next, pos, spec.total, out)
      decreases |fmt| - i
    {
      spec.Reset();
      if fmt[i] != '%' {
        LiteralStep(fmt, w.args, size, start, buf[..], i, w.next, pos, spec.total, out);
        out := out + [fmt[i]];
        StoreChar(buf, pos, fmt[i]);
        pos := pos + 1;
        spec.total := spec.total + 1;
        i := i + 1;
      } else {
        ghost var d := ParseDirective(fmt, i + 1, w.args, w.next);
        ghost var put := Emit(d, w.args, size - pos);
        DirectiveStep(fmt, w.args, size, start, buf[..], i, w.next, pos, spec.total, out, d, put);
        out := out + put.text;
        pos, i := FormatDirective(buf, pos, fmt, i + 1, spec, size - pos, w);
      }
    }
    assert out + "" == out;
  }

  /**
   vsnprintf, for every format whose reached directives are legal and every buffer that holds what the code
   stores: the characters of Run, then a NUL at the final output position. The caller's argument list is copied.
   */
  method VSNPrintf(buf: array<char>, maxSize: nat, fmt: string, ap: VaList) returns (total: int)
    requires 0 < maxSize < INT_MAX ==>
      && AllLegal(fmt, 0, ap.args, 0, maxSize - 1)
      && Run(fmt, 0, ap.args, 0, maxSize - 1).advance < buf.Length
    modifies buf
    ensures
      if 0 < maxSize < INT_MAX then
        var run := Run(fmt, 0, ap.args, 0, maxSize - 1);
        && total == run.total
        && buf[..] == Overwrite(Overwrite(old(buf[..]), 0, run.text), run.advance, ['\0'])
      else total == 0 && buf[..] == old(buf[..])
  {
    if maxSize == 0 {
      return 0;
    }
    var spec := new FormatSpec();
    var w := new VaList(ap.args);
    if maxSize > 0 && maxSize < INT_MAX {
      var pos := Loop(buf, maxSize - 1, fmt, spec, w);
      buf[pos] := '\0';
    }
    total := spec.total;
  }
}
