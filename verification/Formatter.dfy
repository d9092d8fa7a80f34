/** Justification and the conversions to text (src/vsnprintf.cpp:209-257, 401-437). */
module Formatter {
  import opened Options
  import opened Buffers
  import opened Numerals
  import opened Directives
  import opened FormatSpecs
  import opened Numbers

  const NULL_TEXT := "(null)"

  const PTR_HEX_DIGITS := 16

  /**
   What a conversion does to the output when `size` characters are left: the characters stored at the
   output position, how far that position moves, and what is added to the return value.
   */
  datatype Emission = Emission(text: string, advance: nat, total: nat)

  const NOTHING := Emission("", 0, 0)

  function Padding(width: int, len: nat): nat { Max(0, width - len) }

  function PutText(width: int, value: string, size: nat, minus: bool): string {
    var padding := Padding(width, |value|);
    if minus then value[..Min(|value|, size)] + Fill(' ', Min(padding, size))
    else Fill(' ', Min(padding, size)) + value[..Min(|value|, Max(0, size - padding))]
  }

  function PutAdvance(width: int, len: nat, size: nat, minus: bool): nat {
    var padding := Padding(width, len);
    if minus then Min(len, size) + padding else padding + Min(len, Max(0, size - padding))
  }

  function Put(width: int, value: string, size: nat, minus: bool): (e: Emission)
    ensures |e.text| <= e.advance && (|e.text| < e.advance ==> e.advance > size)
  {
    Emission(PutText(width, value, size, minus), PutAdvance(width, |value|, size, minus),
             Padding(width, |value|) + |value|)
  }

  /** Blanks first: what the two writes leave, and how far the position moves. */
  lemma RightJustified(start: string, pos: nat, width: int, value: string, size: nat)
    requires pos + Put(width, value, size, false).advance <= |start|
    ensures
      var padding, put := Padding(width, |value|), Put(width, value, size, false);
      var lead, count := Fill(' ', Min(padding, size)), Min(|value|, Max(0, size - padding));
      && pos + padding + count == pos + put.advance <= |start| && pos + |lead| <= |start|
      && put.total == padding + |value|
      && Overwrite(Overwrite(start, pos, lead), pos + padding, value[..count]) == Overwrite(start, pos, put.text)
  {
    var padding := Padding(width, |value|);
    var lead, body := Fill(' ', Min(padding, size)), value[..Min(|value|, Max(0, size - padding))];
    if padding <= size {
      OverwriteTwice(start, pos, lead, body);
    } else {
      OverwriteNothing(Overwrite(start, pos, lead), pos + padding);
      assert lead + body == lead;
    }
  }

  /** Blanks last; their number is cut to size, not to what the text has left. */
  lemma LeftJustified(start: string, pos: nat, width: int, value: string, size: nat)
    requires pos + Put(width, value, size, true).advance <= |start|
    ensures
      var padding, put := Padding(width, |value|), Put(width, value, size, true);
      var count, trail := Min(|value|, size), Fill(' ', Min(padding, size));
      && pos + count + padding == pos + put.advance <= |start| && pos + count + |trail| <= |start|
      && put.total == padding + |value|
      && Overwrite(Overwrite(start, pos, value[..count]), pos + count, trail) == Overwrite(start, pos, put.text)
  {
    OverwriteTwice(start, pos, value[..Min(|value|, size)], Fill(' ', Min(Padding(width, |value|), size)));
  }

  method PutWithFieldWidth(buf: array<char>, pos: nat, value: string, spec: FormatSpec, size: nat) returns (e: nat)
    requires pos + Put(spec.width, value, size, Minus in spec.flags).advance <= buf.Length
    modifies buf, spec`total
    ensures
      var put := Put(spec.width, value, size, Minus in spec.flags);
      && e == pos + put.advance && spec.total == old(spec.total) + put.total
      && buf[..] == Overwrite(old(buf[..]), pos, put.text)
  {
    hide Overwrite, Put, Fill;
    var len := |value|;
    var padding := if spec.width - len >= 0 then spec.width - len else 0;
    var room: nat := size;
    spec.total := spec.total + padding;
    e := pos;
    if Minus !in spec.flags {
      RightJustified(buf[..], pos, spec.width, value, size);
      MemSet(buf, e, ' ', Min(padding, room));
      e := e + padding;
      room := if room > padding then room - padding else 0;
      padding := 0;
    } else {
      LeftJustified(buf[..], pos, spec.width, value, size);
    }
    e := MemPCpy(buf, e, value, Min(len, room));
    spec.total := spec.total + len;
    if Minus in spec.flags {
      MemSet(buf, e, ' ', Min(padding, room));
      e := e + padding;
      padding := 0;
    }
  }

  /** Conversion of an int to a char: its low eight bits. */
  function CharOf(v: int): (c: char)
    ensures c as int < 256 && (v - c as int) % 256 == 0
  {
    (v % 256) as char
  }

  method FormatChar(buf: array<char>, pos: nat, spec: FormatSpec, size: nat, w: VaList) returns (e: nat)
    requires IsInt(w.args, w.next)
    requires pos + Put(spec.width, [CharOf(IntAt(w.args, w.next))], size, Minus in spec.flags).advance <= buf.Length
    modifies buf, spec`total, w
    ensures w.next == old(w.next) + 1
    ensures
      var put := Put(spec.width, [CharOf(IntAt(w.args, old(w.next)))], size, Minus in spec.flags);
      && e == pos + put.advance && spec.total == old(spec.total) + put.total
      && buf[..] == Overwrite(old(buf[..]), pos, put.text)
  {
    var c := w.NextInt(Int32);
    e := PutWithFieldWidth(buf, pos, [CharOf(c)], spec, size);
  }

  /** What `%s` prints of a string with `size` characters left. */
  function StringPart(s: Option<string>, precision: int, size: nat): string {
    var str := s.GetOr(NULL_TEXT);
    str[..Min(|str|, if precision >= 0 then Min(precision, size) else size)]
  }

  method FormatString(buf: array<char>, pos: nat, spec: FormatSpec, size: nat, w: VaList) returns (e: nat)
    requires w.next < |w.args| && w.args[w.next].Text?
    requires
      var part := StringPart(w.args[w.next].s, spec.precision, size);
      pos + Put(spec.width, part, size, Minus in spec.flags).advance <= buf.Length
    modifies buf, spec`total, w
    ensures w.next == old(w.next) + 1
    ensures
      var part := StringPart(w.args[old(w.next)].s, spec.precision, size);
      var put := Put(spec.width, part, size, Minus in spec.flags);
      && e == pos + put.advance && spec.total == old(spec.total) + put.total
      && buf[..] == Overwrite(old(buf[..]), pos, put.text)
  {
    var s := w.NextText();
    var str := s.GetOr(NULL_TEXT);
    var maxCount: int := size;
    if spec.precision >= 0 {
      maxCount := Min(spec.precision, size);
    }
    var len := Min(|str|, maxCount);
    e := PutWithFieldWidth(buf, pos, str[..len], spec, size);
  }

  function PutNumber(s: Spec, number: nat, size: nat): Emission
    requires IsRadix(s.radix)
  {
    Put(ZeroRewrite(s).width, SignedText(s, number), size, Minus in s.flags)
  }

  lemma SignThenText(before: string, sign: string, text: string)
    requires |sign| <= 1 && |sign| + |text| <= |before|
    requires sign != "" ==> before[0] == sign[0]
    ensures Overwrite(before, |sign|, text[|text| - |text|..])[..|sign| + |text|] == sign + text
  {
    assert text[|text| - |text|..] == text;
  }

  method BuildSigned(numberStr: array<char>, sign: string, number: nat, t: Spec) returns (len: nat)
    requires IsRadix(t.radix) && |sign| <= 1
    requires |sign| + |NumberText(t, number, MAX_NUMBER_LEN)| <= numberStr.Length == MAX_NUMBER_LEN
    modifies numberStr
    ensures len <= numberStr.Length && numberStr[..len] == sign + NumberText(t, number, MAX_NUMBER_LEN)
  {
    var offset := if sign == "" then 0 else 1;
    if sign != "" {
      numberStr[0] := sign[0];
    }
    SignThenText(numberStr[..], sign, NumberText(t, number, MAX_NUMBER_LEN));
    len := NumberToString(numberStr, offset, number, t, MAX_NUMBER_LEN);
    len := len + offset;
  }

  /** The sign character of format_number, and its rewriting of width and precision under the zero flag. */
  method RewriteZeroFlag(spec: FormatSpec) returns (sign: string)
    modifies spec`width, spec`precision
    ensures sign == SignOf(old(spec.View())) && spec.View() == ZeroRewrite(old(spec.View()))
  {
    sign := if spec.negative then "-" else "";
    if !spec.negative {
      if Plus in spec.flags {
        sign := "+";
      } else if Space in spec.flags {
        sign := " ";
      }
    }
    if Zero in spec.flags {
      if spec.precision < spec.width {
        spec.precision := spec.width;
        spec.width := 0;
      }
      if sign != "" {
        spec.precision := spec.precision - 1;
      }
    }
  }

  method FormatNumber(buf: array<char>, pos: nat, number: nat, spec: FormatSpec, size: nat, ghost s: Spec)
    returns (e: nat)
    requires spec.View() == s && IsRadix(s.radix) && |SignedText(s, number)| <= MAX_NUMBER_LEN
    requires pos + PutNumber(s, number, size).advance <= buf.Length
    modifies buf, spec
    ensures
      var put := PutNumber(s, number, size);
      && e == pos + put.advance && spec.total == old(spec.total) + put.total
      && buf[..] == Overwrite(old(buf[..]), pos, put.text)
  {
    var sign := RewriteZeroFlag(spec);
    var t := Spec(spec.flags, spec.length, spec.width, spec.precision, spec.negative, spec.radix);
    assert t == ZeroRewrite(s);
    var numberStr := new char[MAX_NUMBER_LEN];
    var numberLen := BuildSigned(numberStr, sign, number, t);
    e := PutWithFieldWidth(buf, pos, numberStr[..numberLen], spec, size);
  }
}
