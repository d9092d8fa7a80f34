/** The directive parser as the source runs it: a cursor over the format and a specification filled in place. */
module Parser {
  import opened Numerals
  import opened Directives
  import opened FormatSpecs

  /** Reading one more digit extends the number read so far. */
  lemma DecimalStep(fmt: string, i: nat, j: nat)
    requires i <= j < |fmt| && IsDigit(fmt[j])
    ensures Value(fmt[i..j + 1], 10) == Value(fmt[i..j], 10) * 10 + (fmt[j] as int - '0' as int)
  {
    assert fmt[i..j + 1][..|fmt[i..j + 1]| - 1] == fmt[i..j];
  }

  /** A longer run of digits never denotes a smaller number, so no intermediate value overflows. */
  lemma {:induction false} DecimalGrows(fmt: string, i: nat, j: nat, e: nat)
    requires i <= j <= e <= |fmt| && forall k | i <= k < e :: IsDigit(fmt[k])
    ensures Value(fmt[i..j], 10) <= Value(fmt[i..e], 10)
  {
    if j < e {
      DecimalGrows(fmt, i, j, e - 1);
      DecimalStep(fmt, i, e - 1);
    }
  }

  lemma DigitsEndStep(fmt: string, i: nat, j: nat)
    requires i <= j <= |fmt| && forall k | i <= k < j :: IsDigit(fmt[k])
    ensures DigitsEnd(fmt, i) == DigitsEnd(fmt, j)
    decreases j - i
  {
    if i < j { DigitsEndStep(fmt, i + 1, j); }
  }

  lemma ParseNumberStep(fmt: string, i: nat, j: nat)
    requires i <= j < |fmt| && forall k | i <= k < j :: IsDigit(fmt[k])
    requires IsDigit(fmt[j])
    ensures Value(fmt[i..j + 1], 10) == Value(fmt[i..j], 10) * 10 + (fmt[j] as int - '0' as int) <= DecimalAt(fmt, i)
  {
    DecimalStep(fmt, i, j);
    DigitsEndStep(fmt, i, j + 1);
    DecimalGrows(fmt, i, j + 1, DigitsEnd(fmt, i));
  }

  method ParseNumber(fmt: string, i: nat) returns (out: int, str: nat)
    requires i <= |fmt| && DecimalAt(fmt, i) <= INT_MAX
    ensures str == DigitsEnd(fmt, i) && out == DecimalAt(fmt, i)
  {
    var v := 0;
    str := i;
    while IsDigit(At(fmt, str))
      invariant i <= str <= |fmt|
      invariant forall k | i <= k < str :: IsDigit(fmt[k])
      invariant v == Value(fmt[i..str], 10)
      decreases |fmt| - str
    {
      ParseNumberStep(fmt, i, str);
      ghost var limit := DecimalAt(fmt, i);
      assert v * 10 + (fmt[str] as int - '0' as int) <= limit <= INT_MAX;
      v := v * 10 + (At(fmt, str) as int - '0' as int);
      str := str + 1;
    }
    DigitsEndStep(fmt, i, str);
    out := v;
  }

  lemma FlagsEndStep(fmt: string, i: nat, j: nat)
    requires i <= j <= |fmt| && forall k | i <= k < j :: IsFlag(fmt[k])
    ensures FlagsEnd(fmt, i) == FlagsEnd(fmt, j)
    decreases j - i
  {
    if i < j { FlagsEndStep(fmt, i + 1, j); }
  }

  lemma FlagsInStep(s: string, c: char)
    requires IsFlag(c)
    ensures FlagsIn(s + [c]) == FlagsIn(s) + {FlagOf(c)}
  {
    assert forall x :: x in s + [c] <==> x in s || x == c;
    assert c in s + [c];
  }

  lemma FlagsDenoted(fmt: string, i: nat, p: nat)
    requires i <= p <= |fmt| && forall k | i <= k < p :: IsFlag(fmt[k])
    ensures forall f :: f in FlagsIn(fmt[i..p]) <==> exists k | i <= k < p :: FlagText(f) == [fmt[k]]
  {
    forall f ensures f in FlagsIn(fmt[i..p]) <==> exists k | i <= k < p :: FlagText(f) == [fmt[k]] {
      if f in FlagsIn(fmt[i..p]) {
        var c :| c in fmt[i..p] && IsFlag(c) && FlagOf(c) == f;
        var k :| 0 <= k < p - i && fmt[i..p][k] == c;
        assert FlagText(f) == [fmt[i + k]];
      }
      if k :| i <= k < p && FlagText(f) == [fmt[k]] {
        assert fmt[i..p][k - i] == fmt[k] && FlagOf(fmt[k]) == f;
      }
    }
  }

  method ParseFlags(fmt: string, i: nat, spec: FormatSpec) returns (p: nat)
    requires i <= |fmt|
    modifies spec`flags
    ensures p == FlagsEnd(fmt, i)
    ensures spec.flags == old(spec.flags) + FlagsIn(fmt[i..p])
    ensures forall f :: f in spec.flags <==> f in old(spec.flags) || exists k | i <= k < p :: FlagText(f) == [fmt[k]]
    ensures p == |fmt| || fmt[p] !in "#0- +"
  {
    p := i;
    while true
      invariant i <= p <= |fmt| && forall k | i <= k < p :: IsFlag(fmt[k])
      invariant spec.flags == old(spec.flags) + FlagsIn(fmt[i..p])
      decreases |fmt| - p
    {
      match At(fmt, p) {
        case '#' => spec.flags := spec.flags + {Alt};
        case ' ' => spec.flags := spec.flags + {Space};
        case '0' => spec.flags := spec.flags + {Zero};
        case '-' => spec.flags := spec.flags + {Minus};
        case '+' => spec.flags := spec.flags + {Plus};
        case _ => break;
      }
      assert fmt[i..p + 1] == fmt[i..p] + [fmt[p]];
      FlagsInStep(fmt[i..p], fmt[p]);
      p := p + 1;
    }
    FlagsEndStep(fmt, i, p);
    FlagsDenoted(fmt, i, p);
  }

  method ParseWidthField(fmt: string, i: nat, spec: FormatSpec, w: VaList) returns (p: nat)
    requires i <= |fmt| && !IsFlag(At(fmt, i)) && spec.width == -1
    requires At(fmt, i) == '*' ==> IsInt(w.args, w.next)
    requires IsDigit(At(fmt, i)) ==> DecimalAt(fmt, i) <= INT_MAX
    modifies spec`width, w
    ensures
      var r := ParseWidth(fmt, i, w.args, old(w.next));
      p == r.at && w.next == r.arg && spec.width == r.field.GetOr(-1)
  {
    p := i;
    if At(fmt, p) == '*' {
      p := p + 1;
      spec.width := w.NextInt(Int32);
    } else if IsDigit(At(fmt, p)) {
      spec.width, p := ParseNumber(fmt, p);
    } else if At(fmt, p) == '-' {
      assert false;  // the flag loop has consumed every '-'
    }
  }

  method SkipDigits(fmt: string, i: nat) returns (p: nat)
    requires i <= |fmt|
    ensures p == DigitsEnd(fmt, i)
  {
    p := i;
    while IsDigit(At(fmt, p))
      invariant i <= p <= |fmt| && forall k | i <= k < p :: IsDigit(fmt[k])
      decreases |fmt| - p
    {
      p := p + 1;
    }
    DigitsEndStep(fmt, i, p);
  }

  method ParsePrecisionField(fmt: string, i: nat, spec: FormatSpec, w: VaList) returns (p: nat)
    requires i <= |fmt| && spec.precision == -1
    requires At(fmt, i) == '.' && At(fmt, i + 1) == '*' ==> IsInt(w.args, w.next)
    requires At(fmt, i) == '.' && IsDigit(At(fmt, i + 1)) ==> DecimalAt(fmt, i + 1) <= INT_MAX
    modifies spec`precision, spec`flags, w
    ensures
      var r := ParsePrecision(fmt, i, w.args, old(w.next));
      && p == r.at && w.next == r.arg && spec.precision == r.field.GetOr(-1)
      && spec.flags == old(spec.flags) - (if r.field.Some? then {Zero} else {})
  {
    p := i;
    if At(fmt, p) == '.' {
      spec.precision := 0;
      spec.flags := spec.flags - {Zero};
      p := p + 1;
      if At(fmt, p) == '*' {
        p := p + 1;
        spec.precision := w.NextInt(Int32);
      } else if At(fmt, p) == '-' {
        p := SkipDigits(fmt, p + 1);
        spec.precision := -1;
      } else if IsDigit(At(fmt, p)) {
        spec.precision, p := ParseNumber(fmt, p);
      }
    }
  }

  method ParseFlagsWidthPrecision(fmt: string, i: nat, spec: FormatSpec, w: VaList) returns (p: nat)
    requires i <= |fmt| && FieldsReadable(fmt, i, w.args, w.next)
    requires spec.View() == RESET
    modifies spec, w
    ensures
      var r := ParseFields(fmt, i, w.args, old(w.next));
      && p == r.at && w.next == r.arg && spec.total == old(spec.total)
      && spec.View() == RESET.(
           flags := r.flags - (if r.precision.Some? then {Zero} else {}),
           width := r.width.GetOr(-1), precision := r.precision.GetOr(-1))
  {
    p := ParseFlags(fmt, i, spec);
    p := ParseWidthField(fmt, p, spec, w);
    p := ParsePrecisionField(fmt, p, spec, w);
  }

  method ParseSizeSpecifier(fmt: string, i: nat, spec: FormatSpec) returns (p: nat)
    requires i <= |fmt| && spec.length == NoLength
    modifies spec`length
    ensures p == ParseLength(fmt, i).at && spec.length == ParseLength(fmt, i).field
  {
    p := i;
    match At(fmt, p) {
      case 'h' =>
        spec.length := H;
        if At(fmt, p + 1) == 'h' {
          spec.length := HH;
          p := p + 1;
        }
        p := p + 1;
      case 'l' =>
        spec.length := L;
        if At(fmt, p + 1) == 'l' {
          spec.length := LL;
          p := p + 1;
        }
        p := p + 1;
      case 'z' =>
        spec.length := Z;
        p := p + 1;
      case 't' =>
        spec.length := T;
        p := p + 1;
      case _ =>
    }
  }
}
