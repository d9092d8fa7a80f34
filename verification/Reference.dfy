/**
 The output that a format asks for, without any capacity, and how the capacity-bound run of the driver relates
 to it: when every width reached fits, the run is the reference cut to the capacity.
 */
module Reference {
  import opened Buffers
  import opened Directives
  import opened FormatSpecs
  import opened Numbers
  import opened Formatter
  import opened Driver

  function Justified(width: int, text: string, minus: bool): string {
    var blanks := Fill(' ', Padding(width, |text|));
    if minus then text + blanks else blanks + text
  }

  function Clip(text: string, left: nat): string { text[..Min(|text|, left)] }

  /** The width fits: no padding is needed, or the padding (with a minus flag, the whole field) fits. */
  predicate Roomy(width: int, len: nat, left: nat, minus: bool) {
    width <= len || (if minus then width <= left else width - len <= left)
  }

  /** put_with_field_width stays inside the capacity exactly when the width fits, and then it clips the field. */
  lemma PlacementExact(width: int, text: string, left: nat, minus: bool)
    ensures
      var put, field := Put(width, text, left, minus), Justified(width, text, minus);
      && put.total == |field|
      && (put.advance <= left <==> Roomy(width, |text|, left, minus))
      && (put.advance <= left ==> put.text == Clip(field, left) && put.advance == |put.text|)
  {
    var field := Justified(width, text, minus);
    var put := Put(width, text, left, minus);
    if Roomy(width, |text|, left, minus) {
      assert |put.text| == Min(|field|, left);
    }
  }

  /** The string argument of `%s`, cut to the precision. */
  function StringText(d: Directive, args: seq<Arg>): string {
    var s := if d.arg < |args| && args[d.arg].Text? then args[d.arg].s.GetOr(NULL_TEXT) else NULL_TEXT;
    var precision := d.precision.GetOr(-1);
    if precision >= 0 then s[..Min(|s|, precision)] else s
  }

  /** Width and text of the field that a directive prints. */
  function FieldOf(d: Directive, args: seq<Arg>): (int, string) {
    var c := d.conversion;
    if IsNumber(c) then
      var value := NumberValue(d, args);
      var s := NumberSpec(d, value);
      (ZeroRewrite(s).width, SignedText(s, Magnitude(value)))
    else if c == 'c' then (d.width.GetOr(-1), [CharOf(IntAt(args, d.arg))])
    else if c == 's' then (d.width.GetOr(-1), StringText(d, args))
    else (-1, [c])
  }

  /** What a directive prints when nothing is cut. */
  function FullText(d: Directive, args: seq<Arg>): string {
    Justified(FieldOf(d, args).0, FieldOf(d, args).1, Minus in d.flags)
  }

  /** The capacity that a directive needs: that of its width. A cut string is measured after the cut. */
  predicate Fits(d: Directive, args: seq<Arg>, left: nat) {
    var (width, text) := FieldOf(d, args);
    if d.conversion == 's' && |text| > left then width <= left
    else Roomy(width, |text|, left, Minus in d.flags)
  }

  /** The text of a string is cut to the capacity before it is counted; everything else is counted in full. */
  predicate CountedCut(d: Directive, args: seq<Arg>, left: nat) {
    d.conversion == 's' && |FieldOf(d, args).1| > left
  }

  /** A directive's clipped output and what it adds to the return value. */
  function Expected(d: Directive, args: seq<Arg>, left: nat): Emission {
    var full := FullText(d, args);
    Emission(Clip(full, left), |Clip(full, left)|, if CountedCut(d, args, left) then left else |full|)
  }

  lemma MinusKept(d: Directive, args: seq<Arg>)
    ensures Minus in Prepared(d).flags <==> Minus in d.flags
    ensures IsNumber(d.conversion) ==>
      (Minus in NumberSpec(d, NumberValue(d, args)).flags <==> Minus in d.flags)
  {
  }

  /** A string that is cut to the capacity fits exactly when its width does. */
  lemma CutStringExact(width: int, text: string, left: nat, minus: bool)
    requires |text| > left >= 1
    ensures
      Put(width, text[..left], left, minus) == Emission(Clip(Justified(width, text, minus), left), left, left)
      <==> width <= left
  {
    hide Put;
    PlacementExact(width, text[..left], left, minus);
    if width <= left {
      assert Justified(width, text, minus) == text;
      assert Justified(width, text[..left], minus) == text[..left];
    } else {
      assert |Justified(width, text[..left], minus)| == width;
    }
  }

  lemma JustifiedLength(width: int, text: string, minus: bool)
    ensures |Justified(width, text, minus)| == Max(width, |text|)
  {
  }

  lemma StringExact(d: Directive, args: seq<Arg>, left: nat)
    requires d.conversion == 's' && d.arg < |args| && args[d.arg].Text? && left >= 1
    ensures Emit(d, args, left) == Expected(d, args, left) <==> Fits(d, args, left)
  {
    hide Put, Justified, Roomy;
    MinusKept(d, args);
    var text, width, minus := StringText(d, args), d.width.GetOr(-1), Minus in d.flags;
    assert StringPart(args[d.arg].s, d.precision.GetOr(-1), left) == text[..Min(|text|, left)];
    if |text| <= left {
      PlacementExact(width, text, left, minus);
      assert text[..Min(|text|, left)] == text;
    } else {
      CutStringExact(width, text, left, minus);
      assert |Justified(width, text, minus)| >= |text| by { JustifiedLength(width, text, minus); }
    }
  }

  /** A directive prints its clipped text and counts it as expected exactly when its width fits. */
  lemma EmitExact(d: Directive, args: seq<Arg>, left: nat)
    requires left >= 1 && (d.conversion == 's' ==> d.arg < |args| && args[d.arg].Text?)
    ensures Emit(d, args, left) == Expected(d, args, left) <==> Fits(d, args, left)
  {
    if d.conversion == 's' {
      StringExact(d, args, left);
    } else {
      MinusKept(d, args);
      PlacementExact(FieldOf(d, args).0, FieldOf(d, args).1, left, Minus in d.flags);
    }
  }

  /** The whole output of a format, whatever the capacity. */
  function Render(fmt: string, i: nat, args: seq<Arg>, k: nat): string
    requires i <= |fmt|
    decreases |fmt| - i
  {
    if i == |fmt| then ""
    else if fmt[i] != '%' then [fmt[i]] + Render(fmt, i + 1, args, k)
    else if !Legal(fmt, i + 1, args, k) then ""
    else
      var d := ParseDirective(fmt, i + 1, args, k);
      FullText(d, args) + Render(fmt, d.next, args, ArgAfter(d))
  }

  /** Every directive is legal and fits the capacity left when it is reached. */
  predicate Supported(fmt: string, i: nat, args: seq<Arg>, k: nat, left: nat)
    requires i <= |fmt|
    decreases |fmt| - i
  {
    i == |fmt| || left == 0 ||
    if fmt[i] != '%' then Supported(fmt, i + 1, args, k, left - 1)
    else
      && Legal(fmt, i + 1, args, k)
      && var d := ParseDirective(fmt, i + 1, args, k);
         Fits(d, args, left) && Supported(fmt, d.next, args, ArgAfter(d), left - |Clip(FullText(d, args), left)|)
  }

  /** The characters that the return value counts although the capacity cuts them off. */
  function Overcount(fmt: string, i: nat, args: seq<Arg>, k: nat, left: nat): nat
    requires i <= |fmt|
    decreases |fmt| - i
  {
    if i == |fmt| || left == 0 then 0
    else if fmt[i] != '%' then Overcount(fmt, i + 1, args, k, left - 1)
    else if !Legal(fmt, i + 1, args, k) then 0
    else
      var d := ParseDirective(fmt, i + 1, args, k);
      var full := FullText(d, args);
      if |full| <= left then Overcount(fmt, d.next, args, ArgAfter(d), left - |full|)
      else if CountedCut(d, args, left) then 0
      else |full| - left
  }

  /** The run is the reference cut to the capacity; its return value is the number of characters stored and cut. */
  ghost predicate RunIsReference(run: Emission, whole: string, over: nat, left: nat) {
    && run.text == Clip(whole, left)
    && run.advance == |run.text|
    && run.total == |run.text| + over
    && (|whole| <= left ==> over == 0)
  }

  lemma DirectiveRenders(d: Directive, args: seq<Arg>, left: nat)
    requires left >= 1 && Fits(d, args, left) && (d.conversion == 's' ==> d.arg < |args| && args[d.arg].Text?)
    ensures
      var full := FullText(d, args);
      && Emit(d, args, left).text == Clip(full, left) && Emit(d, args, left).advance == |Clip(full, left)|
      && Emit(d, args, left).total == (if CountedCut(d, args, left) then left else |full|)
      && (CountedCut(d, args, left) ==> |full| > left)
  {
    EmitExact(d, args, left);
  }

  lemma LegalText(fmt: string, i: nat, args: seq<Arg>, k: nat)
    requires i <= |fmt| && Legal(fmt, i, args, k)
    ensures
      var d := ParseDirective(fmt, i, args, k);
      d.conversion == 's' ==> d.arg < |args| && args[d.arg].Text?
  {
  }

  lemma ClipConcat(a: string, b: string, left: nat)
    ensures Clip(a + b, left) == Clip(a, left) + Clip(b, left - |Clip(a, left)|)
  {
  }

  /** A directive in front of a run that is its reference. */
  lemma RunAfterDirective(fmt: string, i: nat, args: seq<Arg>, k: nat, left: nat, d: Directive)
    requires i < |fmt| && fmt[i] == '%' && left >= 1 && Legal(fmt, i + 1, args, k)
    requires d == ParseDirective(fmt, i + 1, args, k) && d.next <= |fmt| && Fits(d, args, left)
    requires
      var left' := left - |Clip(FullText(d, args), left)|;
      RunIsReference(Run(fmt, d.next, args, ArgAfter(d), left'), Render(fmt, d.next, args, ArgAfter(d)),
                     Overcount(fmt, d.next, args, ArgAfter(d), left'), left')
    ensures RunIsReference(Run(fmt, i, args, k, left), Render(fmt, i, args, k), Overcount(fmt, i, args, k, left), left)
  {
    hide Legal, Emit, ParseDirective, FullText, Fits, CountedCut;
    LegalText(fmt, i + 1, args, k);
    DirectiveRenders(d, args, left);
    ClipConcat(FullText(d, args), Render(fmt, d.next, args, ArgAfter(d)), left);
  }

  lemma {:induction false} RunRenders(fmt: string, i: nat, args: seq<Arg>, k: nat, left: nat)
    requires i <= |fmt| && Supported(fmt, i, args, k, left)
    ensures AllLegal(fmt, i, args, k, left)
    ensures RunIsReference(Run(fmt, i, args, k, left), Render(fmt, i, args, k), Overcount(fmt, i, args, k, left), left)
    decreases |fmt| - i
  {
    hide Legal, Emit, ParseDirective, FullText, Fits, CountedCut;
    if i == |fmt| || left == 0 {
    } else if fmt[i] != '%' {
      RunRenders(fmt, i + 1, args, k, left - 1);
    } else {
      LegalEnds(fmt, i + 1, args, k);
      LegalText(fmt, i + 1, args, k);
      var d := ParseDirective(fmt, i + 1, args, k);
      DirectiveRenders(d, args, left);
      hide Run, Render, Overcount, RunIsReference, Clip;
      RunRenders(fmt, d.next, args, ArgAfter(d), left - |Clip(FullText(d, args), left)|);
      RunAfterDirective(fmt, i, args, k, left, d);
    }
  }

  lemma MisfitShows(d: Directive, args: seq<Arg>, left: nat)
    requires left >= 1 && !Fits(d, args, left) && (d.conversion == 's' ==> d.arg < |args| && args[d.arg].Text?)
    ensures Emit(d, args, left).advance > left
         || (Emit(d, args, left).total > left && CountedCut(d, args, left) && |FullText(d, args)| > left)
  {
    MinusKept(d, args);
    var (width, text) := FieldOf(d, args);
    var minus := Minus in d.flags;
    if d.conversion == 's' {
      assert StringPart(args[d.arg].s, d.precision.GetOr(-1), left) == text[..Min(|text|, left)];
      PlacementExact(width, text[..Min(|text|, left)], left, minus);
      if |text| <= left { assert text[..Min(|text|, left)] == text; }
    } else {
      PlacementExact(width, text, left, minus);
    }
  }

  lemma Cancel(a: string, b: string, c: string)
    requires a + b == a + c
    ensures b == c
  {
    assert b == (a + b)[|a|..];
  }

  /** The run of a legal format is the clipped reference exactly when every width reached fits. */
  lemma {:induction false} RunExact(fmt: string, i: nat, args: seq<Arg>, k: nat, left: nat)
    requires i <= |fmt| && AllLegal(fmt, i, args, k, left)
    ensures RunIsReference(Run(fmt, i, args, k, left), Render(fmt, i, args, k), Overcount(fmt, i, args, k, left), left)
       <==> Supported(fmt, i, args, k, left)
    decreases |fmt| - i
  {
    hide Legal, Emit, ParseDirective, FullText, Fits, CountedCut;
    if Supported(fmt, i, args, k, left) {
      RunRenders(fmt, i, args, k, left);
    } else if fmt[i] != '%' {
      RunExact(fmt, i + 1, args, k, left - 1);
      if RunIsReference(Run(fmt, i, args, k, left), Render(fmt, i, args, k), Overcount(fmt, i, args, k, left), left) {
        var r, whole := Run(fmt, i + 1, args, k, left - 1), Render(fmt, i + 1, args, k);
        ClipConcat([fmt[i]], whole, left);
        assert Clip([fmt[i]], left) == [fmt[i]];
        Cancel([fmt[i]], r.text, Clip(whole, left - 1));
        assert false;
      }
    } else {
      LegalEnds(fmt, i + 1, args, k);
      LegalText(fmt, i + 1, args, k);
      var d := ParseDirective(fmt, i + 1, args, k);
      if !Fits(d, args, left) {
        MisfitShows(d, args, left);
      } else {
        DirectiveRenders(d, args, left);
        LaterMisfitShows(fmt, i, args, k, left, d);
      }
    }
  }

  lemma LaterMisfitShows(fmt: string, i: nat, args: seq<Arg>, k: nat, left: nat, d: Directive)
    requires i < |fmt| && fmt[i] == '%' && left >= 1 && AllLegal(fmt, i, args, k, left)
    requires d == ParseDirective(fmt, i + 1, args, k) && d.next <= |fmt| && Fits(d, args, left)
    requires Emit(d, args, left).text == Clip(FullText(d, args), left)
    requires Emit(d, args, left).advance == |Clip(FullText(d, args), left)|
    requires Emit(d, args, left).total == (if CountedCut(d, args, left) then left else |FullText(d, args)|)
    requires CountedCut(d, args, left) ==> |FullText(d, args)| > left
    requires !Supported(fmt, i, args, k, left)
    ensures
      !RunIsReference(Run(fmt, i, args, k, left), Render(fmt, i, args, k), Overcount(fmt, i, args, k, left), left)
    decreases |fmt| - i, 0
  {
    hide Legal, Emit, ParseDirective, FullText, Fits, CountedCut;
    var full := FullText(d, args);
    assert |full| < left;
    assert Clip(full, left) == full;
    RunExact(fmt, d.next, args, ArgAfter(d), left - |full|);
    if RunIsReference(Run(fmt, i, args, k, left), Render(fmt, i, args, k), Overcount(fmt, i, args, k, left), left) {
      var r, whole := Run(fmt, d.next, args, ArgAfter(d), left - |full|), Render(fmt, d.next, args, ArgAfter(d));
      ClipConcat(full, whole, left);
      Cancel(full, r.text, Clip(whole, left - |full|));
      assert false;
    }
  }

  // The position

  function PlacedText(d: Directive, args: seq<Arg>, left: nat): string {
    var text := FieldOf(d, args).1;
    if d.conversion == 's' then Clip(text, left) else text
  }

  /** The width fits the text that is placed; a string is cut to the capacity first. */
  predicate Placed(d: Directive, args: seq<Arg>, left: nat) {
    Roomy(FieldOf(d, args).0, |PlacedText(d, args, left)|, left, Minus in d.flags)
  }

  /** How far a placed directive moves the position. */
  function Used(d: Directive, args: seq<Arg>, left: nat): (n: nat)
    ensures n <= left
  {
    |Clip(Justified(FieldOf(d, args).0, PlacedText(d, args, left), Minus in d.flags), left)|
  }

  lemma RoomyAnyway(left: nat, minus: bool)
    ensures Roomy(-1, 1, left, minus)
  {
  }

  lemma PlacedExact(d: Directive, args: seq<Arg>, left: nat)
    requires left >= 1 && (d.conversion == 's' ==> d.arg < |args| && args[d.arg].Text?)
    ensures Emit(d, args, left).advance <= left <==> Placed(d, args, left)
    ensures Placed(d, args, left) ==> Emit(d, args, left).advance == Used(d, args, left)
  {
    hide Put, Justified, Roomy;
    MinusKept(d, args);
    PlacementExact(FieldOf(d, args).0, PlacedText(d, args, left), left, Minus in d.flags);
    if d.conversion == 's' {
      assert StringPart(args[d.arg].s, d.precision.GetOr(-1), left) == PlacedText(d, args, left);
    } else if !IsNumber(d.conversion) && d.conversion != 'c' {
      assert Roomy(-1, 1, left, Minus in d.flags) by { RoomyAnyway(left, Minus in d.flags); }
      JustifiedLength(-1, [d.conversion], Minus in d.flags);
    }
  }

  /** Every directive reached is placed inside the capacity left. */
  predicate StaysWithin(fmt: string, i: nat, args: seq<Arg>, k: nat, left: nat)
    requires i <= |fmt|
    decreases |fmt| - i
  {
    i == |fmt| || left == 0 ||
    if fmt[i] != '%' then StaysWithin(fmt, i + 1, args, k, left - 1)
    else
      && Legal(fmt, i + 1, args, k)
      && var d := ParseDirective(fmt, i + 1, args, k);
         Placed(d, args, left) && StaysWithin(fmt, d.next, args, ArgAfter(d), left - Used(d, args, left))
  }

  /** The output position of a legal format stays within the capacity exactly when every placed width fits. */
  lemma {:induction false} RunStaysWithin(fmt: string, i: nat, args: seq<Arg>, k: nat, left: nat)
    requires i <= |fmt| && AllLegal(fmt, i, args, k, left)
    ensures Run(fmt, i, args, k, left).advance <= left <==> StaysWithin(fmt, i, args, k, left)
    decreases |fmt| - i
  {
    hide Legal, Emit, ParseDirective, Placed, Used;
    if i == |fmt| || left == 0 {
    } else if fmt[i] != '%' {
      RunStaysWithin(fmt, i + 1, args, k, left - 1);
    } else {
      LegalEnds(fmt, i + 1, args, k);
      LegalText(fmt, i + 1, args, k);
      var d := ParseDirective(fmt, i + 1, args, k);
      PlacedExact(d, args, left);
      if Placed(d, args, left) {
        RunStaysWithin(fmt, d.next, args, ArgAfter(d), left - Used(d, args, left));
      }
    }
  }

  // The return value

  /** All directives are legal, also those that the loop does not reach, so the reference is the whole output. */
  predicate EveryLegal(fmt: string, i: nat, args: seq<Arg>, k: nat)
    requires i <= |fmt|
    decreases |fmt| - i
  {
    i == |fmt| ||
    if fmt[i] != '%' then EveryLegal(fmt, i + 1, args, k)
    else
      && Legal(fmt, i + 1, args, k)
      && var d := ParseDirective(fmt, i + 1, args, k);
         EveryLegal(fmt, d.next, args, ArgAfter(d))
  }

  /** From here on the format consists of directives that print nothing. */
  predicate PrintsNothing(fmt: string, i: nat, args: seq<Arg>, k: nat)
    requires i <= |fmt|
    decreases |fmt| - i
  {
    i == |fmt| ||
    (fmt[i] == '%' && Legal(fmt, i + 1, args, k) &&
     var d := ParseDirective(fmt, i + 1, args, k);
     FullText(d, args) == "" && PrintsNothing(fmt, d.next, args, ArgAfter(d)))
  }

  /** The string is cut before it is counted, and its width does not make up for that. */
  predicate CutShort(d: Directive, args: seq<Arg>, left: nat) {
    d.conversion == 's' && |FieldOf(d, args).1| > left && FieldOf(d, args).0 < |FieldOf(d, args).1|
  }

  /**
   Nothing is cut off, or the cut falls in a directive that is counted in full, and then nothing more is printed.
   */
  predicate CountsAll(fmt: string, i: nat, args: seq<Arg>, k: nat, left: nat)
    requires i <= |fmt|
    decreases |fmt| - i
  {
    if i == |fmt| || left == 0 then PrintsNothing(fmt, i, args, k)
    else if fmt[i] != '%' then CountsAll(fmt, i + 1, args, k, left - 1)
    else
      && Legal(fmt, i + 1, args, k)
      && var d := ParseDirective(fmt, i + 1, args, k);
         var full := FullText(d, args);
         if |full| <= left then CountsAll(fmt, d.next, args, ArgAfter(d), left - |full|)
         else !CutShort(d, args, left) && PrintsNothing(fmt, d.next, args, ArgAfter(d))
  }

  lemma {:induction false} NothingPrinted(fmt: string, i: nat, args: seq<Arg>, k: nat)
    requires i <= |fmt| && EveryLegal(fmt, i, args, k)
    ensures PrintsNothing(fmt, i, args, k) <==> Render(fmt, i, args, k) == ""
    decreases |fmt| - i
  {
    hide Legal, ParseDirective, FullText;
    if i < |fmt| && fmt[i] == '%' {
      LegalEnds(fmt, i + 1, args, k);
      var d := ParseDirective(fmt, i + 1, args, k);
      NothingPrinted(fmt, d.next, args, ArgAfter(d));
    }
  }

  lemma RoomyWhenShort(width: int, len: nat, left: nat, minus: bool)
    ensures width <= left ==> Roomy(width, len, left, minus)
  {
  }

  /** What a directive counts: all of its text if that fits or is not cut short, and never more. */
  lemma EmitTotal(d: Directive, args: seq<Arg>, left: nat)
    requires left >= 1 && (d.conversion == 's' ==> d.arg < |args| && args[d.arg].Text?)
    ensures
      var full, e := FullText(d, args), Emit(d, args, left);
      if |full| <= left then e.advance == |full| && e.total == |full|
      else e.advance >= left && e.total <= |full| && (e.total == |full| <==> !CutShort(d, args, left))
  {
    hide Put, Justified, Roomy;
    MinusKept(d, args);
    var width, text, minus := FieldOf(d, args).0, FieldOf(d, args).1, Minus in d.flags;
    var placed := PlacedText(d, args, left);
    PlacementExact(width, placed, left, minus);
    JustifiedLength(width, text, minus);
    JustifiedLength(width, placed, minus);
    RoomyWhenShort(width, |placed|, left, minus);
    if d.conversion == 's' {
      assert StringPart(args[d.arg].s, d.precision.GetOr(-1), left) == placed;
      if |text| <= left { assert placed == text; }
    }
  }

  ghost predicate TotalIsExact(total: int, whole: string, all: bool) { total <= |whole| && (total == |whole| <==> all) }

  /** A directive in front of a format whose return value is described. */
  lemma TotalAfterDirective(fmt: string, i: nat, args: seq<Arg>, k: nat, left: nat, d: Directive)
    requires i < |fmt| && fmt[i] == '%' && left >= 1 && Legal(fmt, i + 1, args, k)
    requires d == ParseDirective(fmt, i + 1, args, k) && d.next <= |fmt|
    requires EveryLegal(fmt, d.next, args, ArgAfter(d))
    requires |FullText(d, args)| <= left ==>
      var left' := left - |FullText(d, args)|;
      TotalIsExact(Run(fmt, d.next, args, ArgAfter(d), left').total, Render(fmt, d.next, args, ArgAfter(d)),
                   CountsAll(fmt, d.next, args, ArgAfter(d), left'))
    ensures TotalIsExact(Run(fmt, i, args, k, left).total, Render(fmt, i, args, k), CountsAll(fmt, i, args, k, left))
  {
    hide Legal, ParseDirective, FullText, CutShort, Emit, EveryLegal, PrintsNothing;
    LegalText(fmt, i + 1, args, k);
    EmitTotal(d, args, left);
    NothingPrinted(fmt, d.next, args, ArgAfter(d));
    var after := left - Emit(d, args, left).advance;
    assert after <= 0 ==> Run(fmt, d.next, args, ArgAfter(d), after).total == 0;
  }

  /**
   For every format whose directives are legal, whether their widths fit or not, the return value is at most the
   length of the whole output, and it is that length exactly when all of it is counted.
   */
  lemma {:induction false} TotalExact(fmt: string, i: nat, args: seq<Arg>, k: nat, left: nat)
    requires i <= |fmt| && EveryLegal(fmt, i, args, k)
    ensures TotalIsExact(Run(fmt, i, args, k, left).total, Render(fmt, i, args, k), CountsAll(fmt, i, args, k, left))
    decreases |fmt| - i
  {
    hide Legal, ParseDirective, FullText, CutShort, Emit;
    if i == |fmt| || left == 0 {
      NothingPrinted(fmt, i, args, k);
    } else if fmt[i] != '%' {
      TotalExact(fmt, i + 1, args, k, left - 1);
    } else {
      LegalEnds(fmt, i + 1, args, k);
      var d := ParseDirective(fmt, i + 1, args, k);
      hide Run, Render, CountsAll, TotalIsExact;
      if |FullText(d, args)| <= left {
        TotalExact(fmt, d.next, args, ArgAfter(d), left - |FullText(d, args)|);
      }
      TotalAfterDirective(fmt, i, args, k, left, d);
    }
  }

  /**
   snprintf (lines 598-606), for every format whose reached directives are legal and every buffer that holds what
   the code stores. If every width reached fits, the buffer holds the first maxSize - 1 characters of the reference
   and a NUL, nothing else changes, and the result is the number of characters stored, plus those cut from a
   directive that is counted in full. Whether widths fit or not, the result is at most the length of the whole
   output, and is that length exactly when all of it is counted. With maxSize 0 or at least INT_MAX the result is 0
   whatever the output.
   */
  method SNPrintf(buf: array<char>, maxSize: nat, fmt: string, args: seq<Arg>) returns (total: int)
    requires 0 < maxSize < INT_MAX ==>
      AllLegal(fmt, 0, args, 0, maxSize - 1) && Run(fmt, 0, args, 0, maxSize - 1).advance < buf.Length
    modifies buf
    ensures 0 < maxSize < INT_MAX && Supported(fmt, 0, args, 0, maxSize - 1) ==>
      var out := Clip(Render(fmt, 0, args, 0), maxSize - 1);
      && |out| < buf.Length && buf[..|out|] == out && buf[|out|] == '\0'
      && (forall j | |out| < j < buf.Length :: buf[j] == old(buf[j]))
      && total == |out| + Overcount(fmt, 0, args, 0, maxSize - 1)
      && (|Render(fmt, 0, args, 0)| < maxSize ==> total == |Render(fmt, 0, args, 0)|)
    ensures 0 < maxSize < INT_MAX && EveryLegal(fmt, 0, args, 0) ==>
      && total <= |Render(fmt, 0, args, 0)|
      && (total == |Render(fmt, 0, args, 0)| <==> CountsAll(fmt, 0, args, 0, maxSize - 1))
    ensures !(0 < maxSize < INT_MAX) ==> total == 0 && buf[..] == old(buf[..])
  {
    hide Run, Render, Supported, AllLegal, Overcount, EveryLegal, CountsAll;
    if 0 < maxSize < INT_MAX {
      if Supported(fmt, 0, args, 0, maxSize - 1) {
        RunRenders(fmt, 0, args, 0, maxSize - 1);
      }
      if EveryLegal(fmt, 0, args, 0) {
        TotalExact(fmt, 0, args, 0, maxSize - 1);
      }
    }
    var ap := new VaList(args);
    total := VSNPrintf(buf, maxSize, fmt, ap);
  }
}
