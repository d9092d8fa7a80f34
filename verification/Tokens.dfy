/** strtok_r and a full run of it (src/cstring.cpp:337-376). */
module Tokens {
  import opened Options
  import opened CStrings

  /** The variable that saveptr points to. */
  class SavePtr {
    var p: Option<nat>

    constructor ()
      ensures p == None
    {
      p := None;
    }
  }

  /** The offsets [start, end) of a token. */
  datatype Field = Field(start: nat, end: nat)

  /** The string from an offset inside it on. */
  lemma Later(m: seq<CChar>, p: nat, q: nat)
    requires Terminated(m, p) && p <= q <= p + Len(m, p)
    ensures Terminated(m, q) && q + Len(m, q) == p + Len(m, p)
  {
    LenIs(m, q, p + Len(m, p) - q);
  }

  /** The first field at or after p of a string, if there is one. */
  ghost function NextField(m: seq<CChar>, p: nat, delims: seq<CChar>): (f: Option<Field>)
    requires Terminated(m, p)
    ensures f.Some? ==> p <= f.value.start < f.value.end <= p + Len(m, p)
  {
    var start := Skip(m, p, delims, true);
    if m[start] == 0 then None
    else
      Later(m, p, start + 1);
      Some(Field(start, Skip(m, start + 1, delims, false)))
  }

  /** Where the next call goes on: after the NUL that replaces a delimiter, or at the end of the string. */
  function AfterField(m: seq<CChar>, f: Field): (q: nat)
    requires f.end < |m|
    ensures q >= f.end
  {
    if m[f.end] != 0 then f.end + 1 else f.end
  }

  /** The field becomes a string of its own. */
  function Cut(m: seq<CChar>, f: Field): (r: seq<CChar>)
    requires f.end < |m|
    ensures |r| == |m| && r[f.end] == 0 && forall k | 0 <= k < |m| && k != f.end :: r[k] == m[k]
  {
    m[f.end := 0]
  }

  lemma NextFieldIs(m: seq<CChar>, p: nat, delims: seq<CChar>)
    requires Terminated(m, p)
    ensures
      var start := Skip(m, p, delims, true);
      if m[start] == 0 then NextField(m, p, delims) == None
      else
        && Terminated(m, start + 1)
        && NextField(m, p, delims) == Some(Field(start, Skip(m, start + 1, delims, false)))
  {
    if m[Skip(m, p, delims, true)] != 0 {
      Later(m, p, Skip(m, p, delims, true) + 1);
    }
  }

  /** All fields from p on, in order. */
  ghost function FieldsFrom(m: seq<CChar>, p: nat, delims: seq<CChar>): seq<Field>
    requires Terminated(m, p)
    decreases |m| - p
  {
    var f := NextField(m, p, delims);
    if f.None? then []
    else
      Later(m, p, AfterField(m, f.value));
      [f.value] + FieldsFrom(m, AfterField(m, f.value), delims)
  }

  /** A maximal non-empty stretch without delimiters of the string at p. */
  ghost predicate IsField(m: seq<CChar>, p: nat, delims: seq<CChar>, f: Field)
    requires Terminated(m, p)
  {
    && p <= f.start < f.end <= p + Len(m, p)
    && (forall k | f.start <= k < f.end :: m[k] !in delims)
    && (f.start == p || m[f.start - 1] in delims)
    && (f.end == p + Len(m, p) || m[f.end] in delims)
  }

  /** A place at which a field of the string at p can start: its start, its end, or after a delimiter. */
  ghost predicate Boundary(m: seq<CChar>, p: nat, delims: seq<CChar>, q: nat)
    requires Terminated(m, p)
  {
    p <= q <= p + Len(m, p) && (q == p || q == p + Len(m, p) || m[q - 1] in delims)
  }

  /** Nothing from a boundary on is a field when no field is found there. */
  lemma NoField(m: seq<CChar>, p: nat, delims: seq<CChar>, q: nat, f: Field)
    requires Terminated(m, p) && Boundary(m, p, delims, q) && Terminated(m, q) && NextField(m, q, delims).None?
    ensures !(IsField(m, p, delims, f) && f.start >= q)
  {
    hide Skip, Str, Len, Terminated;
    Later(m, p, q);
    NextFieldIs(m, q, delims);
    assert p <= f.start < f.end <= p + Len(m, p) && f.start >= q ==> m[f.start] in delims;
  }

  /** The next field found from a boundary on is a field, and what follows it is a boundary. */
  lemma FoundField(m: seq<CChar>, p: nat, delims: seq<CChar>, q: nat)
    requires Terminated(m, p) && Boundary(m, p, delims, q) && Terminated(m, q) && NextField(m, q, delims).Some?
    ensures
      var g := NextField(m, q, delims).value;
      && IsField(m, p, delims, g) && g.start >= q && AfterField(m, g) > q
      && Boundary(m, p, delims, AfterField(m, g))
      && forall k | q <= k < g.start :: m[k] in delims
  {
    hide Skip, Str, Len, Terminated;
    Later(m, p, q);
    NextFieldIs(m, q, delims);
    Later(m, q, NextField(m, q, delims).value.start + 1);
  }

  /** Any other field from there on starts after that. */
  lemma FieldAfter(m: seq<CChar>, p: nat, delims: seq<CChar>, q: nat, f: Field)
    requires Terminated(m, p) && Boundary(m, p, delims, q) && Terminated(m, q) && NextField(m, q, delims).Some?
    requires IsField(m, p, delims, f) && f.start >= q && f != NextField(m, q, delims).value
    ensures f.start > NextField(m, q, delims).value.end
    ensures f.start >= AfterField(m, NextField(m, q, delims).value)
  {
    hide Skip, Str, Len, Terminated, NextField, Boundary;
    FoundField(m, p, delims, q);
    var g := NextField(m, q, delims).value;
    assert m[f.start] !in delims;
  }

  lemma BoundaryLater(m: seq<CChar>, p: nat, delims: seq<CChar>, q: nat)
    requires Terminated(m, p) && Boundary(m, p, delims, q)
    ensures Terminated(m, q)
  {
    Later(m, p, q);
  }

  /** Each field ends before the next one starts. */
  predicate Ascending(fs: seq<Field>) { forall i, j | 0 <= i < j < |fs| :: fs[i].end < fs[j].start }

  lemma AscendingCons(f: Field, rest: seq<Field>)
    requires Ascending(rest) && forall g | g in rest :: g.start > f.end
    ensures Ascending([f] + rest)
    ensures forall g :: g in [f] + rest <==> g == f || g in rest
  {
  }

  /** The fields found are exactly the maximal non-empty delimiter-free stretches from a boundary on, in order. */
  lemma {:induction false} FieldsExact(m: seq<CChar>, p: nat, delims: seq<CChar>, q: nat)
    requires Terminated(m, p) && Boundary(m, p, delims, q)
    ensures Terminated(m, q)
    ensures forall f :: f in FieldsFrom(m, q, delims) <==> IsField(m, p, delims, f) && f.start >= q
    ensures Ascending(FieldsFrom(m, q, delims))
    decreases |m| - q
  {
    hide Boundary, NextField, Terminated, AfterField;
    BoundaryLater(m, p, delims, q);
    var next := NextField(m, q, delims);
    if next.None? {
      forall f ensures !(IsField(m, p, delims, f) && f.start >= q) { NoField(m, p, delims, q, f); }
    } else {
      FoundField(m, p, delims, q);
      var after := AfterField(m, next.value);
      FieldsExact(m, p, delims, after);
      forall f | IsField(m, p, delims, f) && f.start >= q && f != next.value
        ensures f.start >= after && f.start > next.value.end
      {
        FieldAfter(m, p, delims, q, f);
      }
      AscendingCons(next.value, FieldsFrom(m, after, delims));
    }
  }

  /** The memory after every field has been cut off. */
  function Cuts(m: seq<CChar>, fs: seq<Field>): (r: seq<CChar>)
    requires forall f | f in fs :: f.end < |m|
    ensures |r| == |m|
    decreases |fs|
  {
    if fs == [] then m else Cuts(Cut(m, fs[0]), fs[1..])
  }

  predicate EndsAField(fs: seq<Field>, k: nat) { exists f | f in fs :: f.end == k }

  /** Only the cell after each field changes; it becomes NUL. */
  lemma {:induction false} CutsCells(m: seq<CChar>, fs: seq<Field>)
    requires forall f | f in fs :: f.end < |m|
    ensures forall k | 0 <= k < |m| :: Cuts(m, fs)[k] == if EndsAField(fs, k) then 0 else m[k]
    decreases |fs|
  {
    if fs != [] {
      CutsCells(Cut(m, fs[0]), fs[1..]);
      forall k | 0 <= k < |m| ensures EndsAField(fs, k) <==> fs[0].end == k || EndsAField(fs[1..], k) {
        if EndsAField(fs, k) {
          var f :| f in fs && f.end == k;
          assert f == fs[0] || f in fs[1..];
        }
      }
    }
  }

  lemma FieldsInside(m: seq<CChar>, p: nat, delims: seq<CChar>)
    requires Terminated(m, p)
    ensures forall f | f in FieldsFrom(m, p, delims) :: p <= f.start < f.end <= p + Len(m, p)
  {
    FieldsExact(m, p, delims, p);
  }

  lemma EndsHere(fs: seq<Field>, f: Field)
    requires f in fs
    ensures EndsAField(fs, f.end)
  {
  }

  lemma FieldsApart(fs: seq<Field>, f: Field, g: Field)
    requires Ascending(fs) && f in fs && g in fs && g.start < g.end
    ensures !(f.start <= g.end < f.end)
  {
    var i :| 0 <= i < |fs| && fs[i] == f;
    var j :| 0 <= j < |fs| && fs[j] == g;
  }

  lemma NoEndInside(fs: seq<Field>, f: Field, k: nat)
    requires Ascending(fs) && f in fs && f.start <= k < f.end && forall g | g in fs :: g.start < g.end
    ensures !EndsAField(fs, k)
  {
    hide Ascending;
    forall g | g in fs ensures g.end != k { FieldsApart(fs, f, g); }
  }

  lemma CutInside(m: seq<CChar>, fs: seq<Field>, f: Field)
    requires forall g | g in fs :: g.start < g.end < |m|
    requires Ascending(fs) && f in fs
    ensures forall k | f.start <= k < f.end :: Cuts(m, fs)[k] == m[k]
    ensures Cuts(m, fs)[f.end] == 0
  {
    hide Cuts, EndsAField, Ascending;
    CutsCells(m, fs);
    forall k | f.start <= k < f.end ensures !EndsAField(fs, k) {
      NoEndInside(fs, f, k);
    }
    EndsHere(fs, f);
  }

  lemma CutReads(m: seq<CChar>, fs: seq<Field>, f: Field)
    requires forall g | g in fs :: g.start < g.end < |m|
    requires Ascending(fs) && f in fs && forall k | f.start <= k < f.end :: m[k] != 0
    ensures Terminated(Cuts(m, fs), f.start) && Str(Cuts(m, fs), f.start) == m[f.start..f.end]
  {
    hide Terminated, Str, Len, Cuts, Ascending;
    CutInside(m, fs, f);
    StrIs(Cuts(m, fs), f.start, m[f.start..f.end]);
  }

  /** When all fields are cut off, each token is a string of its own: the field of the original string. */
  lemma TokenReads(m: seq<CChar>, p: nat, delims: seq<CChar>, f: Field)
    requires Terminated(m, p) && f in FieldsFrom(m, p, delims)
    ensures f.start < f.end < |m|
    ensures forall g | g in FieldsFrom(m, p, delims) :: g.end < |m|
    ensures
      var m' := Cuts(m, FieldsFrom(m, p, delims));
      Terminated(m', f.start) && Str(m', f.start) == m[f.start..f.end]
  {
    hide FieldsFrom, Terminated, Str, Len, Cuts, Ascending;
    FieldsExact(m, p, delims, p);
    CutReads(m, FieldsFrom(m, p, delims), f);
  }

  lemma AfterInside(m: seq<CChar>, p: nat, delims: seq<CChar>)
    requires Terminated(m, p) && NextField(m, p, delims).Some?
    ensures
      var after := AfterField(m, NextField(m, p, delims).value);
      p < after && Terminated(m, after) && after + Len(m, after) == p + Len(m, p)
  {
    Later(m, p, AfterField(m, NextField(m, p, delims).value));
  }

  lemma SkipKept(m: seq<CChar>, m': seq<CChar>, p: nat, q: nat, delims: seq<CChar>, accept: bool)
    requires Terminated(m, p) && Terminated(m', p) && |m'| == |m| && Len(m', p) == Len(m, p)
    requires forall k | p <= k <= p + Len(m, p) :: m'[k] == m[k]
    requires p <= q <= p + Len(m, p)
    ensures Terminated(m, q) && Terminated(m', q) && Skip(m', q, delims, accept) == Skip(m, q, delims, accept)
  {
    Later(m, p, q);
    Later(m', p, q);
    hide Terminated, Str, Len, Skip;
    SkipIs(m', q, delims, accept, Skip(m, q, delims, accept));
  }

  lemma NextKept(m: seq<CChar>, m': seq<CChar>, p: nat, delims: seq<CChar>)
    requires Terminated(m, p) && Terminated(m', p) && |m'| == |m| && Len(m', p) == Len(m, p)
    requires forall k | p <= k <= p + Len(m, p) :: m'[k] == m[k]
    ensures NextField(m', p, delims) == NextField(m, p, delims)
    ensures NextField(m, p, delims).Some? ==>
      AfterField(m', NextField(m, p, delims).value) == AfterField(m, NextField(m, p, delims).value)
  {
    hide Terminated, Str, Len, Skip, NextField;
    NextFieldIs(m, p, delims);
    NextFieldIs(m', p, delims);
    SkipKept(m, m', p, p, delims, true);
    var start := Skip(m, p, delims, true);
    if m[start] != 0 {
      SkipKept(m, m', p, start + 1, delims, false);
    }
  }

  /** Fields depend only on the string from p on. */
  lemma {:induction false} FieldsKept(m: seq<CChar>, m': seq<CChar>, p: nat, delims: seq<CChar>)
    requires Terminated(m, p) && |m'| == |m|
    requires forall k | p <= k <= p + Len(m, p) :: m'[k] == m[k]
    ensures Terminated(m', p) && Len(m', p) == Len(m, p) && FieldsFrom(m', p, delims) == FieldsFrom(m, p, delims)
    decreases |m| - p
  {
    hide Terminated, Str, Len, Skip, NextField, AfterField;
    StrKept(m, m', p);
    NextKept(m, m', p, delims);
    var f := NextField(m, p, delims);
    if f.Some? {
      AfterInside(m, p, delims);
      AfterInside(m', p, delims);
      FieldsKept(m, m', AfterField(m, f.value), delims);
    }
  }

  /** The string at which a call starts to look for a token. */
  function From(str: Option<nat>, save: Option<nat>): Option<nat> { if str.Some? then str else save }

  ghost function Saved(saveptr: SavePtr?): Option<nat>
    reads saveptr
  {
    if saveptr == null then None else saveptr.p
  }

  /** The reads of strtok_r (lines 358-365); they all come before its write. */
  method FindField(mem: array<CChar>, from: nat, delim: nat) returns (f: Option<Field>)
    requires Terminated(mem[..], from) && Terminated(mem[..], delim)
    ensures f == NextField(mem[..], from, Str(mem[..], delim))
  {
    hide Skip, Terminated, Str, Len, NextField;
    NextFieldIs(mem[..], from, Str(mem[..], delim));
    var skipped := StrSpn(mem, from, delim);
    var start := from + skipped;
    if mem[start] == 0 {
      return None;
    }
    var taken := StrCSpn(mem, start + 1, delim);
    return Some(Field(start, start + 1 + taken));
  }

  /** One call: the next field is cut off and returned, or nothing changes, not even *saveptr. */
  method StrTokR(mem: array<CChar>, str: Option<nat>, delim: nat, saveptr: SavePtr?) returns (res: Option<nat>)
    requires
      var from := From(str, Saved(saveptr));
      from.Some? ==> Terminated(mem[..], from.value) && Terminated(mem[..], delim)
    modifies mem, saveptr
    ensures
      var m, from := old(mem[..]), From(str, old(Saved(saveptr)));
      var f := if from.Some? then NextField(m, from.value, Str(m, delim)) else None;
      if f.Some? then
        && res == Some(f.value.start) && mem[..] == Cut(m, f.value)
        && (saveptr != null ==> saveptr.p == Some(AfterField(m, f.value)) && saveptr.p.value > from.value)
      else res == None && mem[..] == m && Saved(saveptr) == old(Saved(saveptr))
  {
    hide Skip, Terminated, Str, Len, NextField;
    var oldStr := if saveptr == null then None else saveptr.p;
    if str.None? {
      if oldStr.None? {
        return None;
      }
    } else {
      oldStr := str;
    }
    var f := FindField(mem, oldStr.value, delim);
    if f.None? {
      return None;
    }
    res := Some(f.value.start);
    var at := f.value.end;
    if mem[at] != 0 {
      mem[at] := 0;
      at := at + 1;
    }
    if saveptr != null {
      saveptr.p := Some(at);
    }
  }

  /** After n calls: `now` is the memory with the first n fields cut off, and q is where the next call looks. */
  ghost predicate Going(m: seq<CChar>, str: nat, delims: seq<CChar>, now: seq<CChar>, q: nat, n: nat)
    requires Terminated(m, str)
  {
    && str <= q <= str + Len(m, str) && |now| == |m| && Terminated(m, q)
    && (forall k | 0 <= k < |m| && !(str <= k < q) :: now[k] == m[k])
    && var fs, rest := FieldsFrom(m, str, delims), FieldsFrom(m, q, delims);
       && n <= |fs| && rest == fs[n..]
       && (forall f | f in fs :: f.end < |m|)
       && Cuts(now, rest) == Cuts(m, fs)
  }

  lemma GoingFirst(m: seq<CChar>, str: nat, delims: seq<CChar>)
    requires Terminated(m, str)
    ensures Going(m, str, delims, m, str, 0)
  {
    FieldsInside(m, str, delims);
  }

  /** What a call finds, and where it leads. */
  lemma GoingOn(m: seq<CChar>, str: nat, delims: seq<CChar>, now: seq<CChar>, q: nat, n: nat)
    requires Terminated(m, str) && Going(m, str, delims, now, q, n)
    ensures Terminated(now, q)
    ensures
      var f, fs := NextField(now, q, delims), FieldsFrom(m, str, delims);
      if f.None? then n == |fs| && now == Cuts(m, fs)
      else
        && n < |fs| && f.value == fs[n] && q < AfterField(now, f.value)
        && Going(m, str, delims, Cut(now, f.value), AfterField(now, f.value), n + 1)
  {
    hide Terminated, Str, Len, Skip, NextField;
    Later(m, str, q);
    StrKept(m, now, q);
    NextKept(m, now, q, delims);
    var f := NextField(m, q, delims);
    if f.Some? {
      AfterInside(m, q, delims);
    }
  }

  /** Two strings do not overlap. */
  ghost predicate Apart(m: seq<CChar>, p: nat, q: nat)
    requires Terminated(m, p) && Terminated(m, q)
  {
    p + Len(m, p) < q || q + Len(m, q) < p
  }

  lemma DelimsKept(m: seq<CChar>, str: nat, delims: seq<CChar>, now: seq<CChar>, q: nat, n: nat, delim: nat)
    requires Terminated(m, str) && Going(m, str, delims, now, q, n) && Terminated(m, delim)
    requires Apart(m, str, delim)
    ensures Terminated(now, delim) && Str(now, delim) == Str(m, delim)
  {
    StrKept(m, now, delim);
  }

  /**
   The full run: the string first, then null until null comes back. It returns the fields of the original string,
   in order; in the final memory each token is a string equal to its field, and only the cells after fields have
   changed. Every later call with null returns null, unless there was no field at all: then the first call leaves
   *saveptr as it was, and a later one goes on with that.
   */
  method Tokenize(mem: array<CChar>, str: nat, delim: nat, saveptr: SavePtr) returns (tokens: seq<nat>)
    requires Terminated(mem[..], str) && Terminated(mem[..], delim) && Apart(mem[..], str, delim)
    modifies mem, saveptr
    ensures
      var m := old(mem[..]);
      var fs := FieldsFrom(m, str, Str(m, delim));
      && |tokens| == |fs|
      && (forall i | 0 <= i < |fs| :: tokens[i] == fs[i].start)
      && (forall f | f in fs :: f.end < |m|)
      && mem[..] == Cuts(m, fs)
      && Terminated(mem[..], delim) && Str(mem[..], delim) == Str(m, delim)
      && (if fs == [] then saveptr.p == old(saveptr.p)
          else
            && saveptr.p.Some? && Terminated(mem[..], saveptr.p.value)
            && NextField(mem[..], saveptr.p.value, Str(m, delim)) == None)
  {
    hide Going, FieldsFrom, NextField, Terminated, Str, Len, Cut, Cuts, AfterField, Apart;
    ghost var m := mem[..];
    ghost var delims := Str(m, delim);
    ghost var fs := FieldsFrom(m, str, delims);
    FieldsInside(m, str, delims);
    GoingFirst(m, str, delims);
    GoingOn(m, str, delims, m, str, 0);
    ghost var q, n: nat := str, 0;
    tokens := [];
    var t := StrTokR(mem, Some(str), delim, saveptr);
    if t.Some? {
      q, n := saveptr.p.value, 1;
    }
    while t.Some?
      invariant Going(m, str, delims, mem[..], q, n)
      invariant n == |tokens| + (if t.Some? then 1 else 0) <= |fs|
      invariant forall i | 0 <= i < |tokens| :: tokens[i] == fs[i].start
      invariant t.Some? ==> t.value == fs[|tokens|].start
      invariant if n == 0 then saveptr.p == old(saveptr.p) else saveptr.p == Some(q)
      invariant t.None? ==> n == |fs|
      decreases |fs| - |tokens|
    {
      tokens := tokens + [t.value];
      GoingOn(m, str, delims, mem[..], q, n);
      DelimsKept(m, str, delims, mem[..], q, n, delim);
      t := StrTokR(mem, None, delim, saveptr);
      if t.Some? {
        q, n := saveptr.p.value, n + 1;
      }
    }
    GoingOn(m, str, delims, mem[..], q, n);
    DelimsKept(m, str, delims, mem[..], q, n, delim);
  }

  /**
   After a full run one more call with null returns null, except exactly when the run found no field and *saveptr
   held an older string that has one.
   */
  method RunAndOnceMore(mem: array<CChar>, str: nat, delim: nat, saveptr: SavePtr) returns (again: Option<nat>)
    requires Terminated(mem[..], str) && Terminated(mem[..], delim) && Apart(mem[..], str, delim)
    requires saveptr.p.Some? ==> Terminated(mem[..], saveptr.p.value)
    modifies mem, saveptr
    ensures
      var m, stale, delims := old(mem[..]), old(saveptr.p), Str(old(mem[..]), delim);
      again.Some? <==>
        FieldsFrom(m, str, delims) == [] && stale.Some? && NextField(m, stale.value, delims).Some?
  {
    hide FieldsFrom, NextField, Terminated, Str, Len, Apart;
    var tokens := Tokenize(mem, str, delim, saveptr);
    again := StrTokR(mem, None, delim, saveptr);
  }

  lemma NothingFound(m: seq<CChar>, p: nat, delims: seq<CChar>, q: nat)
    requires Terminated(m, p) && q == p + Len(m, p) && forall k | p <= k < q :: m[k] in delims
    ensures FieldsFrom(m, p, delims) == []
  {
    SkipIs(m, p, delims, true, q);
    NextFieldIs(m, p, delims);
  }

  lemma FoundAtOnce(m: seq<CChar>, p: nat, delims: seq<CChar>, end: nat)
    requires Terminated(m, p) && p < end == p + Len(m, p) && forall k | p <= k < end :: m[k] !in delims
    ensures NextField(m, p, delims) == Some(Field(p, end))
  {
    hide NextField, Skip, Terminated, Str;
    SkipIs(m, p, delims, true, p);
    NextFieldIs(m, p, delims);
    Later(m, p, p + 1);
    SkipIs(m, p + 1, delims, false, end);
  }

  /** The exception happens: ";" has no field, and the next call returns the "a" left from another string. */
  lemma StaleToken()
    ensures
      var m: seq<CChar> := [';' as int, 0, 'a' as int, 0, ';' as int, 0];
      && Terminated(m, 0) && Terminated(m, 2) && Terminated(m, 4) && Apart(m, 0, 4)
      && FieldsFrom(m, 0, Str(m, 4)) == [] && NextField(m, 2, Str(m, 4)) == Some(Field(2, 3))
  {
    hide FieldsFrom, NextField, Skip, Str, Len, Terminated;
    var m: seq<CChar> := [';' as int, 0, 'a' as int, 0, ';' as int, 0];
    LenIs(m, 0, 1);
    LenIs(m, 2, 1);
    LenIs(m, 4, 1);
    assert Str(m, 4)[0] == m[4];
    NothingFound(m, 0, Str(m, 4), 1);
    FoundAtOnce(m, 2, Str(m, 4), 3);
  }
}
