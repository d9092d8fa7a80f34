/** strlcpy and strlcat (posix/posix_strings.cpp:31-71). */
module PosixStrings {
  import opened Buffers
  import opened Memory
  import opened CStrings

  /** The string at p and the cells [q, q + n) do not overlap. */
  ghost predicate Clear(m: seq<CChar>, p: nat, q: nat, n: nat)
    requires Terminated(m, p)
  {
    p + Len(m, p) < q || q + n <= p
  }

  /** The first characters of s that fit n cells together with a NUL. */
  function Fitting(s: seq<CChar>, n: nat): (r: seq<CChar>)
    requires n > 0
    ensures |r| < n && |r| <= |s|
  {
    s[..Min(|s|, n - 1)]
  }

  /** m with a string and its NUL stored at p. */
  function Stored(m: seq<CChar>, p: nat, s: seq<CChar>): (r: seq<CChar>)
    requires p + |s| < |m|
    ensures |r| == |m|
    ensures forall k | 0 <= k < |m| :: r[k] == if p <= k < p + |s| then s[k - p] else if k == p + |s| then 0 else m[k]
  {
    Overwrite(m, p, s + [0])
  }

  lemma StoredReads(m: seq<CChar>, p: nat, s: seq<CChar>)
    requires p + |s| < |m| && 0 !in s
    ensures Terminated(Stored(m, p, s), p) && Str(Stored(m, p, s), p) == s
  {
    StrIs(Stored(m, p, s), p, s);
  }

  method StrLCpy(mem: array<CChar>, dst: nat, src: nat, size: nat) returns (len: nat)
    requires dst + size <= mem.Length && Terminated(mem[..], src) && Clear(mem[..], src, dst, size)
    modifies mem
    ensures len == Len(old(mem[..]), src)
    ensures mem[..] == if size == 0 then old(mem[..])
                       else Stored(old(mem[..]), dst, Fitting(Str(old(mem[..]), src), size))
  {
    hide Terminated, Len;
    len := StrLen(mem, src);
    if len + 1 < size {
      MemCpy(mem, dst, src, len + 1);
    } else if size > 0 {
      MemCpy(mem, dst, src, size - 1);
      mem[dst + size - 1] := 0;
    }
  }

  /** What the loop of strlcat has written when it has read i characters of s. */
  ghost predicate Appended(m: seq<CChar>, now: seq<CChar>, at: nat, s: seq<CChar>, n: nat) {
    && |now| == |m| && n <= |s| && at + n <= |m|
    && forall k | 0 <= k < |m| :: now[k] == if at <= k < at + n then s[k - at] else m[k]
  }

  lemma AppendStep(m: seq<CChar>, now: seq<CChar>, at: nat, s: seq<CChar>, n: nat)
    requires Appended(m, now, at, s, n) && n < |s| && at + n < |m|
    ensures Appended(m, now[at + n := s[n]], at, s, n + 1)
  {
  }

  lemma AppendEnd(m: seq<CChar>, now: seq<CChar>, dst: nat, size: nat, s: seq<CChar>, n: nat)
    requires Readable(m, dst, size) && |StrN(m, dst, size)| < size && dst + size <= |m|
    requires Appended(m, now, dst + |StrN(m, dst, size)|, s, n)
    requires n == Min(|s|, size - |StrN(m, dst, size)| - 1)
    ensures
      var t := StrN(m, dst, size);
      now[dst + |t| + n := 0] == Stored(m, dst, Fitting(t + s, size))
  {
    hide StrN;
  }

  lemma AppendNothing(m: seq<CChar>, at: nat, s: seq<CChar>)
    requires at <= |m|
    ensures Appended(m, m, at, s, 0)
  {
  }

  /** The search for the end of dst (lines 53-54), which does not go past the given size. */
  method DstLen(mem: array<CChar>, dst: nat, dstsize: nat) returns (dstLen: nat)
    requires dst + dstsize <= mem.Length
    ensures dstLen == |StrN(mem[..], dst, dstsize)|
  {
    hide StrN;
    ghost var t := StrN(mem[..], dst, dstsize);
    var d, n := dst, dstsize;
    while n > 0 && mem[d] != 0
      invariant dst <= d && n == dstsize - (d - dst) && d - dst <= |t|
      decreases n
    {
      d, n := d + 1, n - 1;
    }
    StrNEnds(mem[..], dst, dstsize, d - dst);
    dstLen := d - dst;
  }

  method StrLCat(mem: array<CChar>, dst: nat, src: nat, dstsize: nat) returns (total: nat)
    requires dst + dstsize <= mem.Length && Terminated(mem[..], src) && Clear(mem[..], src, dst, dstsize)
    modifies mem
    ensures
      var m := old(mem[..]);
      var t, s := StrN(m, dst, dstsize), Str(m, src);
      && total == |t| + |s|
      && mem[..] == if |t| == dstsize then m else Stored(m, dst, Fitting(t + s, dstsize))
  {
    hide Terminated, Str, Len, StrN, Appended, Stored, Fitting;
    ghost var m, w := mem[..], Str(mem[..], src);
    var dstLen := DstLen(mem, dst, dstsize);
    var n := dstsize - dstLen;
    if n == 0 {
      var srcLen := StrLen(mem, src);
      return srcLen + dstLen;
    }
    var s, d := src, dst + dstLen;
    AppendNothing(m, d, w);
    while mem[s] != 0
      invariant src <= s <= src + |w|
      invariant d == dst + dstLen + Min(s - src, dstsize - dstLen - 1) && n == dstsize - (d - dst) >= 1
      invariant Appended(m, mem[..], dst + dstLen, w, d - dst - dstLen)
      invariant forall k | src <= k <= src + |w| :: mem[k] == m[k]
      decreases src + |w| - s
    {
      if n > 1 {
        AppendStep(m, mem[..], dst + dstLen, w, d - dst - dstLen);
        assert w[s - src] == mem[s];
        mem[d] := mem[s];
        d, n := d + 1, n - 1;
      }
      s := s + 1;
    }
    assert m[s] == 0;
    AppendEnd(m, mem[..], dst, dstsize, w, d - dst - dstLen);
    mem[d] := 0;
    total := dstLen + (s - src);
  }

  /** All the strings, one after the other. */
  ghost function Whole(m: seq<CChar>, srcs: seq<nat>): (s: seq<CChar>)
    requires forall p | p in srcs :: Terminated(m, p)
    ensures 0 !in s
  {
    if srcs == [] then [] else Whole(m, srcs[..|srcs| - 1]) + Str(m, srcs[|srcs| - 1])
  }

  /** Cutting a cut string that grows is cutting the string that has grown. */
  lemma FittingTwice(whole: seq<CChar>, w: seq<CChar>, n: nat)
    requires n > 0
    ensures Fitting(Fitting(whole, n) + w, n) == Fitting(whole + w, n)
    ensures |Fitting(whole, n)| <= |Fitting(whole + w, n)|
    ensures |whole| < n ==> Fitting(whole, n) == whole
  {
  }

  lemma StoredTwice(m: seq<CChar>, p: nat, s: seq<CChar>, t: seq<CChar>)
    requires |s| <= |t| && p + |t| < |m|
    ensures Stored(Stored(m, p, s), p, t) == Stored(m, p, t)
  {
    hide Stored;
  }

  lemma StoredElsewhere(m: seq<CChar>, dst: nat, n: nat, s: seq<CChar>, src: nat)
    requires |s| < n && dst + n <= |m| && Terminated(m, src) && Clear(m, src, dst, n)
    ensures
      var now := Stored(m, dst, s);
      Terminated(now, src) && Str(now, src) == Str(m, src) && Clear(now, src, dst, n)
  {
    hide Stored;
    StrKept(m, Stored(m, dst, s), src);
  }

  /** The bounded search finds a stored string. */
  lemma StoredBounded(m: seq<CChar>, dst: nat, n: nat, s: seq<CChar>)
    requires |s| < n && dst + n <= |m| && 0 !in s
    ensures StrN(Stored(m, dst, s), dst, n) == s
  {
    hide Stored, StrN;
    var now := Stored(m, dst, s);
    StoredReads(m, dst, s);
    StrNIs(now, dst, n);
  }

  predicate AllBelow(sizes: seq<nat>, n: nat) { forall i | 0 <= i < |sizes| :: sizes[i] < n }

  lemma OneMoreBelow(sizes: seq<nat>, size: nat, n: nat)
    ensures AllBelow(sizes + [size], n) <==> AllBelow(sizes, n) && size < n
  {
    if AllBelow(sizes + [size], n) {
      assert (sizes + [size])[|sizes|] == size;
      forall i | 0 <= i < |sizes| ensures sizes[i] < n { assert (sizes + [size])[i] == sizes[i]; }
    }
  }

  /** One strlcat on the text built so far. */
  lemma BuildStep(m: seq<CChar>, dst: nat, n: nat, whole: seq<CChar>, src: nat)
    requires n >= 1 && dst + n <= |m| && 0 !in whole && Terminated(m, src) && Clear(m, src, dst, n)
    ensures
      var now, w := Stored(m, dst, Fitting(whole, n)), Str(m, src);
      && Terminated(now, src) && Str(now, src) == w && Clear(now, src, dst, n)
      && StrN(now, dst, n) == Fitting(whole, n)
      && Stored(now, dst, Fitting(Fitting(whole, n) + w, n)) == Stored(m, dst, Fitting(whole + w, n))
      && (|whole| < n ==> |Fitting(whole, n)| + |w| == |whole + w|)
  {
    hide Stored, Terminated, Str, Len, StrN, Clear;
    StoredElsewhere(m, dst, n, Fitting(whole, n), src);
    StoredBounded(m, dst, n, Fitting(whole, n));
    FittingTwice(whole, Str(m, src), n);
    StoredTwice(m, dst, Fitting(whole, n), Fitting(whole + Str(m, src), n));
  }

  lemma WholeStep(m: seq<CChar>, srcs: seq<nat>, i: nat)
    requires i < |srcs| && forall p | p in srcs :: Terminated(m, p)
    ensures Whole(m, srcs[..i + 1]) == Whole(m, srcs[..i]) + Str(m, srcs[i])
  {
    assert srcs[..i + 1][..i] == srcs[..i];
  }

  lemma NoneBelow(n: nat)
    ensures AllBelow([], n)
  {
  }

  lemma FittingKeeps(s: seq<CChar>, n: nat)
    requires n > 0 && 0 !in s
    ensures 0 !in Fitting(s, n)
  {
  }

  lemma WholeFirst(m: seq<CChar>, srcs: seq<nat>)
    requires srcs != [] && forall p | p in srcs :: Terminated(m, p)
    ensures Whole(m, srcs[..1]) == Str(m, srcs[0])
  {
    WholeStep(m, srcs, 0);
    assert srcs[..0] == [];
  }

  /**
   strlcpy and then any number of strlcat calls with the same size leave the first n - 1 characters of the whole
   concatenation, and nothing else changes; the concatenation fits exactly when every call returns less than n.
   */
  method BuildString(mem: array<CChar>, dst: nat, n: nat, srcs: seq<nat>) returns (sizes: seq<nat>)
    requires n >= 1 && dst + n <= mem.Length && srcs != []
    requires forall p | p in srcs :: Terminated(mem[..], p) && Clear(mem[..], p, dst, n)
    modifies mem
    ensures
      var m := old(mem[..]);
      var whole := Whole(m, srcs);
      && mem[..] == Stored(m, dst, Fitting(whole, n))
      && Terminated(mem[..], dst) && Str(mem[..], dst) == Fitting(whole, n)
      && |sizes| == |srcs| && (AllBelow(sizes, n) <==> |whole| < n)
  {
    hide Stored, Terminated, Str, Len, StrN, Fitting, Clear, Whole, AllBelow;
    ghost var m := mem[..];
    WholeFirst(m, srcs);
    var size := StrLCpy(mem, dst, srcs[0], n);
    sizes := [];
    OneMoreBelow(sizes, size, n);
    NoneBelow(n);
    sizes := sizes + [size];
    ghost var whole := Whole(m, srcs[..1]);
    while |sizes| < |srcs|
      invariant 1 <= |sizes| <= |srcs|
      invariant whole == Whole(m, srcs[..|sizes|])
      invariant mem[..] == Stored(m, dst, Fitting(whole, n))
      invariant AllBelow(sizes, n) <==> |whole| < n
    {
      var src := srcs[|sizes|];
      BuildStep(m, dst, n, whole, src);
      WholeStep(m, srcs, |sizes|);
      size := StrLCat(mem, dst, src, n);
      OneMoreBelow(sizes, size, n);
      sizes := sizes + [size];
      whole := whole + Str(m, src);
    }
    assert srcs[..|sizes|] == srcs;
    FittingKeeps(whole, n);
    StoredReads(m, dst, Fitting(whole, n));
  }
}
