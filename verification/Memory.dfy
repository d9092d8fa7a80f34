/** Copies inside one memory (src/cstring.cpp:37-75). A pointer is an offset into the memory. */
module Memory {
  import opened Buffers

  /** The memory after copying n cells from s to d at once. */
  function Copied<T>(m: seq<T>, d: nat, s: nat, n: nat): seq<T>
    requires d + n <= |m| && s + n <= |m|
  {
    Overwrite(m, d, m[s..s + n])
  }

  /** For any offsets and length, the destination ends up with the old source cells and nothing else changes. */
  method MemMove<T>(mem: array<T>, dest: nat, src: nat, length: nat)
    requires dest + length <= mem.Length && src + length <= mem.Length
    modifies mem
    ensures mem[..] == Copied(old(mem[..]), dest, src, length)
  {
    var d, s, left := dest, src, length;
    if s >= d {
      while left > 0
        invariant 0 <= left <= length && d == dest + (length - left) && s == src + (length - left)
        invariant forall k | 0 <= k < mem.Length ::
          mem[k] == if dest <= k < d then old(mem[src + (k - dest)]) else old(mem[k])
      {
        mem[d] := mem[s];
        d, s, left := d + 1, s + 1, left - 1;
      }
    } else if s <= d {
      d := d + length;
      s := s + length;
      while left > 0
        invariant 0 <= left <= length && d == dest + left && s == src + left
        invariant forall k | 0 <= k < mem.Length ::
          mem[k] == if d <= k < dest + length then old(mem[src + (k - dest)]) else old(mem[k])
      {
        d, s, left := d - 1, s - 1, left - 1;
        mem[d] := mem[s];
      }
    }
  }

  /** The offset into the source of the cell that a forward copy moving up by `gap` delivers to offset k. */
  function ForwardSource(gap: int, k: nat): (r: nat)
    ensures r <= k && (gap > 0 ==> r < gap)
  {
    if gap <= 0 || k < gap then k else ForwardSource(gap, k - gap)
  }

  /** Cell k of the memory after copying n cells from s to d one at a time, lowest first. */
  function ForwardCell<T>(m: seq<T>, d: nat, s: nat, n: nat, k: nat): T
    requires d + n <= |m| && s + n <= |m| && k < |m|
  {
    if d <= k < d + n then m[s + ForwardSource(d - s, k - d)] else m[k]
  }

  function ForwardCopied<T>(m: seq<T>, d: nat, s: nat, n: nat): (r: seq<T>)
    requires d + n <= |m| && s + n <= |m|
    ensures |r| == |m|
    ensures forall k | 0 <= k < |m| :: r[k] == ForwardCell(m, d, s, n, k)
  {
    seq(|m|, k requires 0 <= k < |m| => ForwardCell(m, d, s, n, k))
  }

  /** What the forward copy reads at step i: a source cell, or one that the copy has already overwritten. */
  lemma ForwardNext<T>(m: seq<T>, d: nat, s: nat, n: nat, i: nat)
    requires d + n <= |m| && s + n <= |m| && i < n && d != s
    ensures ForwardCell(m, d, s, n, d + i) == if d <= s + i < d + i then ForwardCell(m, d, s, n, s + i) else m[s + i]
  {
  }

  lemma CopyOntoItself<T>(m: seq<T>, d: nat, n: nat)
    requires d + n <= |m|
    ensures ForwardCopied(m, d, d, n) == m
  {
  }

  lemma ForwardOutside<T>(m: seq<T>, d: nat, s: nat, n: nat)
    requires d + n <= |m| && s + n <= |m|
    ensures forall k | 0 <= k < |m| && !(d <= k < d + n) :: ForwardCell(m, d, s, n, k) == m[k]
  {
  }

  /** Every source cell inside the destination equals the source cell d - s below it. */
  ghost predicate Periodic<T>(m: seq<T>, d: nat, s: nat, n: nat)
    requires s < d && s + n <= |m|
  {
    forall j | d <= j < s + n :: m[j] == m[j - (d - s)]
  }

  lemma {:induction false} PeriodicSource<T>(m: seq<T>, d: nat, s: nat, n: nat, k: nat)
    requires s < d && s + n <= |m| && Periodic(m, d, s, n) && k < n
    ensures m[s + ForwardSource(d - s, k)] == m[s + k]
  {
    if k >= d - s {
      PeriodicSource(m, d, s, n, k - (d - s));
      assert m[s + k] == m[s + k - (d - s)];
    }
  }

  lemma PeriodicCopy<T>(m: seq<T>, d: nat, s: nat, n: nat)
    requires s < d && d + n <= |m| && Periodic(m, d, s, n)
    ensures ForwardCopied(m, d, s, n) == Copied(m, d, s, n)
  {
    var moved := Copied(m, d, s, n);
    forall k | 0 <= k < |m| ensures ForwardCell(m, d, s, n, k) == moved[k] {
      if d <= k < d + n {
        PeriodicSource(m, d, s, n, k - d);
      }
    }
  }

  lemma CopyPeriodic<T>(m: seq<T>, d: nat, s: nat, n: nat)
    requires s < d && d + n <= |m| && ForwardCopied(m, d, s, n) == Copied(m, d, s, n)
    ensures Periodic(m, d, s, n)
  {
    hide ForwardCell, ForwardSource;
    var moved := Copied(m, d, s, n);
    forall j | d <= j < s + n ensures m[j] == m[j - (d - s)] {
      ForwardNext(m, d, s, n, j - s);
      assert moved[d + (j - s)] == m[j];
      assert moved[j] == m[j - (d - s)];
    }
  }

  /** memcpy does what memmove does exactly when the destination is not above the source or the source repeats. */
  lemma ForwardExact<T>(m: seq<T>, d: nat, s: nat, n: nat)
    requires d + n <= |m| && s + n <= |m|
    ensures ForwardCopied(m, d, s, n) == Copied(m, d, s, n) <==> d <= s || Periodic(m, d, s, n)
    ensures s + n <= d ==> ForwardCopied(m, d, s, n) == Copied(m, d, s, n)
  {
    if d <= s {
      assert ForwardCopied(m, d, s, n) == Copied(m, d, s, n);
    } else if s + n <= d {
      assert Periodic(m, d, s, n);
      PeriodicCopy(m, d, s, n);
    } else if Periodic(m, d, s, n) {
      PeriodicCopy(m, d, s, n);
    } else if ForwardCopied(m, d, s, n) == Copied(m, d, s, n) {
      CopyPeriodic(m, d, s, n);
    }
  }

  /**
   The copy of memcpy, also on the overlapping regions that its callers must avoid: a destination above an
   overlapping source repeats the first dest - src source cells.
   */
  method MemCpy<T>(mem: array<T>, dest: nat, src: nat, length: nat)
    requires dest + length <= mem.Length && src + length <= mem.Length
    modifies mem
    ensures mem[..] == ForwardCopied(old(mem[..]), dest, src, length)
    ensures dest <= src || src + length <= dest ==> mem[..] == Copied(old(mem[..]), dest, src, length)
  {
    hide ForwardCell, Copied, Periodic;
    ghost var m := mem[..];
    ForwardExact(m, dest, src, length);
    if dest == src {
      CopyOntoItself(m, dest, length);
      return;
    }
    var d, s, left := dest, src, length;
    while left > 0
      invariant 0 <= left <= length && d == dest + (length - left) && s == src + (length - left)
      invariant forall k | 0 <= k < mem.Length ::
        mem[k] == if dest <= k < d then ForwardCell(m, dest, src, length, k) else m[k]
    {
      ForwardNext(m, dest, src, length, length - left);
      mem[d] := mem[s];
      d, s, left := d + 1, s + 1, left - 1;
    }
    ForwardOutside(m, dest, src, length);
  }
}
