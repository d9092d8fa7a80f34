/** Sequence and array helpers shared by the formatter and the string routines. */
module Buffers {

  function Min(a: int, b: int): int { if a < b then a else b }

  function Max(a: int, b: int): int { if a > b then a else b }

  /** n copies of v. */
  function Fill<T>(v: T, n: nat): seq<T> { seq(n, _ => v) }

  /** s with t stored from offset `at` on. */
  function Overwrite<T>(s: seq<T>, at: nat, t: seq<T>): (r: seq<T>)
    requires at + |t| <= |s|
    ensures |r| == |s|
    ensures forall k | 0 <= k < |s| :: r[k] == if at <= k < at + |t| then t[k - at] else s[k]
  {
    seq(|s|, k requires 0 <= k < |s| => if at <= k < at + |t| then t[k - at] else s[k])
  }

  lemma OverwriteTwice<T>(s: seq<T>, at: nat, t: seq<T>, u: seq<T>)
    requires at + |t| + |u| <= |s|
    ensures Overwrite(Overwrite(s, at, t), at + |t|, u) == Overwrite(s, at, t + u)
  {
  }

  lemma OverwriteNothing<T>(s: seq<T>, at: nat)
    requires at <= |s|
    ensures Overwrite(s, at, []) == s
  {
  }

  // memset, restricted to the offsets [d, d + n) of one array
  method MemSet<T>(mem: array<T>, d: nat, v: T, n: nat)
    requires d + n <= mem.Length
    modifies mem
    ensures mem[..] == Overwrite(old(mem[..]), d, Fill(v, n))
  {
    var p, left := d, n;
    while left > 0
      invariant 0 <= left <= n && p == d + n - left
      invariant forall k | 0 <= k < mem.Length :: mem[k] == if d <= k < p then v else old(mem[k])
    {
      mem[p] := v;
      p, left := p + 1, left - 1;
    }
  }

  // mempcpy from a constant text into [d, d + n); returns the offset after the copy
  method MemPCpy<T>(mem: array<T>, d: nat, value: seq<T>, n: nat) returns (e: nat)
    requires d + n <= mem.Length && n <= |value|
    modifies mem
    ensures e == d + n
    ensures mem[..] == Overwrite(old(mem[..]), d, value[..n])
  {
    e := d;
    var left := n;
    while left > 0
      invariant 0 <= left <= n && e == d + n - left
      invariant forall k | 0 <= k < mem.Length :: mem[k] == if d <= k < e then value[k - d] else old(mem[k])
    {
      mem[e] := value[e - d];
      e, left := e + 1, left - 1;
    }
  }
}
