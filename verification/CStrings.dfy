/**
 NUL-terminated strings inside one memory (src/cstring.cpp:163-335). A pointer is an offset into the memory, and
 plain char is signed.
 */
module CStrings {
  import opened Options
  import opened Buffers

  type CChar = c: int | -128 <= c < 128

  /** A string ends at or after p. */
  ghost predicate Terminated(m: seq<CChar>, p: nat) { exists e :: p <= e < |m| && m[e] == 0 }

  ghost function Len(m: seq<CChar>, p: nat): (n: nat)
    requires Terminated(m, p)
    ensures p + n < |m| && m[p + n] == 0
    ensures forall k | p <= k < p + n :: m[k] != 0
    decreases |m| - p
  {
    if m[p] == 0 then 0 else 1 + Len(m, p + 1)
  }

  /** The string at p, without its NUL. */
  ghost function Str(m: seq<CChar>, p: nat): (s: seq<CChar>)
    requires Terminated(m, p)
    ensures |s| == Len(m, p) && forall k | 0 <= k < |s| :: s[k] == m[p + k]
  {
    m[p..p + Len(m, p)]
  }

  lemma LenIs(m: seq<CChar>, p: nat, n: nat)
    requires p + n < |m| && m[p + n] == 0 && forall k | p <= k < p + n :: m[k] != 0
    ensures Terminated(m, p) && Len(m, p) == n
  {
    assert m[p + n] == 0;
  }

  lemma StrIs(m: seq<CChar>, p: nat, s: seq<CChar>)
    requires p + |s| < |m| && m[p + |s|] == 0 && 0 !in s
    requires forall k | p <= k < p + |s| :: m[k] == s[k - p]
    ensures Terminated(m, p) && Str(m, p) == s
  {
    forall k | p <= k < p + |s| ensures m[k] != 0 { assert m[k] == s[k - p]; }
    LenIs(m, p, |s|);
  }

  lemma StrTail(m: seq<CChar>, p: nat)
    requires Terminated(m, p) && m[p] != 0
    ensures Terminated(m, p + 1) && Str(m, p) == [m[p]] + Str(m, p + 1)
  {
    var e :| p <= e < |m| && m[e] == 0;
    assert p + 1 <= e;
  }

  /** Two memories that agree on a string and its NUL have the same string. */
  lemma StrKept(m: seq<CChar>, m': seq<CChar>, p: nat)
    requires Terminated(m, p) && |m| == |m'|
    requires forall k | p <= k <= p + Len(m, p) :: m'[k] == m[k]
    ensures Terminated(m', p) && Str(m', p) == Str(m, p)
  {
    StrIs(m', p, Str(m, p));
  }

  /** At most n characters can be read from p: the string ends, or n cells are there. */
  ghost predicate Readable(m: seq<CChar>, p: nat, n: nat) { Terminated(m, p) || p + n <= |m| }

  lemma ReadableTail(m: seq<CChar>, p: nat, n: nat)
    requires Readable(m, p, n) && n > 0
    ensures p < |m| && (m[p] != 0 ==> Readable(m, p + 1, n - 1))
  {
    if Terminated(m, p) && m[p] != 0 {
      StrTail(m, p);
    }
  }

  /** The string at p, cut to n characters. */
  ghost function StrN(m: seq<CChar>, p: nat, n: nat): (s: seq<CChar>)
    requires Readable(m, p, n)
    ensures |s| <= n && p + |s| <= |m|
    ensures |s| < n ==> p + |s| < |m| && m[p + |s|] == 0
    ensures forall k | 0 <= k < |s| :: s[k] == m[p + k] && s[k] != 0
    decreases n
  {
    if n == 0 then []
    else
      ReadableTail(m, p, n);
      if m[p] == 0 then [] else [m[p]] + StrN(m, p + 1, n - 1)
  }

  lemma StrNTail(m: seq<CChar>, p: nat, n: nat)
    requires Readable(m, p, n) && n > 0
    ensures p < |m|
    ensures m[p] == 0 ==> StrN(m, p, n) == []
    ensures m[p] != 0 ==> Readable(m, p + 1, n - 1) && StrN(m, p, n) == [m[p]] + StrN(m, p + 1, n - 1)
  {
    ReadableTail(m, p, n);
  }

  lemma StrNEnds(m: seq<CChar>, p: nat, n: nat, j: nat)
    requires Readable(m, p, n) && j <= |StrN(m, p, n)|
    requires j == n || (p + j < |m| && m[p + j] == 0)
    ensures j == |StrN(m, p, n)|
  {
    var s := StrN(m, p, n);
    forall k | p <= k < p + |s| ensures m[k] != 0 { assert s[k - p] != 0; }
  }

  /** The string at p, cut, is the cut string. */
  lemma {:induction false} StrNIs(m: seq<CChar>, p: nat, n: nat)
    requires Terminated(m, p)
    ensures StrN(m, p, n) == Str(m, p)[..Min(n, Len(m, p))]
    decreases n
  {
    if n > 0 && m[p] != 0 {
      StrTail(m, p);
      StrNIs(m, p + 1, n - 1);
    }
  }

  /** The conversion of an int to char. */
  function ToChar(v: int): (c: CChar)
    ensures (v - c) % 256 == 0
  {
    (v + 128) % 256 - 128
  }

  method StrLen(mem: array<CChar>, str: nat) returns (res: nat)
    requires Terminated(mem[..], str)
    ensures res == Len(mem[..], str)
  {
    res := 0;
    while mem[str + res] != 0
      invariant res <= Len(mem[..], str)
      decreases Len(mem[..], str) - res
    {
      res := res + 1;
    }
  }

  /** The first occurrence of a character, the NUL included. */
  method StrChr(mem: array<CChar>, str: nat, needle: int) returns (res: Option<nat>)
    requires Terminated(mem[..], str)
    ensures
      match res
      case Some(r) =>
        && str <= r <= str + Len(mem[..], str) && mem[r] == ToChar(needle)
        && forall k | str <= k < r :: mem[k] != ToChar(needle)
      case None => ToChar(needle) != 0 && ToChar(needle) !in Str(mem[..], str)
  {
    var s := str;
    while true
      invariant str <= s <= str + Len(mem[..], str)
      invariant forall k | str <= k < s :: mem[k] != ToChar(needle)
      decreases str + Len(mem[..], str) - s
    {
      if mem[s] == ToChar(needle) {
        return Some(s);
      }
      if mem[s] == 0 {
        return None;
      }
      s := s + 1;
    }
  }

  /** The first offset from p on whose character is not in `chars` (with `accept`) or is in it, or the NUL. */
  ghost function Skip(m: seq<CChar>, p: nat, chars: seq<CChar>, accept: bool): (q: nat)
    requires Terminated(m, p)
    ensures p <= q <= p + Len(m, p)
    ensures forall k | p <= k < q :: m[k] in chars <==> accept
    ensures q < p + Len(m, p) ==> (m[q] in chars <==> !accept)
    decreases |m| - p
  {
    if m[p] != 0 && (m[p] in chars <==> accept) then
      StrTail(m, p);
      Skip(m, p + 1, chars, accept)
    else p
  }

  lemma SkipIs(m: seq<CChar>, p: nat, chars: seq<CChar>, accept: bool, q: nat)
    requires Terminated(m, p) && p <= q <= p + Len(m, p)
    requires forall k | p <= k < q :: m[k] in chars <==> accept
    requires q < p + Len(m, p) ==> (m[q] in chars <==> !accept)
    ensures Skip(m, p, chars, accept) == q
  {
  }

  method StrSpn(mem: array<CChar>, str: nat, accept: nat) returns (res: nat)
    requires Terminated(mem[..], str) && Terminated(mem[..], accept)
    ensures str + res == Skip(mem[..], str, Str(mem[..], accept), true)
  {
    hide Skip, Str, Len, Terminated;
    ghost var m, chars := mem[..], Str(mem[..], accept);
    res := 0;
    while mem[str + res] != 0
      invariant res <= Len(m, str)
      invariant forall k | str <= k < str + res :: m[k] in chars
      decreases Len(m, str) - res
    {
      var found := StrChr(mem, accept, mem[str + res]);
      if found.Some? {
        assert m[found.value] == chars[found.value - accept];
        res := res + 1;
      } else {
        break;
      }
    }
    SkipIs(m, str, chars, true, str + res);
  }

  method StrCSpn(mem: array<CChar>, str: nat, reject: nat) returns (res: nat)
    requires Terminated(mem[..], str) && Terminated(mem[..], reject)
    ensures str + res == Skip(mem[..], str, Str(mem[..], reject), false)
  {
    hide Skip, Str, Len, Terminated;
    ghost var m, chars := mem[..], Str(mem[..], reject);
    res := 0;
    while mem[str + res] != 0
      invariant res <= Len(m, str)
      invariant forall k | str <= k < str + res :: m[k] !in chars
      decreases Len(m, str) - res
    {
      var found := StrChr(mem, reject, mem[str + res]);
      if found.None? {
        res := res + 1;
      } else {
        assert m[found.value] == chars[found.value - reject];
        break;
      }
    }
    SkipIs(m, str, chars, false, str + res);
  }
}
