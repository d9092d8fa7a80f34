/** strstr (src/cstring.cpp:318-335). */
module Search {
  import opened Options
  import opened CStrings
  import opened Comparison

  predicate Occurs(h: seq<CChar>, n: seq<CChar>, i: nat) { i + |n| <= |h| && h[i..i + |n|] == n }

  lemma StrDrop(m: seq<CChar>, p: nat, o: nat)
    requires Terminated(m, p) && o <= Len(m, p)
    ensures Terminated(m, p + o) && Str(m, p + o) == Str(m, p)[o..]
  {
    StrIs(m, p + o, Str(m, p)[o..]);
  }

  /** The comparison that strstr makes at each offset decides whether the needle occurs there. */
  lemma FoundAt(m: seq<CChar>, p: nat, needle: nat, o: nat)
    requires Terminated(m, p) && Terminated(m, needle) && o + Len(m, needle) <= Len(m, p)
    ensures Terminated(m, p + o)
    ensures var n := Len(m, needle);
      Compare(StrN(m, p + o, n), StrN(m, needle, n)) == 0 <==> Occurs(Str(m, p), Str(m, needle), o)
  {
    hide Compare, StrN, Terminated, Str, Len;
    var n := Len(m, needle);
    StrDrop(m, p, o);
    StrNIs(m, p + o, n);
    StrNIs(m, needle, n);
    CompareMeans(StrN(m, p + o, n), StrN(m, needle, n));
    assert Str(m, p)[o..][..n] == Str(m, p)[o..o + n];
    assert Str(m, needle)[..n] == Str(m, needle);
  }

  /** The first offset at which the needle occurs, or null when there is none; an empty needle occurs at once. */
  method StrStr(mem: array<CChar>, haystack: nat, needle: nat) returns (res: Option<nat>)
    requires Terminated(mem[..], haystack) && Terminated(mem[..], needle)
    ensures
      var h, n := Str(mem[..], haystack), Str(mem[..], needle);
      match res
      case Some(r) =>
        haystack <= r && Occurs(h, n, r - haystack) && forall j | 0 <= j < r - haystack :: !Occurs(h, n, j)
      case None => forall j: nat :: !Occurs(h, n, j)
  {
    hide Compare, StrN, Terminated, Str, Len;
    ghost var m := mem[..];
    var needleLen := StrLen(mem, needle);
    var haystackLen := StrLen(mem, haystack);
    if needleLen == 0 && haystackLen == 0 {
      return Some(haystack);
    }
    var i, at := haystackLen, haystack;
    while i >= needleLen
      invariant 0 <= i <= haystackLen && at == haystack + (haystackLen - i)
      invariant forall j | 0 <= j < haystackLen - i :: !Occurs(Str(m, haystack), Str(m, needle), j)
    {
      FoundAt(m, haystack, needle, at - haystack);
      var found := StrNCmp(mem, at, needle, needleLen);
      if found == 0 {
        return Some(at);
      }
      assert needleLen > 0;
      i, at := i - 1, at + 1;
    }
    return None;
  }
}
