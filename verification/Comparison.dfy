/** Comparison of strings (src/cstring.cpp:192-222, 429-439, posix/posix_strings.cpp:73-103). */
module Comparison {
  import opened Buffers
  import opened CStrings

  /** The character at i; a string ends with NUL. */
  function At(s: seq<int>, i: nat): int { if i < |s| then s[i] else 0 }

  /** The first difference of two strings, 0 when there is none. */
  function Compare(a: seq<int>, b: seq<int>): int {
    if At(a, 0) != At(b, 0) then At(a, 0) - At(b, 0)
    else if a == [] || b == [] then 0
    else Compare(a[1..], b[1..])
  }

  /** The strings are equal before i and differ at i. */
  predicate DifferAt(a: seq<int>, b: seq<int>, i: nat) {
    i <= |a| && i <= |b| && (forall k | 0 <= k < i :: a[k] == b[k]) && At(a, i) != At(b, i)
  }

  /** The characters in order: 0 exactly for equal strings, else the difference at the only place they differ at. */
  lemma {:induction false} CompareMeans(a: seq<int>, b: seq<int>)
    requires 0 !in a && 0 !in b
    ensures Compare(a, b) == 0 <==> a == b
    ensures a != b ==> exists i: nat :: DifferAt(a, b, i) && Compare(a, b) == At(a, i) - At(b, i)
  {
    if At(a, 0) != At(b, 0) {
      assert DifferAt(a, b, 0);
    } else if a == [] || b == [] {
      assert a == b;
    } else {
      assert a == [a[0]] + a[1..] && b == [b[0]] + b[1..];
      CompareMeans(a[1..], b[1..]);
      if a != b {
        var i: nat :| DifferAt(a[1..], b[1..], i) && Compare(a[1..], b[1..]) == At(a[1..], i) - At(b[1..], i);
        forall k | 0 <= k < i + 1 ensures a[k] == b[k] {
          if k > 0 { assert a[1..][k - 1] == b[1..][k - 1]; }
        }
        assert DifferAt(a, b, i + 1);
      }
    }
  }

  lemma {:induction false} Antisymmetric(a: seq<int>, b: seq<int>)
    ensures Compare(a, b) == -Compare(b, a)
  {
    if At(a, 0) == At(b, 0) && a != [] && b != [] {
      Antisymmetric(a[1..], b[1..]);
    }
  }

  lemma {:induction false} Transitive(a: seq<int>, b: seq<int>, c: seq<int>)
    requires 0 !in a && 0 !in b && 0 !in c
    requires Compare(a, b) <= 0 && Compare(b, c) <= 0
    ensures Compare(a, c) <= 0
    ensures Compare(a, b) < 0 || Compare(b, c) < 0 ==> Compare(a, c) < 0
  {
    if At(a, 0) == At(b, 0) == At(c, 0) && a != [] {
      Transitive(a[1..], b[1..], c[1..]);
    }
  }

  function Byte(c: CChar): int { if c < 0 then (c as int) + 256 else c }

  /** Characters as unsigned char, as section 7.24.4 of ISO/IEC 9899:2011 compares them. */
  function Bytes(s: seq<CChar>): (r: seq<int>)
    ensures |r| == |s| && forall i | 0 <= i < |s| :: r[i] == Byte(s[i])
  {
    seq(|s|, i requires 0 <= i < |s| => Byte(s[i]))
  }

  function Sign(v: int): int { if v < 0 then -1 else if v > 0 then 1 else 0 }

  /** Where the strings first differ, both characters are negative or neither is. */
  ghost predicate SameHalf(a: seq<CChar>, b: seq<CChar>) {
    forall i: nat :: DifferAt(a, b, i) ==> (At(a, i) < 0 <==> At(b, i) < 0)
  }

  lemma DifferAsBytes(a: seq<CChar>, b: seq<CChar>, i: nat)
    requires 0 !in a && 0 !in b
    ensures DifferAt(a, b, i) <==> DifferAt(Bytes(a), Bytes(b), i)
  {
    if i <= |a| && i <= |b| {
      if DifferAt(Bytes(a), Bytes(b), i) {
        forall k | 0 <= k < i ensures a[k] == b[k] { assert Bytes(a)[k] == Bytes(b)[k]; }
      }
    }
  }

  lemma DifferOnce(a: seq<int>, b: seq<int>, i: nat)
    requires DifferAt(a, b, i)
    ensures forall j: nat :: DifferAt(a, b, j) ==> j == i
  {
  }

  lemma SignOfBytes(a: seq<CChar>, b: seq<CChar>, i: nat)
    requires DifferAt(a, b, i)
    ensures Sign(At(a, i) - At(b, i)) == Sign(At(Bytes(a), i) - At(Bytes(b), i)) <==> (At(a, i) < 0 <==> At(b, i) < 0)
  {
  }

  lemma NoNulBytes(a: seq<CChar>)
    requires 0 !in a
    ensures 0 !in Bytes(a)
  {
  }

  lemma SameHalfItself(a: seq<CChar>)
    ensures SameHalf(a, a)
  {
  }

  lemma BytesDiffer(a: seq<CChar>, b: seq<CChar>, i: nat)
    requires DifferAt(a, b, i) && 0 !in a && 0 !in b
    ensures Bytes(a) != Bytes(b)
  {
    DifferAsBytes(a, b, i);
  }

  /** The signed comparison has the sign that the C standard asks for exactly when the halves agree. */
  lemma SignMeetsStandard(a: seq<CChar>, b: seq<CChar>)
    requires 0 !in a && 0 !in b
    ensures Sign(Compare(a, b)) == Sign(Compare(Bytes(a), Bytes(b))) <==> SameHalf(a, b)
  {
    hide Compare, DifferAt, At, Sign, Bytes, Byte;
    CompareMeans(a, b);
    NoNulBytes(a);
    NoNulBytes(b);
    CompareMeans(Bytes(a), Bytes(b));
    if a == b {
      SameHalfItself(a);
    } else {
      var i: nat :| DifferAt(a, b, i) && Compare(a, b) == At(a, i) - At(b, i);
      DifferOnce(a, b, i);
      BytesDiffer(a, b, i);
      var j: nat :| DifferAt(Bytes(a), Bytes(b), j)
                 && Compare(Bytes(a), Bytes(b)) == At(Bytes(a), j) - At(Bytes(b), j);
      DifferAsBytes(a, b, j);
      assert j == i;
      SignOfBytes(a, b, i);
    }
  }

  /** The character of code -1 is less than 'a' for the code, and greater for the standard. */
  lemma SignDiffersHappens()
    ensures var a: seq<CChar>, b: seq<CChar> := [-1], ['a' as int];
      !SameHalf(a, b) && Compare(a, b) == -98 && Compare(Bytes(a), Bytes(b)) == 158
  {
    var a: seq<CChar>, b: seq<CChar> := [-1], ['a' as int];
    assert DifferAt(a, b, 0);
  }

  method StrCmp(mem: array<CChar>, first: nat, second: nat) returns (res: int)
    requires Terminated(mem[..], first) && Terminated(mem[..], second)
    ensures res == Compare(Str(mem[..], first), Str(mem[..], second))
  {
    hide Terminated, Str, Len;
    ghost var m := mem[..];
    var f: nat, s: nat := first, second;
    while true
      invariant Terminated(m, f) && Terminated(m, s)
      invariant Compare(Str(m, f), Str(m, s)) == Compare(Str(m, first), Str(m, second))
      decreases mem.Length - f
    {
      if mem[f] != mem[s] {
        res := mem[f] as int - mem[s] as int;
        return;
      }
      if mem[f] == 0 {
        return 0;
      }
      StrTail(m, f);
      StrTail(m, s);
      f, s := f + 1, s + 1;
    }
  }

  method StrNCmp(mem: array<CChar>, first: nat, second: nat, length: nat) returns (res: int)
    requires Readable(mem[..], first, length) && Readable(mem[..], second, length)
    ensures res == Compare(StrN(mem[..], first, length), StrN(mem[..], second, length))
  {
    hide Readable, StrN;
    ghost var m := mem[..];
    for i := 0 to length
      invariant Readable(m, first + i, length - i) && Readable(m, second + i, length - i)
      invariant Compare(StrN(m, first + i, length - i), StrN(m, second + i, length - i))
             == Compare(StrN(m, first, length), StrN(m, second, length))
    {
      StrNTail(m, first + i, length - i);
      StrNTail(m, second + i, length - i);
      if mem[first + i] != mem[second + i] {
        res := mem[first + i] as int - mem[second + i] as int;
        return;
      }
      if mem[first + i] == 0 || mem[second + i] == 0 {
        break;
      }
    }
    return 0;
  }

  // Case, without reference to the conversion that the code uses

  /** The capital and the small form of one letter of the alphabet. */
  predicate LetterPair(x: int, y: int) { 0 <= x - 'A' as int < 26 && x - 'A' as int == y - 'a' as int }

  predicate SameLetter(x: int, y: int) { x == y || LetterPair(x, y) || LetterPair(y, x) }

  /** The strings are the same but for the case of letters. */
  predicate SameLetters(a: seq<CChar>, b: seq<CChar>) {
    |a| == |b| && forall i | 0 <= i < |a| :: SameLetter(a[i], b[i])
  }

  predicate NoCapital(s: seq<CChar>) { forall i | 0 <= i < |s| :: !('A' as int <= s[i] <= 'Z' as int) }

  function ToLower(c: CChar): CChar { if 'A' as int <= c <= 'Z' as int then c + 32 else c }

  function Lower(s: seq<CChar>): (r: seq<CChar>)
    ensures |r| == |s| && forall i | 0 <= i < |s| :: r[i] == ToLower(s[i])
  {
    seq(|s|, i requires 0 <= i < |s| => ToLower(s[i]))
  }

  lemma LowerLetters(x: CChar, y: CChar)
    ensures ToLower(x) == ToLower(y) <==> SameLetter(x, y)
    ensures ToLower(x) == 0 <==> x == 0
  {
  }

  /** Lowering removes the capitals and nothing else, so lowered strings are equal exactly for the same letters. */
  lemma LowerExact(a: seq<CChar>, b: seq<CChar>)
    requires 0 !in a && 0 !in b
    ensures NoCapital(Lower(a)) && SameLetters(a, Lower(a))
    ensures Compare(Lower(a), Lower(b)) == 0 <==> SameLetters(a, b)
  {
    hide Compare;
    forall i | 0 <= i < |a| ensures Lower(a)[i] != 0 { LowerLetters(a[i], a[i]); }
    forall i | 0 <= i < |b| ensures Lower(b)[i] != 0 { LowerLetters(b[i], b[i]); }
    CompareMeans(Lower(a), Lower(b));
    if |a| == |b| {
      forall i | 0 <= i < |a| ensures Lower(a)[i] == Lower(b)[i] <==> SameLetter(a[i], b[i]) {
        LowerLetters(a[i], b[i]);
      }
    }
  }

  lemma LowerTail(c: CChar, s: seq<CChar>)
    ensures Lower([c] + s) == [ToLower(c)] + Lower(s)
  {
  }

  /** Comparison without case is comparison of the lowered strings. */
  method StrCaseCmp(mem: array<CChar>, first: nat, second: nat) returns (res: int)
    requires Terminated(mem[..], first) && Terminated(mem[..], second)
    ensures res == Compare(Lower(Str(mem[..], first)), Lower(Str(mem[..], second)))
    ensures res == 0 <==> SameLetters(Str(mem[..], first), Str(mem[..], second))
  {
    hide Terminated, Str, Len, Lower, SameLetters;
    LowerExact(Str(mem[..], first), Str(mem[..], second));
    ghost var m := mem[..];
    var f: nat, s: nat := first, second;
    while true
      invariant Terminated(m, f) && Terminated(m, s)
      invariant Compare(Lower(Str(m, f)), Lower(Str(m, s))) == Compare(Lower(Str(m, first)), Lower(Str(m, second)))
      decreases mem.Length - f
    {
      if ToLower(mem[f]) != ToLower(mem[s]) {
        res := ToLower(mem[f]) as int - ToLower(mem[s]) as int;
        return;
      }
      if mem[f] == 0 {
        return 0;
      }
      StrTail(m, f);
      StrTail(m, s);
      LowerTail(mem[f], Str(m, f + 1));
      LowerTail(mem[s], Str(m, s + 1));
      f, s := f + 1, s + 1;
    }
  }

  /** What one pair of characters decides, and what it leaves to the rest. */
  lemma NCaseStep(m: seq<CChar>, f: nat, s: nat, n: nat)
    requires Readable(m, f, n) && Readable(m, s, n) && n > 0
    ensures f < |m| && s < |m|
    ensures
      var res := Compare(Lower(StrN(m, f, n)), Lower(StrN(m, s, n)));
      if ToLower(m[f]) != ToLower(m[s]) then res == ToLower(m[f]) as int - ToLower(m[s]) as int
      else if m[f] == 0 then m[s] == 0 && res == 0
      else
        && m[s] != 0 && Readable(m, f + 1, n - 1) && Readable(m, s + 1, n - 1)
        && res == Compare(Lower(StrN(m, f + 1, n - 1)), Lower(StrN(m, s + 1, n - 1)))
  {
    StrNTail(m, f, n);
    StrNTail(m, s, n);
    hide Readable, StrN, Lower;
    if m[f] != 0 { LowerTail(m[f], StrN(m, f + 1, n - 1)); }
    if m[s] != 0 { LowerTail(m[s], StrN(m, s + 1, n - 1)); }
  }

  method StrNCaseCmp(mem: array<CChar>, first: nat, second: nat, n: nat) returns (res: int)
    requires Readable(mem[..], first, n) && Readable(mem[..], second, n)
    ensures res == Compare(Lower(StrN(mem[..], first, n)), Lower(StrN(mem[..], second, n)))
    ensures res == 0 <==> SameLetters(StrN(mem[..], first, n), StrN(mem[..], second, n))
  {
    hide Readable, StrN, Lower, SameLetters;
    LowerExact(StrN(mem[..], first, n), StrN(mem[..], second, n));
    ghost var m := mem[..];
    for i := 0 to n
      invariant Readable(m, first + i, n - i) && Readable(m, second + i, n - i)
      invariant Compare(Lower(StrN(m, first + i, n - i)), Lower(StrN(m, second + i, n - i)))
             == Compare(Lower(StrN(m, first, n)), Lower(StrN(m, second, n)))
    {
      NCaseStep(m, first + i, second + i, n - i);
      if ToLower(mem[first + i]) != ToLower(mem[second + i]) {
        res := ToLower(mem[first + i]) as int - ToLower(mem[second + i]) as int;
        return;
      }
      if mem[first + i] == 0 || mem[second + i] == 0 {
        break;
      }
    }
    return 0;
  }

  /** The memory after strlwr. */
  ghost function StrLowered(m: seq<CChar>, p: nat): (r: seq<CChar>)
    requires Terminated(m, p)
    ensures |r| == |m|
    ensures forall k | 0 <= k < |m| :: r[k] == if p <= k <= p + Len(m, p) then ToLower(m[k]) else m[k]
  {
    Overwrite(m, p, Lower(Str(m, p)))
  }

  method StrLwr(mem: array<CChar>, str: nat)
    requires Terminated(mem[..], str)
    modifies mem
    ensures mem[..] == StrLowered(old(mem[..]), str)
    ensures Terminated(mem[..], str) && NoCapital(Str(mem[..], str))
    ensures SameLetters(old(Str(mem[..], str)), Str(mem[..], str))
  {
    ghost var m, n := mem[..], Len(mem[..], str);
    var p := str;
    mem[p] := ToLower(mem[p]);
    while mem[p] != 0
      invariant str <= p <= str + n
      invariant forall k | 0 <= k < mem.Length :: mem[k] == if str <= k <= p then ToLower(m[k]) else m[k]
      decreases str + n - p
    {
      p := p + 1;
      mem[p] := ToLower(mem[p]);
    }
  }

  lemma StrLoweredTwice(m: seq<CChar>, p: nat, q: nat)
    requires Terminated(m, p) && Terminated(m, q)
    ensures Terminated(StrLowered(m, p), q)
    ensures
      var m' := StrLowered(StrLowered(m, p), q);
      && Terminated(m', p) && Str(m', p) == Lower(Str(m, p))
      && Terminated(m', q) && Str(m', q) == Lower(Str(m, q))
  {
    hide StrLowered, Lower, Str, Terminated;
    var m1 := StrLowered(m, p);
    LenIs(m1, q, Len(m, q));
    var m2 := StrLowered(m1, q);
    StrIs(m2, p, Lower(Str(m, p)));
    StrIs(m2, q, Lower(Str(m, q)));
  }

  lemma StrNLowered(m: seq<CChar>, m': seq<CChar>, p: nat, n: nat)
    requires Terminated(m, p) && Terminated(m', p) && Str(m', p) == Lower(Str(m, p))
    ensures StrN(m', p, n) == Lower(StrN(m, p, n))
  {
    hide StrN, Terminated;
    StrNIs(m, p, n);
    StrNIs(m', p, n);
  }

  /** For any two strings, also overlapping ones, comparing without case is comparing after strlwr on both. */
  method LowerThenCompare(mem: array<CChar>, first: nat, second: nat, n: nat)
    returns (folded: int, lowered: int, foldedN: int, loweredN: int)
    requires Terminated(mem[..], first) && Terminated(mem[..], second)
    modifies mem
    ensures folded == lowered && foldedN == loweredN
    ensures folded == Compare(Lower(Str(old(mem[..]), first)), Lower(Str(old(mem[..]), second)))
    ensures folded == 0 <==> SameLetters(Str(old(mem[..]), first), Str(old(mem[..]), second))
    ensures foldedN == 0 <==> SameLetters(StrN(old(mem[..]), first, n), StrN(old(mem[..]), second, n))
  {
    hide Compare, Terminated, Str, Len, StrN, Lower, SameLetters;
    ghost var m := mem[..];
    folded := StrCaseCmp(mem, first, second);
    foldedN := StrNCaseCmp(mem, first, second, n);
    StrLoweredTwice(m, first, second);
    StrLwr(mem, first);
    StrLwr(mem, second);
    lowered := StrCmp(mem, first, second);
    StrNLowered(m, mem[..], first, n);
    StrNLowered(m, mem[..], second, n);
    loweredN := StrNCmp(mem, first, second, n);
  }
}
