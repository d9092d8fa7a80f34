/**
 The code of dux::spin_lock, the interrupt-saving guards and the allocator wrappers as one thread runs it
 (include/dux/spin_lock.h:58-152, include/arch/x86/asm/cpu.h:44-72, src/malloc.cpp:42-76). The other threads act
 between its accesses to the lock word: a schedule says what they leave there. All interleavings are the subject of
 SpinLocks, Interrupts and ViewLock.
 */
module Locking {
  import opened SpinLocks

  /** A value of the lock word. */
  type Bit = v: int | v == K_FREE || v == K_LOCKED witness K_FREE

  /** The times the word goes from free to locked in a sequence of its values. */
  function Acquisitions(values: seq<Bit>): nat {
    if |values| < 2 then 0
    else
      Acquisitions(values[..|values| - 1])
      + if values[|values| - 2] == K_FREE && values[|values| - 1] == K_LOCKED then 1 else 0
  }

  lemma OneMore(values: seq<Bit>, more: seq<Bit>)
    requires values != [] && values <= more && |more| <= |values| + 1
    ensures Acquisitions(more) == Acquisitions(values) +
      if |more| > |values| && values[|values| - 1] == K_FREE && more[|values|] == K_LOCKED then 1 else 0
  {
    if |more| == |values| {
      assert more == values;
    } else {
      assert more[..|values|] == values;
    }
  }

  /** The atomic lock word. */
  class Word {
    var value: Bit
    /** What the other threads leave in the word before each of the coming accesses of this thread. */
    var others: seq<Bit>
    /** The values that this thread has found, and what the word held at first. */
    ghost var found: seq<Bit>

    ghost predicate Valid()
      reads this
    {
      found != [] && found[|found| - 1] == value
    }

    /** In the end the others leave the lock free. */
    predicate FreedAtLast()
      reads this
    {
      if others == [] then value == K_FREE else others[|others| - 1] == K_FREE
    }

    constructor (others: seq<Bit>)
      ensures Valid() && value == K_FREE && this.others == others && found == [K_FREE]
    {
      value, this.others, found := K_FREE, others, [K_FREE];
    }

    method OthersAct()
      requires Valid()
      modifies this
      ensures Valid() && old(found) <= found
      ensures old(FreedAtLast()) ==> FreedAtLast()
      ensures if old(others) == [] then others == [] && found == old(found)
              else |others| < old(|others|) && found == old(found) + [value]
    {
      if others != [] {
        value, others, found := others[0], others[1..], found + [others[0]];
      }
    }

    method Load() returns (v: Bit)
      requires Valid()
      modifies this
      ensures Valid() && v == value && old(found) <= found
      ensures old(FreedAtLast()) ==> FreedAtLast()
      ensures if old(others) == [] then others == [] && found == old(found)
              else |others| < old(|others|) && found == old(found) + [value]
    {
      OthersAct();
      v := value;
    }

    /** A strong compare-exchange of kFree for kLocked; a failed one leaves the word as it is. */
    method CompareExchange() returns (ok: bool)
      requires Valid()
      modifies this
      ensures if old(others) == [] then others == [] && found == old(found)
              else |others| < old(|others|) && |found| == |old(found)| + 1 && old(found) <= found
      ensures found != [] && (ok <==> found[|found| - 1] == K_FREE)
      ensures value == K_LOCKED && (!ok ==> Valid() && (old(FreedAtLast()) ==> FreedAtLast()))
    {
      OthersAct();
      ok := value == K_FREE;
      if ok {
        value := K_LOCKED;
      }
    }

    method Store(v: Bit)
      modifies this
      ensures value == v && others == old(others) && found == old(found) + [v] && Valid()
    {
      value, found := v, found + [v];
    }
  }

  class SpinLock {
    const word: Word

    constructor (word: Word)
      ensures this.word == word
    {
      this.word := word;
    }

    /** Takes the lock exactly when it finds it free. */
    method TryLock() returns (ok: bool)
      requires word.Valid()
      modifies word
      ensures word.found != [] && (ok <==> word.found[|word.found| - 1] == K_FREE) && word.value == K_LOCKED
      ensures !ok ==> word.Valid()
    {
      ok := word.CompareExchange();
    }

    /**
     lock() returns with the word locked by a compare-exchange that found it free, on every schedule that frees the
     lock in the end, and its failed compare-exchanges are no more than the acquisitions by others that it met.
     */
    method Lock() returns (ghost failures: nat)
      requires word.Valid() && word.FreedAtLast()
      modifies word
      ensures word.value == K_LOCKED && old(word.found) <= word.found && word.found[|word.found| - 1] == K_FREE
      ensures failures + Acquisitions(old(word.found)) <= Acquisitions(word.found)
    {
      failures := 0;
      ghost var start := word.found;
      while true
        invariant word.Valid() && word.FreedAtLast() && start <= word.found
        invariant failures + Acquisitions(start) <= Acquisitions(word.found)
        decreases |word.others|
      {
        ghost var left, was := |word.others|, word.found;
        var v := word.Load();
        OneMore(was, word.found);
        while v == K_LOCKED
          invariant word.Valid() && word.FreedAtLast() && start <= word.found && v == word.value
          invariant failures + Acquisitions(start) <= Acquisitions(word.found)
          invariant |word.others| <= left
          decreases |word.others|, v
        {
          was := word.found;
          v := word.Load();
          OneMore(was, word.found);
        }
        was := word.found;
        var ok := word.CompareExchange();
        OneMore(was, word.found);
        if ok {
          return;
        }
        failures := failures + 1;
      }
    }

    method Unlock()
      requires word.value == K_LOCKED
      modifies word
      ensures word.value == K_FREE && word.Valid() && word.others == old(word.others)
    {
      word.Store(K_FREE);
    }
  }

  /** One CPU's interrupt flag. */
  class Cpu {
    var interrupts: bool

    constructor (interrupts: bool)
      ensures this.interrupts == interrupts
    {
      this.interrupts := interrupts;
    }

    method IrqSaveDisable() returns (wasEnabled: bool)
      modifies this
      ensures wasEnabled == old(interrupts) && !interrupts
    {
      wasEnabled := interrupts;
      interrupts := false;
    }

    method IrqRestore(wasEnabled: bool)
      modifies this
      ensures interrupts == (old(interrupts) || wasEnabled)
    {
      if wasEnabled {
        interrupts := true;
      }
    }
  }

  class IrqSaveLockGuard {
    const cpu: Cpu
    const spinLock: SpinLock
    const wasEnabled: bool

    constructor (cpu: Cpu, spinLock: SpinLock)
      requires spinLock.word.Valid() && spinLock.word.FreedAtLast()
      modifies cpu, spinLock.word
      ensures this.cpu == cpu && this.spinLock == spinLock && wasEnabled == old(cpu.interrupts)
      ensures !cpu.interrupts && spinLock.word.value == K_LOCKED
    {
      this.cpu, this.spinLock := cpu, spinLock;
      var was := cpu.IrqSaveDisable();
      wasEnabled := was;
      new;
      ghost var failures := spinLock.Lock();
    }

    method Destroy()
      requires spinLock.word.value == K_LOCKED
      modifies cpu, spinLock.word
      ensures cpu.interrupts == (old(cpu.interrupts) || wasEnabled)
      ensures spinLock.word.value == K_FREE && spinLock.word.Valid()
    {
      spinLock.Unlock();
      cpu.IrqRestore(wasEnabled);
    }
  }

  /** The allocator: an opaque sequential operation on a heap, under one global lock. */
  class Allocator<S, Op, R> {
    var heap: S
    const lock: SpinLock

    constructor (heap: S, lock: SpinLock)
      ensures this.heap == heap && this.lock == lock
    {
      this.heap, this.lock := heap, lock;
    }

    /** malloc, free and the others: the operation runs under the guard and leaves flag and lock as they were. */
    method Call(cpu: Cpu, apply: (S, Op) -> (S, R), op: Op) returns (r: R)
      requires lock.word.Valid() && lock.word.FreedAtLast()
      modifies this, cpu, lock.word
      ensures (heap, r) == apply(old(heap), op)
      ensures cpu.interrupts == old(cpu.interrupts) && lock.word.value == K_FREE
    {
      var g := new IrqSaveLockGuard(cpu, lock);
      var result := apply(heap, op);
      heap, r := result.0, result.1;
      g.Destroy();
    }
  }
}
