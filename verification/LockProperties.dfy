/** What the runs of the spin locks keep: an abstract mutex, a bound on failed attempts, a counter, the allocator. */
module LockProperties {
  import opened SpinLocks

  // The abstract mutex and the projection of a run to its events

  datatype Event = Acquire(t: Tid) | Release(t: Tid)

  datatype Mutex = Free | HeldBy(t: Tid) | Broken

  function MutexStep(m: Mutex, e: Event): Mutex {
    match e
    case Acquire(t) => if m == Free then HeldBy(t) else Broken
    case Release(t) => if m == HeldBy(t) then Free else Broken
  }

  /** The mutex after a sequence of events; Broken for an acquire of a held or a release by a non-holder. */
  function MutexAfter(trace: seq<Event>): Mutex {
    if trace == [] then Free else MutexStep(MutexAfter(trace[..|trace| - 1]), trace[|trace| - 1])
  }

  /** A step is an acquire, a release, or, like every load and every failed attempt, nothing. */
  function EventOf<S, Op, R>(s: State<S, Op, R>, step: Step<Op>): seq<Event> {
    if step.Attempt? && s.value == K_FREE then [Acquire(step.t)]
    else if step.Unlock? then [Release(step.t)]
    else []
  }

  function Trace<S, Op, R>(states: seq<State<S, Op, R>>, steps: seq<Step<Op>>, n: nat): seq<Event>
    requires n <= |steps| && n < |states|
  {
    if n == 0 then [] else Trace(states, steps, n - 1) + EventOf(states[n - 1], steps[n - 1])
  }

  /** The mutex is free when the lock word is, and is held by the thread between acquire and unlock store. */
  ghost predicate Represents<S, Op, R>(m: Mutex, s: State<S, Op, R>) {
    && m != Broken && (m == Free <==> s.value == K_FREE)
    && forall t :: m == HeldBy(t) <==> t in s.locals && s.locals[t].Holds()
  }

  function MutexSteps(m: Mutex, events: seq<Event>): Mutex {
    if events == [] then m else MutexStep(m, events[0])
  }

  lemma StepRefines<S, Op, R>(v: Variant, apply: (S, Op) -> (S, R), start: S,
                              s: State<S, Op, R>, step: Step<Op>, s': State<S, Op, R>, m: Mutex)
    requires Inv(apply, start, s) && Next(v, apply, s, step, s') && Represents(m, s)
    ensures Represents(MutexSteps(m, EventOf(s, step)), s')
  {
    NextMutualExclusion(v, apply, s, step, s');
    forall u | u != step.t ensures u in s.locals <==> u in s'.locals {}
    forall u | u in s.locals && u != step.t ensures s'.locals[u] == s.locals[u] {}
  }

  lemma TraceStep<S, Op, R>(states: seq<State<S, Op, R>>, steps: seq<Step<Op>>, n: nat)
    requires 0 < n <= |steps| && n < |states|
    ensures MutexAfter(Trace(states, steps, n))
         == MutexSteps(MutexAfter(Trace(states, steps, n - 1)), EventOf(states[n - 1], steps[n - 1]))
  {
    var before, e := Trace(states, steps, n - 1), EventOf(states[n - 1], steps[n - 1]);
    assert e != [] ==> (before + e)[..|before + e| - 1] == before && (before + e)[|before + e| - 1] == e[0];
    assert e == [] ==> before + e == before;
  }

  lemma StartIsFree<S, Op, R>(s: State<S, Op, R>, start: S)
    requires Init(s, start)
    ensures Represents(Free, s)
  {
  }

  lemma TraceRefines<S, Op, R>(v: Variant, apply: (S, Op) -> (S, R), start: S,
                               states: seq<State<S, Op, R>>, steps: seq<Step<Op>>, n: nat)
    requires IsRun(v, apply, start, states, steps) && 0 < n < |states|
    requires Represents(MutexAfter(Trace(states, steps, n - 1)), states[n - 1])
    ensures Represents(MutexAfter(Trace(states, steps, n)), states[n])
  {
    RunInv(v, apply, start, states, steps, n - 1);
    RunStep(v, apply, start, states, steps, n - 1);
    TraceStep(states, steps, n);
    hide *;
    StepRefines(v, apply, start, states[n - 1], steps[n - 1], states[n], MutexAfter(Trace(states, steps, n - 1)));
  }

  /**
   Every run of the test-and-set lock, of the test-and-test-and-set lock and of dux::spin_lock projects to a
   legal run of the mutex, held at each moment by exactly the thread between acquire and unlock store.
   */
  lemma {:induction false} RunRefinesMutex<S, Op, R>(v: Variant, apply: (S, Op) -> (S, R), start: S,
                                                     states: seq<State<S, Op, R>>, steps: seq<Step<Op>>, n: nat)
    requires IsRun(v, apply, start, states, steps) && n < |states|
    ensures Represents(MutexAfter(Trace(states, steps, n)), states[n])
    decreases n
  {
    if n == 0 {
      hide Represents, Next;
      StartIsFree(states[0], start);
    } else {
      hide *;
      RunRefinesMutex(v, apply, start, states, steps, n - 1);
      TraceRefines(v, apply, start, states, steps, n);
    }
  }

  // Failed attempts inside lock()

  function Failures<S, Op, R>(states: seq<State<S, Op, R>>, steps: seq<Step<Op>>, t: Tid, n: nat): nat
    requires n <= |steps| && n < |states|
  {
    if n == 0 then 0
    else
      var s, step := states[n - 1], steps[n - 1];
      Failures(states, steps, t, n - 1)
      + (if step == Attempt(t) && t in s.locals && s.locals[t].Attempting? && s.value == K_LOCKED then 1 else 0)
  }

  function OtherAcquisitions<S, Op, R>(states: seq<State<S, Op, R>>, steps: seq<Step<Op>>, t: Tid, n: nat): nat
    requires n <= |steps| && n < |states|
  {
    if n == 0 then 0
    else
      OtherAcquisitions(states, steps, t, n - 1)
      + (if steps[n - 1].Attempt? && steps[n - 1].t != t && states[n - 1].value == K_FREE then 1 else 0)
  }

  /** A thread that has seen the lock free and now finds it taken has been overtaken by one more acquisition. */
  function Overtaken<S, Op, R>(s: State<S, Op, R>, t: Tid): nat {
    if t in s.locals && s.locals[t].Attempting? && s.value == K_LOCKED then 1 else 0
  }

  /** What one step adds on both sides. */
  lemma OvertakenStep<S, Op, R>(v: Variant, apply: (S, Op) -> (S, R), start: S,
                                states: seq<State<S, Op, R>>, steps: seq<Step<Op>>, t: Tid, n: nat)
    requires v != Tas && IsRun(v, apply, start, states, steps) && n < |steps|
    ensures Failures(states, steps, t, n + 1) - Failures(states, steps, t, n) + Overtaken(states[n + 1], t)
         <= OtherAcquisitions(states, steps, t, n + 1) - OtherAcquisitions(states, steps, t, n) + Overtaken(states[n], t)
  {
    RunStep(v, apply, start, states, steps, n);
    RunInv(v, apply, start, states, steps, n);
    hide IsRun;
  }

  /** In any part of a run the failures of t are covered by the acquisitions in it and one that came just before. */
  lemma {:induction false} OvertakenBound<S, Op, R>(v: Variant, apply: (S, Op) -> (S, R), start: S,
                                                    states: seq<State<S, Op, R>>, steps: seq<Step<Op>>,
                                                    t: Tid, i: nat, n: nat)
    requires v != Tas && IsRun(v, apply, start, states, steps) && i <= n < |states|
    ensures Failures(states, steps, t, n) - Failures(states, steps, t, i) + Overtaken(states[n], t)
         <= OtherAcquisitions(states, steps, t, n) - OtherAcquisitions(states, steps, t, i) + Overtaken(states[i], t)
    decreases n
  {
    hide Next, Init, Failures, OtherAcquisitions, Overtaken;
    if i < n {
      OvertakenBound(v, apply, start, states, steps, t, i, n - 1);
      OvertakenStep(v, apply, start, states, steps, t, n - 1);
    }
  }

  /**
   With a load before each attempt, a thread that is outside the lock in state i fails, up to any later state n, at
   most as often as other threads acquire the lock in between; so one call of lock() fails at most once for every
   acquisition by another thread during the call.
   */
  lemma FailuresBounded<S, Op, R>(v: Variant, apply: (S, Op) -> (S, R), start: S,
                                  states: seq<State<S, Op, R>>, steps: seq<Step<Op>>, t: Tid, i: nat, n: nat)
    requires v != Tas && IsRun(v, apply, start, states, steps) && i <= n < |states|
    requires t in states[i].locals && states[i].locals[t] == Outside
    ensures Failures(states, steps, t, n) - Failures(states, steps, t, i)
         <= OtherAcquisitions(states, steps, t, n) - OtherAcquisitions(states, steps, t, i)
  {
    OvertakenBound(v, apply, start, states, steps, t, i, n);
  }

  lemma {:induction false} CountsOfPrefix<S, Op, R>(a: seq<State<S, Op, R>>, x: seq<Step<Op>>,
                                                    b: seq<State<S, Op, R>>, y: seq<Step<Op>>, n: nat)
    requires n <= |x| && n < |a| && a <= b && x <= y
    ensures Failures(a, x, 1, n) == Failures(b, y, 1, n)
    ensures OtherAcquisitions(a, x, 1, n) == OtherAcquisitions(b, y, 1, n)
  {
    if n > 0 { CountsOfPrefix(a, x, b, y, n - 1); }
  }

  /** What step n - 1 adds to the counts of thread 1. */
  lemma CountsStep<S, Op, R>(states: seq<State<S, Op, R>>, steps: seq<Step<Op>>, n: nat, failed: bool, overtaken: bool)
    requires 0 < n <= |steps| && n < |states|
    requires failed == (steps[n - 1] == Attempt(1) && 1 in states[n - 1].locals
                        && states[n - 1].locals[1].Attempting? && states[n - 1].value == K_LOCKED)
    requires overtaken == (steps[n - 1].Attempt? && steps[n - 1].t != 1 && states[n - 1].value == K_FREE)
    ensures Failures(states, steps, 1, n) == Failures(states, steps, 1, n - 1) + if failed then 1 else 0
    ensures OtherAcquisitions(states, steps, 1, n)
         == OtherAcquisitions(states, steps, 1, n - 1) + if overtaken then 1 else 0
  {
  }

  lemma CountsStart<S, Op, R>(states: seq<State<S, Op, R>>, steps: seq<Step<Op>>)
    requires states != []
    ensures Failures(states, steps, 1, 0) == OtherAcquisitions(states, steps, 1, 0) == 0
  {
  }

  /** Thread 0 takes the lock, then thread 1 calls. */
  lemma TasTaken<S, Op, R>(apply: (S, Op) -> (S, R), start: S, op: Op)
    returns (states: seq<State<S, Op, R>>, steps: seq<Step<Op>>)
    ensures IsRun(Tas, apply, start, states, steps)
    ensures Failures(states, steps, 1, |steps|) == 0 && OtherAcquisitions(states, steps, 1, |steps|) == 1
    ensures
      var last := states[|steps|];
      last.value == K_LOCKED && 1 in last.locals && last.locals[1] == Attempting(op)
  {
    var s0: State<S, Op, R> := State(K_FREE, start, map[0 := Outside, 1 := Outside], [], []);
    var s1 := At(s0, 0, Attempting(op));
    var s2 := Acquired(s1, 0, op);
    var s3 := At(s2, 1, Attempting(op));
    states, steps := [s0, s1, s2, s3], [Call(0, op), Attempt(0), Call(1, op)];
    assert IsRun(Tas, apply, start, states, steps);
    assert s1.value == K_FREE;
    hide IsRun, Failures, OtherAcquisitions;
    CountsStart(states, steps);
    CountsStep(states, steps, 1, false, false);
    CountsStep(states, steps, 2, false, true);
    CountsStep(states, steps, 3, false, false);
  }

  /** Thread 1 attempts in vain once more. */
  lemma TasFailsAgain<S, Op, R>(apply: (S, Op) -> (S, R), start: S, op: Op,
                                before: seq<State<S, Op, R>>, taken: seq<Step<Op>>)
    returns (states: seq<State<S, Op, R>>, steps: seq<Step<Op>>)
    requires IsRun(Tas, apply, start, before, taken)
    requires
      var last := before[|taken|];
      last.value == K_LOCKED && 1 in last.locals && last.locals[1] == Attempting(op)
    ensures IsRun(Tas, apply, start, states, steps)
    ensures Failures(states, steps, 1, |steps|) == Failures(before, taken, 1, |taken|) + 1
    ensures OtherAcquisitions(states, steps, 1, |steps|) == OtherAcquisitions(before, taken, 1, |taken|)
    ensures
      var last := states[|steps|];
      last.value == K_LOCKED && 1 in last.locals && last.locals[1] == Attempting(op)
  {
    hide Failures, OtherAcquisitions;
    var last := before[|taken|];
    states, steps := before + [Refused(Tas, last, 1, last.locals[1])], taken + [Attempt(1)];
    CountsOfPrefix(before, taken, states, steps, |taken|);
    CountsStep(states, steps, |steps|, true, false);
    forall i | 0 <= i < |steps| ensures Next(Tas, apply, states[i], steps[i], states[i + 1]) {
      if i < |taken| {
        RunStep(Tas, apply, start, before, taken, i);
      }
    }
  }

  /** The test-and-set lock has no such bound: one acquisition by another thread, any number of failures. */
  lemma {:induction false} TasFailuresUnbounded<S, Op, R>(apply: (S, Op) -> (S, R), start: S, op: Op, k: nat)
    returns (states: seq<State<S, Op, R>>, steps: seq<Step<Op>>)
    ensures IsRun(Tas, apply, start, states, steps)
    ensures Failures(states, steps, 1, |steps|) == k && OtherAcquisitions(states, steps, 1, |steps|) == 1
    ensures
      var last := states[|steps|];
      last.value == K_LOCKED && 1 in last.locals && last.locals[1] == Attempting(op)
    decreases k
  {
    hide Failures, OtherAcquisitions, Next, Init;
    if k == 0 {
      states, steps := TasTaken(apply, start, op);
    } else {
      states, steps := TasFailuresUnbounded(apply, start, op, k - 1);
      states, steps := TasFailsAgain(apply, start, op, states, steps);
    }
  }

  // A counter incremented by separate read and write steps inside the lock

  function Increment(counter: int, op: ()): (int, int) { (counter + 1, counter) }

  lemma {:induction false} SequentialCount(log: seq<(Tid, ())>, n: nat)
    requires n <= |log|
    ensures Sequential(Increment, 0, log, n) == n
  {
    if n > 0 { SequentialCount(log, n - 1); }
  }

  /** The counter equals the number of completed increments, and increment number i has read i. */
  lemma CounterExact(v: Variant, states: seq<State<int, (), int>>, steps: seq<Step<()>>, i: nat)
    requires IsRun(v, Increment, 0, states, steps) && i < |states|
    ensures states[i].data == |states[i].results|
    ensures forall k | 0 <= k < |states[i].results| :: states[i].results[k] == k
  {
    RunInv(v, Increment, 0, states, steps, i);
    var s := states[i];
    SequentialCount(s.log, |s.results|);
    forall k | 0 <= k < |s.results| ensures s.results[k] == k {
      SequentialCount(s.log, k);
    }
  }

  // The allocator's entry points under one lock

  datatype AllocatorCall =
    | Initialize(base: nat, size: nat)
    | AlignedAlloc(alignment: nat, size: nat)
    | Calloc(num: nat, size: nat)
    | FreeBlock(ptr: nat)
    | Malloc(size: nat)
    | Realloc(ptr: nat, newSize: nat)

  /**
   Whatever the allocator does sequentially, calls through its locked entry points by any number of threads have
   the results and the final heap of running them one at a time in the order of lock acquisition, an order in
   which a call that is entered later never comes before one that already has its result.
   */
  lemma AllocatorLinearizable<Heap>(allocate: (Heap, AllocatorCall) -> (Heap, nat), heap: Heap,
                                    states: seq<State<Heap, AllocatorCall, nat>>, steps: seq<Step<AllocatorCall>>,
                                    i: nat, j: nat)
    requires IsRun(Dux, allocate, heap, states, steps) && i <= j < |states|
    ensures forall k | 0 <= k < |states[j].results| :: k < |states[j].log| &&
              states[j].results[k] == SequentialResult(allocate, heap, states[j].log, k)
    ensures states[j].value == K_FREE ==>
              |states[j].results| == |states[j].log|
              && states[j].data == Sequential(allocate, heap, states[j].log, |states[j].log|)
    ensures states[i].log <= states[j].log && states[i].results <= states[j].results
    ensures j < |steps| && steps[j].Attempt? && states[j].value == K_FREE ==>
              && |states[i].results| <= |states[j + 1].log| - 1
              && states[j + 1].log[|states[j + 1].log| - 1].0 == steps[j].t
  {
    RunsAreSequential(Dux, allocate, heap, states, steps, j);
    LogGrows(Dux, allocate, heap, states, steps, i, j);
    if j < |steps| {
      assert Next(Dux, allocate, states[j], steps[j], states[j + 1]);
    }
  }
}
