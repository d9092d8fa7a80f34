/**
 The spin locks as a step relation (include/dux/spin_lock.h:112-152, benchmarks/spin_ttas_vs_tas_bench.cpp:11-71)
 under sequential consistency, together with the object that the lock protects. Any number of threads call
 operations on the object; each call takes the lock, reads the object, stores its successor and releases the lock.
 */
module SpinLocks {
  type Tid = nat

  const K_FREE := 0
  const K_LOCKED := 1

  /** tas_spin_lock, ttas_spin_lock and dux::spin_lock. */
  datatype Variant = Tas | Ttas | Dux

  /** Where a thread is. From Entered to Finished it is between its successful acquire and its unlock store. */
  datatype Local<S, Op, R> =
    | Outside
    | Loading(op: Op)
    | Attempting(op: Op)
    | TryAttempting(op: Op)
    | Entered(op: Op)
    | Fetched(op: Op, snapshot: S)
    | Finished(op: Op, result: R)
  {
    predicate Holds() { Entered? || Fetched? || Finished? }
  }

  /** The lock word, the object, the threads, and the calls and results in the order of lock acquisition. */
  datatype State<S, Op, R> = State(
    value: int, data: S, locals: map<Tid, Local<S, Op, R>>, log: seq<(Tid, Op)>, results: seq<R>)

  /** One atomic step of thread t. */
  datatype Step<Op> =
    | Call(t: Tid, op: Op)
    | CallTry(t: Tid, op: Op)
    | Load(t: Tid)
    | Attempt(t: Tid)
    | Fetch(t: Tid)
    | Finish(t: Tid)
    | Unlock(t: Tid)

  ghost predicate Init<S, Op, R>(s: State<S, Op, R>, start: S) {
    && s.value == K_FREE && s.data == start && s.log == [] && s.results == []
    && forall t | t in s.locals :: s.locals[t] == Outside
  }

  function At<S, Op, R>(s: State<S, Op, R>, t: Tid, l: Local<S, Op, R>): State<S, Op, R> {
    s.(locals := s.locals[t := l])
  }

  /** The state after an acquiring exchange or compare-exchange of t that found the lock free. */
  function Acquired<S, Op, R>(s: State<S, Op, R>, t: Tid, op: Op): State<S, Op, R> {
    At(s, t, Entered(op)).(value := K_LOCKED, log := s.log + [(t, op)])
  }

  /** The state after a failed attempt: an exchange stores kLocked all the same, a compare-exchange does not. */
  function Refused<S, Op, R>(v: Variant, s: State<S, Op, R>, t: Tid, l: Local<S, Op, R>): State<S, Op, R> {
    At(s, t, l).(value := if v == Dux then s.value else K_LOCKED)
  }

  /** The next state, if the step is possible. */
  ghost predicate Next<S, Op, R>(v: Variant, apply: (S, Op) -> (S, R),
                                 s: State<S, Op, R>, step: Step<Op>, s': State<S, Op, R>)
  {
    step.t in s.locals &&
    var l := s.locals[step.t];
    match step
    case Call(t, op) => l == Outside && s' == At(s, t, if v == Tas then Attempting(op) else Loading(op))
    case CallTry(t, op) => l == Outside && s' == At(s, t, TryAttempting(op))
    case Load(t) =>
      l.Loading? && s' == At(s, t, if s.value == K_LOCKED then l else Attempting(l.op))
    case Attempt(t) =>
      && (l.Attempting? || l.TryAttempting?)
      && s' == if s.value == K_FREE then Acquired(s, t, l.op)
               else Refused(v, s, t, if l.TryAttempting? then Outside else if v == Tas then l else Loading(l.op))
    case Fetch(t) => l.Entered? && s' == At(s, t, Fetched(l.op, s.data))
    case Finish(t) =>
      l.Fetched? &&
      var (data, result) := apply(l.snapshot, l.op);
      s' == At(s, t, Finished(l.op, result)).(data := data, results := s.results + [result])
    case Unlock(t) => l.Finished? && s' == At(s, t, Outside).(value := K_FREE)
  }

  /** A run: states and the steps between them. */
  ghost predicate IsRun<S, Op, R>(v: Variant, apply: (S, Op) -> (S, R), start: S,
                                  states: seq<State<S, Op, R>>, steps: seq<Step<Op>>)
  {
    && |states| == |steps| + 1 && Init(states[0], start)
    && forall i | 0 <= i < |steps| :: Next(v, apply, states[i], steps[i], states[i + 1])
  }

  lemma RunStep<S, Op, R>(v: Variant, apply: (S, Op) -> (S, R), start: S,
                          states: seq<State<S, Op, R>>, steps: seq<Step<Op>>, i: nat)
    requires IsRun(v, apply, start, states, steps) && i < |steps|
    ensures |states| == |steps| + 1 && Next(v, apply, states[i], steps[i], states[i + 1])
  {
  }

  // The same calls one at a time

  /** The object after the first n logged calls, run one at a time in log order. */
  ghost function Sequential<S, Op, R>(apply: (S, Op) -> (S, R), start: S, log: seq<(Tid, Op)>, n: nat): S
    requires n <= |log|
  {
    if n == 0 then start else apply(Sequential(apply, start, log, n - 1), log[n - 1].1).0
  }

  /** The result of logged call i in that sequential run. */
  ghost function SequentialResult<S, Op, R>(apply: (S, Op) -> (S, R), start: S, log: seq<(Tid, Op)>, i: nat): R
    requires i < |log|
  {
    apply(Sequential(apply, start, log, i), log[i].1).1
  }

  lemma {:induction false} SequentialPrefix<S, Op, R>(
    apply: (S, Op) -> (S, R), start: S, log: seq<(Tid, Op)>, more: seq<(Tid, Op)>, n: nat)
    requires n <= |log| && log <= more
    ensures Sequential(apply, start, log, n) == Sequential(apply, start, more, n)
  {
    if n > 0 { SequentialPrefix(apply, start, log, more, n - 1); }
  }

  // The invariant

  ghost predicate MutualExclusion<S, Op, R>(s: State<S, Op, R>) {
    && (s.value == K_FREE || s.value == K_LOCKED)
    && (s.value == K_LOCKED <==> exists t :: t in s.locals && s.locals[t].Holds())
    && forall t, u | t in s.locals && u in s.locals && s.locals[t].Holds() && s.locals[u].Holds() :: t == u
  }

  /** Between acquire and store the last logged call is the holder's and has no result yet. */
  predicate Pending<S, Op, R>(l: Local<S, Op, R>) { l.Entered? || l.Fetched? }

  ghost predicate CallIsLast<S, Op, R>(s: State<S, Op, R>, t: Tid, l: Local<S, Op, R>)
    requires l.Holds()
  {
    && |s.log| > 0 && s.log[|s.log| - 1] == (t, l.op)
    && |s.results| == |s.log| - (if Pending(l) then 1 else 0)
    && (l.Fetched? ==> l.snapshot == s.data)
    && (l.Finished? ==> s.results[|s.results| - 1] == l.result)
  }

  ghost predicate HolderIsLast<S, Op, R>(s: State<S, Op, R>) {
    forall t | t in s.locals && s.locals[t].Holds() :: CallIsLast(s, t, s.locals[t])
  }

  ghost predicate SequentialSoFar<S, Op, R>(apply: (S, Op) -> (S, R), start: S, s: State<S, Op, R>) {
    && |s.results| <= |s.log|
    && s.data == Sequential(apply, start, s.log, |s.results|)
    && forall i | 0 <= i < |s.results| :: s.results[i] == SequentialResult(apply, start, s.log, i)
  }

  ghost predicate Inv<S, Op, R>(apply: (S, Op) -> (S, R), start: S, s: State<S, Op, R>) {
    && MutualExclusion(s) && HolderIsLast(s) && SequentialSoFar(apply, start, s)
    && (s.value == K_FREE ==> |s.results| == |s.log|)
  }

  lemma InitInv<S, Op, R>(apply: (S, Op) -> (S, R), start: S, s: State<S, Op, R>)
    requires Init(s, start)
    ensures Inv(apply, start, s)
  {
  }

  lemma NextMutualExclusion<S, Op, R>(v: Variant, apply: (S, Op) -> (S, R),
                                      s: State<S, Op, R>, step: Step<Op>, s': State<S, Op, R>)
    requires MutualExclusion(s) && Next(v, apply, s, step, s')
    ensures MutualExclusion(s')
  {
    var t := step.t;
    forall u | u in s.locals && u != t ensures u in s'.locals && s'.locals[u] == s.locals[u] {}
    if s'.locals[t].Holds() && !s.locals[t].Holds() {
      assert s.value == K_FREE && s'.value == K_LOCKED;
    } else if s.locals[t].Holds() && !s'.locals[t].Holds() {
      assert s'.value == K_FREE;
    } else if s.value == K_LOCKED {
      var h :| h in s.locals && s.locals[h].Holds();
      assert h in s'.locals && s'.locals[h].Holds();
    }
  }

  lemma NextSequential<S, Op, R>(v: Variant, apply: (S, Op) -> (S, R), start: S,
                                 s: State<S, Op, R>, step: Step<Op>, s': State<S, Op, R>)
    requires Inv(apply, start, s) && Next(v, apply, s, step, s')
    ensures SequentialSoFar(apply, start, s')
  {
    assert s.log <= s'.log;
    SequentialPrefix(apply, start, s.log, s'.log, |s.results|);
    forall i | 0 <= i < |s.results|
      ensures SequentialResult(apply, start, s'.log, i) == s.results[i]
    {
      SequentialPrefix(apply, start, s.log, s'.log, i);
    }
  }

  lemma NextOwnCall<S, Op, R>(v: Variant, apply: (S, Op) -> (S, R), start: S,
                              s: State<S, Op, R>, step: Step<Op>, s': State<S, Op, R>)
    requires Inv(apply, start, s) && Next(v, apply, s, step, s')
    ensures s'.locals[step.t].Holds() ==> CallIsLast(s', step.t, s'.locals[step.t])
    ensures s'.value == K_FREE ==> |s'.results| == |s'.log|
  {
    hide Sequential, SequentialSoFar;
  }

  /** A step of t leaves another holder's call the last one: while it holds the lock, t only waits. */
  lemma NextOtherCalls<S, Op, R>(v: Variant, apply: (S, Op) -> (S, R), start: S,
                                 s: State<S, Op, R>, step: Step<Op>, s': State<S, Op, R>)
    requires Inv(apply, start, s) && Next(v, apply, s, step, s')
    ensures forall u | u in s'.locals && u != step.t && s'.locals[u].Holds() :: CallIsLast(s', u, s'.locals[u])
  {
    hide Sequential, SequentialSoFar;
    forall u | u in s'.locals && u != step.t && s'.locals[u].Holds()
      ensures CallIsLast(s', u, s'.locals[u])
    {
      assert s.locals[u] == s'.locals[u] && CallIsLast(s, u, s.locals[u]);
      assert !s.locals[step.t].Holds();
      assert s'.log == s.log && s'.results == s.results && s'.data == s.data;
    }
  }

  lemma NextInv<S, Op, R>(v: Variant, apply: (S, Op) -> (S, R), start: S,
                          s: State<S, Op, R>, step: Step<Op>, s': State<S, Op, R>)
    requires Inv(apply, start, s) && Next(v, apply, s, step, s')
    ensures Inv(apply, start, s')
  {
    NextMutualExclusion(v, apply, s, step, s');
    NextSequential(v, apply, start, s, step, s');
    NextOwnCall(v, apply, start, s, step, s');
    NextOtherCalls(v, apply, start, s, step, s');
  }

  lemma {:induction false} RunInv<S, Op, R>(v: Variant, apply: (S, Op) -> (S, R), start: S,
                                            states: seq<State<S, Op, R>>, steps: seq<Step<Op>>, i: nat)
    requires IsRun(v, apply, start, states, steps) && i < |states|
    ensures Inv(apply, start, states[i])
  {
    if i == 0 {
      InitInv(apply, start, states[0]);
    } else {
      RunInv(v, apply, start, states, steps, i - 1);
      NextInv(v, apply, start, states[i - 1], steps[i - 1], states[i]);
    }
  }

  /**
   In every state of every run of each lock, the lock word is kLocked exactly when a thread is between its
   successful acquire and its unlock store, and no two threads are.
   */
  lemma RunsExclude<S, Op, R>(v: Variant, apply: (S, Op) -> (S, R), start: S,
                              states: seq<State<S, Op, R>>, steps: seq<Step<Op>>, i: nat)
    requires IsRun(v, apply, start, states, steps) && i < |states|
    ensures MutualExclusion(states[i])
  {
    RunInv(v, apply, start, states, steps, i);
  }

  /**
   Every run is equivalent to the sequential run of the logged calls in the order of lock acquisition: every
   result handed out is the sequential one, and whenever the lock is free the object is the sequential object.
   */
  lemma RunsAreSequential<S, Op, R>(v: Variant, apply: (S, Op) -> (S, R), start: S,
                                    states: seq<State<S, Op, R>>, steps: seq<Step<Op>>, i: nat)
    requires IsRun(v, apply, start, states, steps) && i < |states|
    ensures
      var s := states[i];
      && |s.results| <= |s.log| <= |s.results| + 1
      && (forall k | 0 <= k < |s.results| :: s.results[k] == SequentialResult(apply, start, s.log, k))
      && (s.value == K_FREE ==> |s.results| == |s.log| && s.data == Sequential(apply, start, s.log, |s.log|))
      && (forall t | t in s.locals && s.locals[t].Finished? ::
            && |s.log| > 0 && s.log[|s.log| - 1] == (t, s.locals[t].op)
            && s.locals[t].result == SequentialResult(apply, start, s.log, |s.log| - 1))
  {
    RunInv(v, apply, start, states, steps, i);
    var s := states[i];
    if s.value == K_LOCKED {
      var t :| t in s.locals && s.locals[t].Holds();
    }
  }

  /** A later call is logged after every call that had the lock before it: the log only grows at its end. */
  lemma {:induction false} LogGrows<S, Op, R>(v: Variant, apply: (S, Op) -> (S, R), start: S,
                                              states: seq<State<S, Op, R>>, steps: seq<Step<Op>>, i: nat, j: nat)
    requires IsRun(v, apply, start, states, steps) && i <= j < |states|
    ensures states[i].log <= states[j].log && states[i].results <= states[j].results
  {
    if i < j {
      LogGrows(v, apply, start, states, steps, i, j - 1);
      assert Next(v, apply, states[j - 1], steps[j - 1], states[j]);
    }
  }

  // The steps go on

  /** No thread is ever stuck: wherever it is, it can take a step of its own. */
  lemma NeverStuck<S, Op, R>(v: Variant, apply: (S, Op) -> (S, R), s: State<S, Op, R>, t: Tid, op: Op)
    returns (step: Step<Op>, s': State<S, Op, R>)
    requires t in s.locals
    ensures step.t == t && Next(v, apply, s, step, s')
  {
    var l := s.locals[t];
    match l {
      case Outside => step := Call(t, op); s' := At(s, t, if v == Tas then Attempting(op) else Loading(op));
      case Loading(o) => step := Load(t); s' := At(s, t, if s.value == K_LOCKED then l else Attempting(o));
      case Attempting(o) =>
        step := Attempt(t);
        s' := if s.value == K_FREE then Acquired(s, t, o) else Refused(v, s, t, if v == Tas then l else Loading(o));
      case TryAttempting(o) =>
        step := Attempt(t);
        s' := if s.value == K_FREE then Acquired(s, t, o) else Refused(v, s, t, Outside);
      case Entered(o) => step := Fetch(t); s' := At(s, t, Fetched(o, s.data));
      case Fetched(o, snapshot) =>
        step := Finish(t);
        var after := apply(snapshot, o);
        s' := At(s, t, Finished(o, after.1)).(data := after.0, results := s.results + [after.1]);
      case Finished(o, r) => step := Unlock(t); s' := At(s, t, Outside).(value := K_FREE);
    }
  }

  /** The steps of one call by t that nobody disturbs; only the test-and-set lock goes without a load. */
  function SoloSteps<Op>(v: Variant, t: Tid, op: Op): seq<Step<Op>> {
    [Call(t, op)] + (if v == Tas then [] else [Load(t)]) + [Attempt(t), Fetch(t), Finish(t), Unlock(t)]
  }

  ghost predicate Follows<S, Op, R>(v: Variant, apply: (S, Op) -> (S, R),
                                    states: seq<State<S, Op, R>>, steps: seq<Step<Op>>)
  {
    |states| == |steps| + 1 && forall i | 0 <= i < |steps| :: Next(v, apply, states[i], steps[i], states[i + 1])
  }

  /** From the attempt on: acquire, read, store, release. */
  lemma SoloTail<S, Op, R>(v: Variant, apply: (S, Op) -> (S, R), s: State<S, Op, R>, t: Tid, op: Op)
    returns (taken: State<S, Op, R>, fetched: State<S, Op, R>, finished: State<S, Op, R>, last: State<S, Op, R>)
    requires t in s.locals && s.locals[t] == Outside && s.value == K_FREE
    ensures Next(v, apply, At(s, t, Attempting(op)), Attempt(t), taken) && Next(v, apply, taken, Fetch(t), fetched)
    ensures Next(v, apply, fetched, Finish(t), finished) && Next(v, apply, finished, Unlock(t), last)
    ensures
      var (data, result) := apply(s.data, op);
      last == s.(data := data, log := s.log + [(t, op)], results := s.results + [result])
  {
    var after := apply(s.data, op);
    taken := Acquired(At(s, t, Attempting(op)), t, op);
    fetched := At(taken, t, Fetched(op, s.data));
    finished := At(fetched, t, Finished(op, after.1)).(data := after.0, results := s.results + [after.1]);
    last := At(finished, t, Outside).(value := K_FREE);
    assert last.locals == s.locals;
  }

  lemma SoloHead<S, Op, R>(v: Variant, apply: (S, Op) -> (S, R), s: State<S, Op, R>, t: Tid, op: Op)
    requires t in s.locals && s.locals[t] == Outside && s.value == K_FREE
    ensures v == Tas ==> Next(v, apply, s, Call(t, op), At(s, t, Attempting(op)))
    ensures v != Tas ==>
      && Next(v, apply, s, Call(t, op), At(s, t, Loading(op)))
      && Next(v, apply, At(s, t, Loading(op)), Load(t), At(s, t, Attempting(op)))
  {
    assert At(At(s, t, Loading(op)), t, Attempting(op)) == At(s, t, Attempting(op));
  }

  /**
   Where the lock is free, a call of any of the three locks goes through by its own steps: it runs the operation on
   the object once, logs call and result and leaves the lock free and the threads as they were.
   */
  lemma SoloCall<S, Op, R>(v: Variant, apply: (S, Op) -> (S, R), s: State<S, Op, R>, t: Tid, op: Op)
    returns (states: seq<State<S, Op, R>>)
    requires t in s.locals && s.locals[t] == Outside && s.value == K_FREE
    ensures Follows(v, apply, states, SoloSteps(v, t, op)) && states[0] == s
    ensures
      var (data, result) := apply(s.data, op);
      states[|states| - 1] == s.(data := data, log := s.log + [(t, op)], results := s.results + [result])
  {
    SoloHead(v, apply, s, t, op);
    var taken, fetched, finished, last := SoloTail(v, apply, s, t, op);
    hide Next, At;
    if v == Tas {
      states := [s, At(s, t, Attempting(op)), taken, fetched, finished, last];
    } else {
      states := [s, At(s, t, Loading(op)), At(s, t, Attempting(op)), taken, fetched, finished, last];
    }
  }

  /** Where the lock is taken, try_lock fails and changes nothing, and a load in lock() goes on spinning. */
  lemma TakenRefuses<S, Op, R>(v: Variant, apply: (S, Op) -> (S, R), s: State<S, Op, R>, t: Tid, op: Op)
    requires t in s.locals && s.value == K_LOCKED
    ensures s.locals[t] == Outside ==>
      Follows(v, apply, [s, At(s, t, TryAttempting(op)), s], [CallTry(t, op), Attempt(t)])
    ensures s.locals[t] == Loading(op) ==> Next(v, apply, s, Load(t), s)
  {
    if s.locals[t] == Outside {
      assert At(At(s, t, TryAttempting(op)), t, Outside) == s;
    }
    if s.locals[t] == Loading(op) {
      assert At(s, t, Loading(op)) == s;
    }
  }
}
