/**
 dux::spin_lock under release/acquire (include/dux/spin_lock.h:112-152), in a semantics with timestamped messages
 and per-thread views, after section 31.4 of ISO/IEC 14882:2020. A store adds a message anywhere in the modification
 order after the storing thread's view, so a load can see an old value. A compare-exchange puts its message
 directly after the one it reads, and nothing comes between them later. A failed compare-exchange reads with the
 order of a successful one.
 */
module ViewLock {
  import opened Options

  type Tid = nat
  type Loc = nat
  type Time = real

  /** The lock message and, for each shared location, the write that a thread has last seen. */
  datatype View = View(lock: Time, data: map<Loc, Time>)

  /** A message of the lock word; `from` is the message that a compare-exchange has read. */
  datatype Message = Message(locked: bool, from: Option<Time>, view: View)

  datatype Pc = Outside | Loading | Attempting | TryAttempting | Inside

  datatype Thread = Thread(pc: Pc, view: View)

  /** `latest` is history: the value last written to each location in the order of the run. */
  datatype State = State(
    lock: map<Time, Message>, data: map<(Loc, Time), int>, threads: map<Tid, Thread>, latest: map<Loc, int>)

  datatype Step =
    | Call
    | CallTry
    | Load(at: Time)
    | Acquire(at: Time, to: Time)
    | Refused(at: Time)
    | Unlock(to: Time)
    | Read(loc: Loc, at: Time)
    | Write(loc: Loc, to: Time, value: int)

  /** Whether the successful compare-exchange acquires and the unlocking store releases, or both are relaxed. */
  datatype Orders = Orders(acquire: bool, release: bool)

  function JoinData(a: map<Loc, Time>, b: map<Loc, Time>): map<Loc, Time> {
    map x | x in a :: if x in b && b[x] > a[x] then b[x] else a[x]
  }

  /** The view that a relaxed store passes on. */
  function Nothing(data: map<Loc, Time>): map<Loc, Time> { map x | x in data :: 0.0 }

  function WithThread(s: State, t: Tid, th: Thread): State { s.(threads := s.threads[t := th]) }

  /** No message lies in (p, q] and no compare-exchange has reserved a part of it. */
  predicate Gap(lock: map<Time, Message>, p: Time, q: Time) {
    p < q && forall m | m in lock :: m <= p || (m > q && (lock[m].from.Some? ==> lock[m].from.value >= q))
  }

  /** A store may put its message at q: the place is unused and no compare-exchange has reserved it. */
  predicate Vacant(lock: map<Time, Message>, q: Time) {
    q !in lock && forall m | m in lock && lock[m].from.Some? :: !(lock[m].from.value < q <= m)
  }

  ghost predicate Next(o: Orders, s: State, t: Tid, step: Step, s': State) {
    t in s.threads &&
    var th := s.threads[t];
    var view := th.view;
    match step
    case Call => th.pc == Outside && s' == WithThread(s, t, th.(pc := Loading))
    case CallTry => th.pc == Outside && s' == WithThread(s, t, th.(pc := TryAttempting))
    case Load(at) =>
      && th.pc == Loading && at in s.lock && view.lock <= at
      && s' == WithThread(s, t, Thread(if s.lock[at].locked then Loading else Attempting, view.(lock := at)))
    case Acquire(at, to) =>
      && (th.pc == Attempting || th.pc == TryAttempting)
      && at in s.lock && view.lock <= at && !s.lock[at].locked && Gap(s.lock, at, to)
      && var read := s.lock[at];
         var data := if o.acquire then JoinData(view.data, read.view.data) else view.data;
         s' == WithThread(s, t, Thread(Inside, View(to, data)))
               .(lock := s.lock[to := Message(true, Some(at), View(to, read.view.data))])
    case Refused(at) =>
      && (th.pc == Attempting || th.pc == TryAttempting)
      && at in s.lock && view.lock <= at && s.lock[at].locked
      && var data := if o.acquire then JoinData(view.data, s.lock[at].view.data) else view.data;
         s' == WithThread(s, t, Thread(if th.pc == Attempting then Loading else Outside, View(at, data)))
    case Unlock(to) =>
      && th.pc == Inside && view.lock < to && Vacant(s.lock, to)
      && var told := View(to, if o.release then view.data else Nothing(view.data));
         s' == WithThread(s, t, Thread(Outside, view.(lock := to))).(lock := s.lock[to := Message(false, None, told)])
    case Read(x, at) =>
      && th.pc == Inside && x in view.data && (x, at) in s.data && view.data[x] <= at
      && s' == WithThread(s, t, th.(view := view.(data := view.data[x := at])))
    case Write(x, to, value) =>
      && th.pc == Inside && x in view.data && view.data[x] < to && (x, to) !in s.data
      && s' == WithThread(s, t, th.(view := view.(data := view.data[x := to])))
               .(data := s.data[(x, to) := value], latest := s.latest[x := value])
  }

  ghost predicate Init(s: State) {
    && s.lock.Keys == {0.0} && !s.lock[0.0].locked && s.lock[0.0].from == None
    && s.lock[0.0].view.data.Keys == s.latest.Keys
    && (forall x | x in s.latest ::
          s.lock[0.0].view.data[x] == 0.0 && (x, 0.0) in s.data && s.data[(x, 0.0)] == s.latest[x])
    && (forall k | k in s.data :: k.1 == 0.0 && k.0 in s.latest)
    && (forall t | t in s.threads :: s.threads[t] == Thread(Outside, View(0.0, s.lock[0.0].view.data)))
  }

  ghost predicate IsRun(o: Orders, states: seq<State>, tids: seq<Tid>, steps: seq<Step>) {
    && |states| == |steps| + 1 && |tids| == |steps| && Init(states[0])
    && forall i | 0 <= i < |steps| :: Next(o, states[i], tids[i], steps[i], states[i + 1])
  }

  // The invariant

  type Memory = map<(Loc, Time), int>

  /** The view has every write of every location, and the last one carries the latest value. */
  ghost predicate Complete(data: Memory, latest: map<Loc, int>, view: map<Loc, Time>) {
    && view.Keys == latest.Keys
    && (forall k | k in data :: k.0 in view && k.1 <= view[k.0])
    && (forall x | x in view :: (x, view[x]) in data && data[(x, view[x])] == latest[x])
  }

  /** The view speaks about the shared locations and claims no write that has not happened. */
  ghost predicate Sound(data: Memory, latest: map<Loc, int>, view: map<Loc, Time>) {
    view.Keys == latest.Keys && forall x | x in view :: (x, view[x]) in data
  }

  ghost predicate ViewsSound(s: State) {
    && (forall t | t in s.threads :: Sound(s.data, s.latest, s.threads[t].view.data))
    && (forall m | m in s.lock :: Sound(s.data, s.latest, s.lock[m].view.data))
  }

  /** `top` is the last message; every other free message has been taken by the compare-exchange right after it. */
  ghost predicate Chain(lock: map<Time, Message>, top: Time) {
    && top in lock && (forall m | m in lock :: m <= top)
    && (forall m | m in lock && !lock[m].locked && m != top :: exists n :: n in lock && n > m && lock[n].from == Some(m))
  }

  ghost predicate SomeInside(threads: map<Tid, Thread>) { exists t :: t in threads && threads[t].pc == Inside }

  ghost predicate OneInside(threads: map<Tid, Thread>) {
    forall t, u | t in threads && u in threads && threads[t].pc == Inside && threads[u].pc == Inside :: t == u
  }

  /** While the last message is kFree its view is complete; a thread inside has seen it and has a complete view. */
  ghost predicate Ownership(s: State, top: Time)
    requires top in s.lock
  {
    && OneInside(s.threads) && (s.lock[top].locked <==> SomeInside(s.threads))
    && (!s.lock[top].locked ==> Complete(s.data, s.latest, s.lock[top].view.data))
    && (forall t | t in s.threads && s.threads[t].pc == Inside ::
          s.threads[t].view.lock == top && Complete(s.data, s.latest, s.threads[t].view.data))
  }

  ghost predicate Inv(s: State, top: Time) {
    top in s.lock && Chain(s.lock, top) && Ownership(s, top) && ViewsSound(s)
  }

  lemma InitInv(s: State)
    requires Init(s)
    ensures Inv(s, 0.0)
  {
  }

  const ACQ_REL := Orders(true, true)

  /** A successful compare-exchange always reads the last message: every earlier free one has been taken. */
  lemma AcquireReadsLast(lock: map<Time, Message>, top: Time, at: Time, to: Time)
    requires Chain(lock, top) && at in lock && !lock[at].locked && Gap(lock, at, to)
    ensures at == top
  {
  }

  lemma AcquireChain(lock: map<Time, Message>, top: Time, to: Time, m: Message)
    requires Chain(lock, top) && top < to && m.locked && m.from == Some(top)
    ensures Chain(lock[to := m], to)
  {
    var lock' := lock[to := m];
    forall k | k in lock' && !lock'[k].locked && k != to
      ensures exists n :: n in lock' && n > k && lock'[n].from == Some(k)
    {
      if k == top {
        assert lock'[to].from == Some(k);
      } else {
        var n :| n in lock && n > k && lock[n].from == Some(k);
        assert lock'[n].from == Some(k);
      }
    }
  }

  lemma UnlockChain(lock: map<Time, Message>, top: Time, to: Time, m: Message)
    requires Chain(lock, top) && lock[top].locked && top < to && !m.locked
    ensures Chain(lock[to := m], to)
  {
    var lock' := lock[to := m];
    forall k | k in lock' && !lock'[k].locked && k != to
      ensures exists n :: n in lock' && n > k && lock'[n].from == Some(k)
    {
      assert k != top;
      var n :| n in lock && n > k && lock[n].from == Some(k);
      assert lock'[n].from == Some(k);
    }
  }

  lemma JoinComplete(data: Memory, latest: map<Loc, int>, a: map<Loc, Time>, b: map<Loc, Time>)
    requires Sound(data, latest, a) && Sound(data, latest, b)
    ensures Sound(data, latest, JoinData(a, b))
    ensures Complete(data, latest, b) ==> Complete(data, latest, JoinData(a, b))
  {
    if Complete(data, latest, b) {
      forall x | x in a ensures a[x] <= b[x] {
        assert (x, a[x]) in data;
      }
      assert JoinData(a, b) == b;
    }
  }

  lemma InsideAfter(threads: map<Tid, Thread>, t: Tid, th: Thread)
    requires OneInside(threads) && t in threads
    ensures var threads' := threads[t := th];
      && ((th.pc == Inside <==> threads[t].pc == Inside) ==>
            OneInside(threads') && (SomeInside(threads') <==> SomeInside(threads)))
      && (th.pc == Inside && !SomeInside(threads) ==> OneInside(threads') && SomeInside(threads'))
      && (th.pc != Inside && threads[t].pc == Inside ==> OneInside(threads') && !SomeInside(threads'))
  {
    var threads' := threads[t := th];
    if u :| u in threads && threads[u].pc == Inside && u != t {
      assert threads'[u].pc == Inside;
    }
    if th.pc == Inside {
      assert threads'[t].pc == Inside;
    }
  }

  lemma AcquireEffect(s: State, top: Time, t: Tid, step: Step, s': State)
    requires Inv(s, top) && Next(ACQ_REL, s, t, step, s') && step.Acquire?
    ensures step.at == top && top < step.to && !s.lock[top].locked && t in s.threads
    ensures
      var told := s.lock[top].view.data;
      && s'.lock == s.lock[step.to := Message(true, Some(top), View(step.to, told))]
      && s'.threads == s.threads[t := Thread(Inside, View(step.to, JoinData(s.threads[t].view.data, told)))]
      && s'.data == s.data && s'.latest == s.latest
  {
    AcquireReadsLast(s.lock, top, step.at, step.to);
  }

  lemma NobodyInside(s: State, t: Tid)
    requires OneInside(s.threads) && t in s.threads
    ensures !SomeInside(s.threads) || s.threads[t].pc == Inside ==>
      forall u | u in s.threads && u != t :: s.threads[u].pc != Inside
  {
  }

  lemma AcquireInv(s: State, top: Time, t: Tid, step: Step, s': State)
    requires Inv(s, top) && Next(ACQ_REL, s, t, step, s') && step.Acquire?
    ensures Inv(s', step.to)
  {
    AcquireEffect(s, top, t, step, s');
    hide Next, Chain, Complete, Sound, JoinData, OneInside, SomeInside;
    AcquireChain(s.lock, top, step.to, s'.lock[step.to]);
    JoinComplete(s.data, s.latest, s.threads[t].view.data, s.lock[top].view.data);
    InsideAfter(s.threads, t, s'.threads[t]);
    NobodyInside(s, t);
  }

  lemma UnlockInv(s: State, top: Time, t: Tid, step: Step, s': State)
    requires Inv(s, top) && Next(ACQ_REL, s, t, step, s') && step.Unlock?
    ensures Inv(s', step.to)
  {
    InsideAfter(s.threads, t, s'.threads[t]);
    NobodyInside(s, t);
    assert SomeInside(s.threads);
    UnlockChain(s.lock, top, step.to, s'.lock[step.to]);
    hide Chain, Complete, Sound, OneInside, SomeInside;
  }

  /** A step of t that leaves the lock's messages alone and t inside or outside as it was. */
  ghost predicate Quiet(s: State, t: Tid, s': State) {
    && t in s.threads && t in s'.threads && s'.threads == s.threads[t := s'.threads[t]] && s'.lock == s.lock
    && (s'.threads[t].pc == Inside <==> s.threads[t].pc == Inside)
  }

  /** Calls, loads and failed attempts: a thread outside stays outside, with a sound view. */
  lemma OutsideEffect(s: State, t: Tid, step: Step, s': State)
    requires ViewsSound(s) && Next(ACQ_REL, s, t, step, s')
    requires step.Call? || step.CallTry? || step.Load? || step.Refused?
    ensures Quiet(s, t, s') && s'.data == s.data && s'.latest == s.latest && s'.threads[t].pc != Inside
    ensures Sound(s'.data, s'.latest, s'.threads[t].view.data)
  {
    if step.Refused? {
      JoinComplete(s.data, s.latest, s.threads[t].view.data, s.lock[step.at].view.data);
    }
    hide JoinData, Sound;
    assert Sound(s.data, s.latest, s.threads[t].view.data);
  }

  lemma OutsideInv(s: State, top: Time, t: Tid, step: Step, s': State)
    requires Inv(s, top) && Next(ACQ_REL, s, t, step, s')
    requires step.Call? || step.CallTry? || step.Load? || step.Refused?
    ensures Inv(s', top)
  {
    OutsideEffect(s, t, step, s');
    InsideAfter(s.threads, t, s'.threads[t]);
    hide Next, Chain, Complete, Sound, OneInside, SomeInside;
  }

  lemma InsideIs(s: State, top: Time, t: Tid, step: Step, s': State)
    requires Inv(s, top) && Next(ACQ_REL, s, t, step, s') && (step.Read? || step.Write?)
    ensures t in s.threads && s.threads[t].pc == Inside && SomeInside(s.threads)
  {
  }

  lemma DataComplete(s: State, t: Tid, step: Step, s': State)
    requires Next(ACQ_REL, s, t, step, s') && (step.Read? || step.Write?)
    requires Complete(s.data, s.latest, s.threads[t].view.data)
    ensures Complete(s'.data, s'.latest, s'.threads[t].view.data)
  {
  }

  lemma DataEffect(s: State, t: Tid, step: Step, s': State)
    requires Next(ACQ_REL, s, t, step, s') && (step.Read? || step.Write?)
    requires Complete(s.data, s.latest, s.threads[t].view.data)
    ensures Quiet(s, t, s') && s'.threads[t].pc == Inside && s'.threads[t].view.lock == s.threads[t].view.lock
    ensures s'.data.Keys >= s.data.Keys && s'.latest.Keys == s.latest.Keys
    ensures Complete(s'.data, s'.latest, s'.threads[t].view.data)
  {
    DataComplete(s, t, step, s');
    hide Complete;
  }

  lemma SoundAfter(s: State, t: Tid, s': State)
    requires s'.data.Keys >= s.data.Keys && s'.latest.Keys == s.latest.Keys && ViewsSound(s) && Quiet(s, t, s')
    requires Sound(s'.data, s'.latest, s'.threads[t].view.data) || Complete(s'.data, s'.latest, s'.threads[t].view.data)
    ensures ViewsSound(s')
  {
    forall u | u in s'.threads ensures Sound(s'.data, s'.latest, s'.threads[u].view.data) {
      if u != t { assert Sound(s.data, s.latest, s.threads[u].view.data); }
    }
    forall m | m in s'.lock ensures Sound(s'.data, s'.latest, s'.lock[m].view.data) {
      assert Sound(s.data, s.latest, s.lock[m].view.data);
    }
  }

  /** A read or write inside keeps the reader's or writer's view complete and every other view sound. */
  lemma DataInv(s: State, top: Time, t: Tid, step: Step, s': State)
    requires Inv(s, top) && Next(ACQ_REL, s, t, step, s') && (step.Read? || step.Write?)
    ensures Inv(s', top)
  {
    hide Next, Chain, Complete, Sound, OneInside, SomeInside;
    InsideIs(s, top, t, step, s');
    DataEffect(s, t, step, s');
    SoundAfter(s, t, s');
    InsideAfter(s.threads, t, s'.threads[t]);
    NobodyInside(s, t);
  }

  ghost function TopAfter(top: Time, step: Step): Time {
    if step.Acquire? || step.Unlock? then step.to else top
  }

  lemma NextInv(s: State, top: Time, t: Tid, step: Step, s': State)
    requires Inv(s, top) && Next(ACQ_REL, s, t, step, s')
    ensures Inv(s', TopAfter(top, step))
  {
    hide Inv, Next;
    if step.Acquire? {
      AcquireInv(s, top, t, step, s');
    } else if step.Unlock? {
      UnlockInv(s, top, t, step, s');
    } else if step.Read? || step.Write? {
      DataInv(s, top, t, step, s');
    } else {
      OutsideInv(s, top, t, step, s');
    }
  }

  lemma {:induction false} RunInv(states: seq<State>, tids: seq<Tid>, steps: seq<Step>, i: nat) returns (top: Time)
    requires IsRun(ACQ_REL, states, tids, steps) && i < |states|
    ensures Inv(states[i], top)
  {
    hide Inv, Next;
    if i == 0 {
      InitInv(states[0]);
      top := 0.0;
    } else {
      var before := RunInv(states, tids, steps, i - 1);
      NextInv(states[i - 1], before, tids[i - 1], steps[i - 1], states[i]);
      top := TopAfter(before, steps[i - 1]);
    }
  }

  /** At most one thread is inside, although loads may see old values of the lock word. */
  lemma ViewsExclude(states: seq<State>, tids: seq<Tid>, steps: seq<Step>, i: nat, t: Tid, u: Tid)
    requires IsRun(ACQ_REL, states, tids, steps) && i < |states|
    requires t in states[i].threads && states[i].threads[t].pc == Inside
    requires u in states[i].threads && states[i].threads[u].pc == Inside
    ensures t == u
  {
    var top := RunInv(states, tids, steps, i);
  }

  /** The value that the first i steps have last written to x, or the one it had at the start. */
  function LastWritten(start: map<Loc, int>, steps: seq<Step>, i: nat, x: Loc): int
    requires i <= |steps| && x in start
  {
    if i == 0 then start[x]
    else if steps[i - 1].Write? && steps[i - 1].loc == x then steps[i - 1].value
    else LastWritten(start, steps, i - 1, x)
  }

  /** Every view speaks about the shared locations of the start. */
  ghost predicate Known(s: State, locs: set<Loc>) {
    s.latest.Keys == locs && forall t | t in s.threads :: s.threads[t].view.data.Keys == locs
  }

  lemma NextKnown(o: Orders, s: State, t: Tid, step: Step, s': State, locs: set<Loc>)
    requires Known(s, locs) && Next(o, s, t, step, s')
    ensures Known(s', locs)
    ensures step.Write? ==> step.loc in s.latest && s'.latest == s.latest[step.loc := step.value]
    ensures !step.Write? ==> s'.latest == s.latest
  {
    forall u | u in s.threads && u != t ensures u in s'.threads && s'.threads[u] == s.threads[u] {}
  }

  lemma RunStep(o: Orders, states: seq<State>, tids: seq<Tid>, steps: seq<Step>, i: nat)
    requires IsRun(o, states, tids, steps) && i < |steps|
    ensures |states| == |steps| + 1 && |tids| == |steps| && Next(o, states[i], tids[i], steps[i], states[i + 1])
  {
  }

  lemma StartKnown(s: State)
    requires Init(s)
    ensures Known(s, s.latest.Keys)
  {
  }

  lemma SameLocations(s: State, locs: set<Loc>)
    requires Known(s, locs)
    ensures s.latest.Keys == locs
  {
  }

  /** The history of the state is that of the steps, whatever the memory orders. */
  lemma {:induction false} LatestIsLastWritten(o: Orders, states: seq<State>, tids: seq<Tid>, steps: seq<Step>, i: nat)
    requires IsRun(o, states, tids, steps) && i < |states|
    ensures Known(states[i], states[0].latest.Keys)
    ensures forall x | x in states[i].latest :: states[i].latest[x] == LastWritten(states[0].latest, steps, i, x)
    decreases i
  {
    hide Next, Init;
    if i == 0 {
      StartKnown(states[0]);
    } else {
      hide Known;
      LatestIsLastWritten(o, states, tids, steps, i - 1);
      RunStep(o, states, tids, steps, i - 1);
      NextKnown(o, states[i - 1], tids[i - 1], steps[i - 1], states[i], states[0].latest.Keys);
      SameLocations(states[i], states[0].latest.Keys);
      SameLocations(states[i - 1], states[0].latest.Keys);
    }
  }

  lemma ReadsLatest(s: State, top: Time, t: Tid, step: Step, s': State)
    requires Inv(s, top) && Next(ACQ_REL, s, t, step, s') && step.Read?
    ensures
      && step.loc in s.latest && (step.loc, step.at) in s.data
      && s.data[(step.loc, step.at)] == s.latest[step.loc]
  {
    assert Complete(s.data, s.latest, s.threads[t].view.data);
  }

  lemma InsideIsComplete(s: State, top: Time, t: Tid)
    requires Inv(s, top) && t in s.threads && s.threads[t].pc == Inside
    ensures Complete(s.data, s.latest, s.threads[t].view.data)
  {
  }

  /**
   A thread inside sees every write made in earlier critical sections: its view includes every write to every
   location, and every read that it makes returns the value that the steps before it have last written.
   */
  lemma InsideSeesAll(states: seq<State>, tids: seq<Tid>, steps: seq<Step>, i: nat, t: Tid)
    requires IsRun(ACQ_REL, states, tids, steps) && i < |states|
    requires t in states[i].threads && states[i].threads[t].pc == Inside
    ensures Complete(states[i].data, states[i].latest, states[i].threads[t].view.data)
    ensures i < |steps| && tids[i] == t && steps[i].Read? ==>
              && steps[i].loc in states[0].latest && (steps[i].loc, steps[i].at) in states[i].data
              && states[i].data[(steps[i].loc, steps[i].at)] == LastWritten(states[0].latest, steps, i, steps[i].loc)
  {
    var top := RunInv(states, tids, steps, i);
    LatestIsLastWritten(ACQ_REL, states, tids, steps, i);
    hide Next, Init, Inv, Complete, LastWritten;
    InsideIsComplete(states[i], top, t);
    if i < |steps| && steps[i].Read? {
      RunStep(ACQ_REL, states, tids, steps, i);
      ReadsLatest(states[i], top, tids[i], steps[i], states[i + 1]);
    }
  }

  // No thread goes back behind what it has seen, whatever the memory orders

  ghost predicate Grows(v: View, w: View) {
    v.lock <= w.lock && forall x | x in v.data :: x in w.data && v.data[x] <= w.data[x]
  }

  lemma NextGrows(o: Orders, s: State, t: Tid, step: Step, s': State, u: Tid)
    requires Next(o, s, t, step, s') && u in s.threads
    ensures u in s'.threads && Grows(s.threads[u].view, s'.threads[u].view)
  {
  }

  lemma {:induction false} ViewsGrow(o: Orders, states: seq<State>, tids: seq<Tid>, steps: seq<Step>,
                                     u: Tid, i: nat, j: nat)
    requires IsRun(o, states, tids, steps) && i <= j < |states| && u in states[i].threads
    ensures u in states[j].threads && Grows(states[i].threads[u].view, states[j].threads[u].view)
    decreases j
  {
    hide Next, Init;
    if i < j {
      ViewsGrow(o, states, tids, steps, u, i, j - 1);
      RunStep(o, states, tids, steps, j - 1);
      NextGrows(o, states[j - 1], tids[j - 1], steps[j - 1], states[j], u);
    }
  }

  lemma SeesStep(o: Orders, s: State, t: Tid, step: Step, s': State)
    requires Next(o, s, t, step, s')
    ensures t in s.threads && t in s'.threads
    ensures step.Read? ==> step.loc in s.threads[t].view.data && step.loc in s'.threads[t].view.data
    ensures step.Read? ==> s.threads[t].view.data[step.loc] <= step.at == s'.threads[t].view.data[step.loc]
    ensures step.Load? ==> s.threads[t].view.lock <= step.at == s'.threads[t].view.lock
  {
  }

  /** Of two reads of a location by one thread the later one returns no older write; likewise for its loads. */
  lemma ReadsAreCoherent(o: Orders, states: seq<State>, tids: seq<Tid>, steps: seq<Step>, i: nat, j: nat)
    requires IsRun(o, states, tids, steps) && i < j < |steps| && tids[i] == tids[j]
    ensures steps[i].Read? && steps[j].Read? && steps[i].loc == steps[j].loc ==> steps[i].at <= steps[j].at
    ensures steps[i].Load? && steps[j].Load? ==> steps[i].at <= steps[j].at
  {
    hide Next, Init;
    RunStep(o, states, tids, steps, i);
    RunStep(o, states, tids, steps, j);
    SeesStep(o, states[i], tids[i], steps[i], states[i + 1]);
    SeesStep(o, states[j], tids[j], steps[j], states[j + 1]);
    ViewsGrow(o, states, tids, steps, tids[i], i + 1, j);
  }

  // A failed compare-exchange acquires as well

  lemma NextKeepsMessages(o: Orders, s: State, t: Tid, step: Step, s': State)
    requires Next(o, s, t, step, s')
    ensures forall m | m in s.lock :: m in s'.lock && s'.lock[m] == s.lock[m]
  {
  }

  lemma {:induction false} MessagesStay(o: Orders, states: seq<State>, tids: seq<Tid>, steps: seq<Step>,
                                        m: Time, k: nat, n: nat)
    requires IsRun(o, states, tids, steps) && k <= n < |states| && m in states[k].lock
    ensures m in states[n].lock && states[n].lock[m] == states[k].lock[m]
    decreases n
  {
    hide Next, Init;
    if k < n {
      MessagesStay(o, states, tids, steps, m, k, n - 1);
      RunStep(o, states, tids, steps, n - 1);
      NextKeepsMessages(o, states[n - 1], tids[n - 1], steps[n - 1], states[n]);
    }
  }

  /** The view has every write in the memory. */
  ghost predicate Covers(view: map<Loc, Time>, data: Memory) {
    forall k | k in data :: k.0 in view && k.1 <= view[k.0]
  }

  lemma AcquirePassesOn(s: State, top: Time, t: Tid, step: Step, s': State)
    requires Inv(s, top) && Next(ACQ_REL, s, t, step, s') && step.Acquire?
    ensures step.to in s'.lock && Covers(s'.lock[step.to].view.data, s.data)
  {
    AcquireEffect(s, top, t, step, s');
    assert Complete(s.data, s.latest, s.lock[top].view.data);
  }

  lemma RefusedJoins(s: State, t: Tid, step: Step, s': State, data: Memory)
    requires Known(s, s.latest.Keys) && Next(ACQ_REL, s, t, step, s') && step.Refused?
    requires step.at in s.lock && Covers(s.lock[step.at].view.data, data) && forall k | k in data :: k.0 in s.latest
    ensures t in s'.threads && Covers(s'.threads[t].view.data, data)
  {
  }

  lemma WritesKnown(s: State, top: Time)
    requires Inv(s, top)
    ensures forall k | k in s.data :: k.0 in s.latest
  {
    if SomeInside(s.threads) {
      var t :| t in s.threads && s.threads[t].pc == Inside;
      assert Complete(s.data, s.latest, s.threads[t].view.data);
    } else {
      assert Complete(s.data, s.latest, s.lock[top].view.data);
    }
  }

  /** A thread refused because of an acquisition has seen every write made before that acquisition. */
  lemma RefusedSeesEarlier(states: seq<State>, tids: seq<Tid>, steps: seq<Step>, k: nat, n: nat)
    requires IsRun(ACQ_REL, states, tids, steps) && k < n < |steps|
    requires steps[k].Acquire? && steps[n].Refused? && steps[n].at == steps[k].to
    ensures tids[n] in states[n + 1].threads && Covers(states[n + 1].threads[tids[n]].view.data, states[k].data)
  {
    var top := RunInv(states, tids, steps, k);
    RunStep(ACQ_REL, states, tids, steps, k);
    RunStep(ACQ_REL, states, tids, steps, n);
    LatestIsLastWritten(ACQ_REL, states, tids, steps, k);
    LatestIsLastWritten(ACQ_REL, states, tids, steps, n);
    hide Next, Init, Inv, LastWritten;
    WritesKnown(states[k], top);
    AcquirePassesOn(states[k], top, tids[k], steps[k], states[k + 1]);
    MessagesStay(ACQ_REL, states, tids, steps, steps[k].to, k + 1, n);
    hide Covers;
    SameLocations(states[k], states[0].latest.Keys);
    SameLocations(states[n], states[0].latest.Keys);
    RefusedJoins(states[n], tids[n], steps[n], states[n + 1], states[k].data);
  }

  // Failed attempts inside lock(), with loads of old values

  /** Threads have seen messages that exist, and attempt only after a message that says kFree. */
  ghost predicate AttemptsOnFree(s: State) {
    forall t | t in s.threads ::
      var th := s.threads[t];
      th.view.lock in s.lock && (th.pc == Attempting ==> !s.lock[th.view.lock].locked)
  }

  ghost function Locked(lock: map<Time, Message>): set<Time> { set m | m in lock && lock[m].locked }

  /** The acquisitions that a thread has seen, or that were before those in the modification order. */
  ghost function LockedUpTo(lock: map<Time, Message>, seen: Time): set<Time> { set m | m in Locked(lock) && m <= seen }

  predicate IsAcquireOf(t: Tid, step: Step, u: Tid) { step.Acquire? && t == u }

  ghost predicate IsFailureOf(s: State, t: Tid, step: Step, u: Tid) {
    step.Refused? && t == u && u in s.threads && s.threads[u].pc == Attempting
  }

  ghost function Failures(states: seq<State>, tids: seq<Tid>, steps: seq<Step>, u: Tid, n: nat): nat
    requires n <= |steps| && |steps| == |tids| < |states|
  {
    if n == 0 then 0
    else
      Failures(states, tids, steps, u, n - 1) + if IsFailureOf(states[n - 1], tids[n - 1], steps[n - 1], u) then 1 else 0
  }

  function OwnAcquires(tids: seq<Tid>, steps: seq<Step>, u: Tid, n: nat): nat
    requires n <= |steps| == |tids|
  {
    if n == 0 then 0
    else OwnAcquires(tids, steps, u, n - 1) + if IsAcquireOf(tids[n - 1], steps[n - 1], u) then 1 else 0
  }

  function OtherAcquires(tids: seq<Tid>, steps: seq<Step>, u: Tid, n: nat): nat
    requires n <= |steps| == |tids|
  {
    if n == 0 then 0
    else OtherAcquires(tids, steps, u, n - 1) + if steps[n - 1].Acquire? && tids[n - 1] != u then 1 else 0
  }

  lemma NextAttemptsOnFree(o: Orders, s: State, t: Tid, step: Step, s': State)
    requires AttemptsOnFree(s) && Next(o, s, t, step, s')
    ensures AttemptsOnFree(s') && s'.threads.Keys == s.threads.Keys
  {
    NextKeepsMessages(o, s, t, step, s');
    forall u | u in s.threads && u != t ensures s'.threads[u] == s.threads[u] {}
  }

  lemma AcquireIsNew(o: Orders, s: State, t: Tid, step: Step, s': State)
    requires Next(o, s, t, step, s')
    ensures Locked(s'.lock) == Locked(s.lock) + if step.Acquire? then {step.to} else {}
    ensures step.Acquire? ==> step.to !in s.lock
  {
  }

  /** Both an acquire and a failed attempt of u bring it to an acquisition that it has not seen before. */
  lemma SeesMore(o: Orders, s: State, t: Tid, step: Step, s': State, u: Tid)
    requires AttemptsOnFree(s) && Next(o, s, t, step, s') && u in s.threads && u in s'.threads
    ensures s.threads[u].view.lock <= s'.threads[u].view.lock
    ensures IsAcquireOf(t, step, u) || IsFailureOf(s, t, step, u) ==>
      var m := if step.Acquire? then step.to else step.at;
      m in Locked(s'.lock) && s.threads[u].view.lock < m <= s'.threads[u].view.lock
  {
  }

  lemma {:induction false} SubsetCount(a: set<Time>, b: set<Time>)
    requires a <= b
    ensures |a| <= |b|
  {
    assert b == a + (b - a);
  }

  lemma CountsMore(o: Orders, s: State, t: Tid, step: Step, s': State, u: Tid)
    requires AttemptsOnFree(s) && Next(o, s, t, step, s') && u in s.threads && u in s'.threads
    ensures |LockedUpTo(s'.lock, s'.threads[u].view.lock)|
         >= |LockedUpTo(s.lock, s.threads[u].view.lock)|
            + if IsAcquireOf(t, step, u) || IsFailureOf(s, t, step, u) then 1 else 0
    ensures |Locked(s'.lock)| == |Locked(s.lock)| + if step.Acquire? then 1 else 0
  {
    SeesMore(o, s, t, step, s', u);
    AcquireIsNew(o, s, t, step, s');
    hide Next, AttemptsOnFree;
    var before, after := LockedUpTo(s.lock, s.threads[u].view.lock), LockedUpTo(s'.lock, s'.threads[u].view.lock);
    assert before <= after;
    if IsAcquireOf(t, step, u) || IsFailureOf(s, t, step, u) {
      var m := if step.Acquire? then step.to else step.at;
      assert m in after - before;
      SubsetCount(before + {m}, after);
    } else {
      SubsetCount(before, after);
    }
  }

  lemma {:induction false} CountSeen(o: Orders, states: seq<State>, tids: seq<Tid>, steps: seq<Step>, u: Tid, n: nat)
    requires IsRun(o, states, tids, steps) && n < |states| && u in states[0].threads
    ensures AttemptsOnFree(states[n]) && u in states[n].threads
    ensures Failures(states, tids, steps, u, n) + OwnAcquires(tids, steps, u, n)
         <= |LockedUpTo(states[n].lock, states[n].threads[u].view.lock)|
    ensures |Locked(states[n].lock)| == OwnAcquires(tids, steps, u, n) + OtherAcquires(tids, steps, u, n)
    decreases n
  {
    if n == 0 {
      assert Locked(states[0].lock) == {};
    } else {
      hide Next, AttemptsOnFree, LockedUpTo, Locked, IsFailureOf;
      CountSeen(o, states, tids, steps, u, n - 1);
      RunStep(o, states, tids, steps, n - 1);
      NextAttemptsOnFree(o, states[n - 1], tids[n - 1], steps[n - 1], states[n]);
      CountsMore(o, states[n - 1], tids[n - 1], steps[n - 1], states[n], u);
    }
  }

  /**
   However old the values that its relaxed loads return, and whatever the memory orders, a thread fails inside
   lock() at most as often as other threads have acquired the lock since the start.
   */
  lemma FailuresBounded(o: Orders, states: seq<State>, tids: seq<Tid>, steps: seq<Step>, u: Tid, n: nat)
    requires IsRun(o, states, tids, steps) && n < |states| && u in states[0].threads
    ensures Failures(states, tids, steps, u, n) <= OtherAcquires(tids, steps, u, n)
  {
    CountSeen(o, states, tids, steps, u, n);
    SubsetCount(LockedUpTo(states[n].lock, states[n].threads[u].view.lock), Locked(states[n].lock));
  }

  // Both orders are needed: a run in which thread 0 writes inside the lock and thread 1 then reads inside it

  const UNSEEN: map<Loc, Time> := map[0 := 0.0]

  const STALE_STEPS := [CallTry, Acquire(0.0, 1.0), Write(0, 1.0, 7), Unlock(2.0), CallTry, Acquire(2.0, 3.0)]

  function Told(o: Orders): map<Loc, Time> { if o.release then UNSEEN[0 := 1.0] else UNSEEN }

  function Stale0(): State {
    var idle := Thread(Outside, View(0.0, UNSEEN));
    State(map[0.0 := Message(false, None, View(0.0, UNSEEN))], map[(0, 0.0) := 0], map[0 := idle, 1 := idle], map[0 := 0])
  }

  function Stale1(): State { WithThread(Stale0(), 0, Thread(TryAttempting, View(0.0, UNSEEN))) }

  function Stale2(): State {
    WithThread(Stale1(), 0, Thread(Inside, View(1.0, UNSEEN)))
      .(lock := Stale1().lock[1.0 := Message(true, Some(0.0), View(1.0, UNSEEN))])
  }

  function Stale3(): State {
    WithThread(Stale2(), 0, Thread(Inside, View(1.0, UNSEEN[0 := 1.0])))
      .(data := Stale2().data[(0, 1.0) := 7], latest := Stale2().latest[0 := 7])
  }

  function Stale4(o: Orders): State {
    WithThread(Stale3(), 0, Thread(Outside, View(2.0, UNSEEN[0 := 1.0])))
      .(lock := Stale3().lock[2.0 := Message(false, None, View(2.0, Told(o)))])
  }

  function Stale5(o: Orders): State { WithThread(Stale4(o), 1, Thread(TryAttempting, View(0.0, UNSEEN))) }

  /** What the reader has seen after its acquire. */
  function Seen(o: Orders): map<Loc, Time> { if o == ACQ_REL then UNSEEN[0 := 1.0] else UNSEEN }

  function Stale6(o: Orders): State {
    WithThread(Stale5(o), 1, Thread(Inside, View(3.0, Seen(o))))
      .(lock := Stale5(o).lock[3.0 := Message(true, Some(2.0), View(3.0, Told(o)))])
  }

  lemma StaleEnter(o: Orders)
    ensures Init(Stale0()) && Next(o, Stale0(), 0, CallTry, Stale1())
    ensures Next(o, Stale1(), 0, Acquire(0.0, 1.0), Stale2())
  {
    assert JoinData(UNSEEN, UNSEEN) == UNSEEN;
  }

  lemma StaleWrite(o: Orders)
    ensures Next(o, Stale2(), 0, Write(0, 1.0, 7), Stale3())
  {
  }

  lemma StaleUnlock(o: Orders)
    ensures Next(o, Stale3(), 0, Unlock(2.0), Stale4(o))
  {
    var view := UNSEEN[0 := 1.0];
    assert Stale3().threads[0] == Thread(Inside, View(1.0, view));
    assert Nothing(view) == UNSEEN;
  }

  lemma StaleReader(o: Orders)
    ensures Next(o, Stale4(o), 1, CallTry, Stale5(o))
    ensures Next(o, Stale5(o), 1, Acquire(2.0, 3.0), Stale6(o))
  {
    assert Stale4(o).threads[1] == Thread(Outside, View(0.0, UNSEEN));
    assert Stale5(o).threads[1] == Thread(TryAttempting, View(0.0, UNSEEN));
    assert JoinData(UNSEEN, UNSEEN) == UNSEEN;
    assert JoinData(UNSEEN, UNSEEN[0 := 1.0]) == UNSEEN[0 := 1.0];
  }

  lemma WritesSeven()
    ensures LastWritten(map[0 := 0], STALE_STEPS, |STALE_STEPS|, 0) == 7
  {
    assert LastWritten(map[0 := 0], STALE_STEPS, 3, 0) == 7;
    assert LastWritten(map[0 := 0], STALE_STEPS, 5, 0) == LastWritten(map[0 := 0], STALE_STEPS, 4, 0) == 7;
  }

  lemma HandoverRun(o: Orders) returns (states: seq<State>, tids: seq<Tid>, steps: seq<Step>)
    ensures IsRun(o, states, tids, steps) && states[|steps|] == Stale6(o)
    ensures states[0].latest == map[0 := 0] && LastWritten(states[0].latest, steps, |steps|, 0) == 7
  {
    assert Stale0().latest == map[0 := 0];
    tids, steps := [0, 0, 0, 0, 1, 1], STALE_STEPS;
    WritesSeven();
    hide Next, Init, Stale0, Stale1, Stale2, Stale3, Stale4, Stale5, Stale6, LastWritten;
    StaleEnter(o);
    StaleWrite(o);
    StaleUnlock(o);
    StaleReader(o);
    states := [Stale0(), Stale1(), Stale2(), Stale3(), Stale4(o), Stale5(o), Stale6(o)];
  }

  /** Under acquire and release the next owner reads the 7 that the first one has written. */
  lemma HandsOver() returns (states: seq<State>, tids: seq<Tid>, steps: seq<Step>, after: State)
    ensures IsRun(ACQ_REL, states, tids, steps) && Next(ACQ_REL, states[|steps|], 1, Read(0, 1.0), after)
    ensures (0, 1.0) in states[|steps|].data && states[|steps|].data[(0, 1.0)] == 7
  {
    states, tids, steps := HandoverRun(ACQ_REL);
    var s := Stale6(ACQ_REL);
    after := WithThread(s, 1, Thread(Inside, View(3.0, Seen(ACQ_REL)[0 := 1.0])));
  }

  lemma StaleRead(o: Orders) returns (after: State)
    requires o != ACQ_REL
    ensures
      var s := Stale6(o);
      && Next(o, s, 1, Read(0, 0.0), after) && 1 in s.threads && s.threads[1].pc == Inside
      && (0, 0.0) in s.data && s.data[(0, 0.0)] == 0
  {
    var s := Stale6(o);
    after := WithThread(s, 1, Thread(Inside, View(3.0, UNSEEN[0 := 0.0])));
  }

  /**
   If the compare-exchange does not acquire or the unlocking store does not release, a run exists in which a
   thread inside can read a value other than the last one written.
   */
  lemma RelaxedReadsStale(o: Orders) returns (states: seq<State>, tids: seq<Tid>, steps: seq<Step>, after: State)
    requires o != ACQ_REL
    ensures IsRun(o, states, tids, steps) && Next(o, states[|steps|], 1, Read(0, 0.0), after)
    ensures
      var last := states[|steps|];
      && 1 in last.threads && last.threads[1].pc == Inside
      && (0, 0.0) in last.data && 0 in states[0].latest
      && last.data[(0, 0.0)] == 0 && LastWritten(states[0].latest, steps, |steps|, 0) == 7
  {
    hide Next, Init, Stale6, LastWritten;
    states, tids, steps := HandoverRun(o);
    after := StaleRead(o);
  }

  // The load of the spin loop is relaxed

  /** It can see a message that has been overwritten, and it adds nothing to what the thread has seen of the data. */
  lemma LoadSeesNoData(o: Orders, s: State, t: Tid, at: Time, s': State)
    requires t in s.threads && s.threads[t].pc == Loading && Next(o, s, t, Load(at), s')
    ensures s'.data == s.data && s'.lock == s.lock && s'.threads[t].view.data == s.threads[t].view.data
  {
  }

  /** Thread 0 holds the lock; thread 1 still loads the kFree of the start and attempts in vain. */
  lemma StaleLoadHappens(o: Orders) returns (s1: State, s2: State, s3: State)
    ensures Next(o, Stale2(), 1, Call, s1) && Next(o, s1, 1, Load(0.0), s2) && Next(o, s2, 1, Refused(1.0), s3)
    ensures s1.lock[1.0].locked && s2.threads[1].pc == Attempting && s3.threads[1].pc == Loading
  {
    assert JoinData(UNSEEN, UNSEEN) == UNSEEN;
    s1 := WithThread(Stale2(), 1, Thread(Loading, View(0.0, UNSEEN)));
    s2 := WithThread(s1, 1, Thread(Attempting, View(0.0, UNSEEN)));
    s3 := WithThread(s2, 1, Thread(Loading, View(1.0, UNSEEN)));
  }
}
