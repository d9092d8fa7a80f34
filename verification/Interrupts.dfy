/**
 Interrupts and the interrupt-saving guards (include/dux/spin_lock.h:61-110, include/arch/x86/asm/cpu.h:44-72) on
 any number of CPUs. A CPU has an interrupt flag and a stack of contexts, the interrupted ones below the running
 one; a context has a stack of nested guards. An interrupt can come between any two steps while the flag is on,
 also between the two halves of irq_save_disable, which reads the flag and then clears it.
 */
module Interrupts {
  import opened Options

  type Cpu = nat
  type Lock = nat

  /** Saved: flag read, not yet cleared. Spinning: in lock(). Active: constructed. Released: lock given back. */
  datatype Stage = Saved | Spinning | Active | Released

  /** An irq_save_guard (no lock) or an irq_save_lock_guard. */
  datatype Guard = Guard(lock: Option<Lock>, wasEnabled: bool, stage: Stage)

  type Context = seq<Guard>

  datatype Core = Core(stack: seq<Context>, flag: bool) {
    /** The running context. */
    function Top(): Context { if stack == [] then [] else stack[|stack| - 1] }

    function WithTop(t: Context): Core
      requires stack != []
    {
      this.(stack := stack[|stack| - 1 := t])
    }
  }

  /** A lock word is None for kFree; for kLocked it also remembers the CPU of the acquirer. */
  datatype State = State(cores: map<Cpu, Core>, locks: map<Lock, Option<Cpu>>)

  /**
   How locks are used: through std::lock_guard, which leaves the flag alone; through irq_save_lock_guard; or so, but
   with code inside the guards that turns interrupts on. Turning them off inside a guard is allowed in each case.
   */
  datatype Use = Plain | Saving | Enabling

  datatype Step =
    | Begin(lock: Option<Lock>)
    | Disable
    | TryAcquire
    | Unlock
    | Restore
    | SetFlag(on: bool)
    | Interrupt(on: bool)
    | Return

  function Last(t: Context): Guard
    requires t != []
  {
    t[|t| - 1]
  }

  function WithLast(t: Context, g: Guard): Context
    requires t != []
  {
    t[|t| - 1 := g]
  }

  /** The context is between steps of its own code: its innermost guard is fully constructed. */
  predicate Settled(t: Context) { t == [] || Last(t).stage == Active }

  predicate NewLock(t: Context, lock: Option<Lock>) { lock.Some? ==> forall j | 0 <= j < |t| :: t[j].lock != lock }

  /** The lock that the step's lock word operation is about. */
  function LockOf(t: Context, step: Step): Option<Lock> {
    match step
    case Begin(lock) => lock
    case TryAcquire => if t == [] then None else Last(t).lock
    case Unlock => if t == [] then None else Last(t).lock
    case _ => None
  }

  /** The running context of the core can take the step. */
  predicate Enabled(use: Use, core: Core, step: Step) {
    core.stack != [] &&
    var t := core.Top();
    match step
    case Begin(lock) => Settled(t) && NewLock(t, lock) && (use != Plain || lock.Some?)
    case Disable => t != [] && Last(t).stage == Saved
    case TryAcquire => t != [] && Last(t).stage == Spinning && Last(t).lock.Some?
    case Unlock => t != [] && Last(t).stage == Active && Last(t).lock.Some?
    case Restore => t != [] && (Last(t).stage == Released || (Last(t).stage == Active && Last(t).lock == None))
    case SetFlag(on) => t == [] || (Settled(t) && (!on || use == Enabling))
    case Interrupt(on) => core.flag
    case Return => t == [] && |core.stack| > 1
  }

  /**
   The core after the step; `free` says whether an attempted lock is free. The construction of a std::lock_guard goes
   straight to lock().
   */
  function CoreAfter(use: Use, core: Core, step: Step, free: bool): Core
    requires Enabled(use, core, step)
  {
    var t := core.Top();
    match step
    case Begin(lock) =>
      core.WithTop(t + [Guard(lock, use != Plain && core.flag, if use == Plain then Spinning else Saved)])
    case Disable =>
      core.WithTop(WithLast(t, Last(t).(stage := if Last(t).lock.Some? then Spinning else Active))).(flag := false)
    case TryAcquire =>
      if free then core.WithTop(WithLast(t, Last(t).(stage := Active))) else core
    case Unlock => core.WithTop(WithLast(t, Last(t).(stage := Released)))
    case Restore => core.WithTop(t[..|t| - 1]).(flag := core.flag || Last(t).wasEnabled)
    case SetFlag(on) => core.(flag := on)
    case Interrupt(on) => Core(core.stack + [[]], on)
    case Return => Core(core.stack[..|core.stack| - 1], true)
  }

  function LocksAfter(locks: map<Lock, Option<Cpu>>, c: Cpu, lock: Option<Lock>, step: Step): map<Lock, Option<Cpu>>
    requires lock.Some? ==> lock.value in locks
  {
    if lock == None then locks
    else if step.TryAcquire? && locks[lock.value] == None then locks[lock.value := Some(c)]
    else if step.Unlock? then locks[lock.value := None]
    else locks
  }

  /** A step of the running context of CPU c. */
  ghost predicate Next(use: Use, s: State, c: Cpu, step: Step, s': State) {
    && c in s.cores && Enabled(use, s.cores[c], step)
    && var lock := LockOf(s.cores[c].Top(), step);
       && (lock.Some? ==> lock.value in s.locks)
       && s'.locks == LocksAfter(s.locks, c, lock, step)
       && s'.cores == s.cores[c := CoreAfter(use, s.cores[c], step, lock.Some? && s.locks[lock.value] == None)]
  }

  predicate Init(s: State) {
    && (forall c | c in s.cores :: s.cores[c].stack == [[]])
    && (forall l | l in s.locks :: s.locks[l] == None)
  }

  // The invariant under saving guards

  /** An interrupted context is outside all guards or has only read the flag, which was on. */
  predicate InterruptedOk(t: Context) {
    t == [] || (|t| == 1 && t[0].stage == Saved && t[0].wasEnabled)
  }

  predicate TopOk(t: Context, flag: bool) {
    && (forall j | 0 <= j < |t| - 1 :: t[j].stage == Active)
    && (forall j | 0 < j < |t| :: !t[j].wasEnabled)
    && (|t| > 1 || (|t| == 1 && t[0].stage != Saved) ==> !flag)
    && (|t| == 1 && t[0].stage == Saved ==> flag == t[0].wasEnabled)
    && (forall j, k | 0 <= j < k < |t| :: t[j].lock == t[k].lock ==> t[j].lock == None)
  }

  predicate CoreOk(core: Core) {
    && core.stack != []
    && (forall i | 0 <= i < |core.stack| - 1 :: InterruptedOk(core.stack[i]))
    && TopOk(core.Top(), core.flag)
  }

  ghost predicate HeldIn(t: Context, l: Lock) {
    exists j :: 0 <= j < |t| && t[j].lock == Some(l) && t[j].stage == Active
  }

  /** A lock word names a CPU exactly when that CPU's running context holds the lock. */
  ghost predicate LocksOk(s: State) {
    && (forall c, l | c in s.cores && HeldIn(s.cores[c].Top(), l) :: l in s.locks && s.locks[l] == Some(c))
    && (forall l | l in s.locks && s.locks[l].Some? ::
          s.locks[l].value in s.cores && HeldIn(s.cores[s.locks[l].value].Top(), l))
  }

  ghost predicate Inv(s: State) {
    && (forall c | c in s.cores :: CoreOk(s.cores[c]))
    && LocksOk(s)
  }

  lemma InitInv(s: State)
    requires Init(s)
    ensures Inv(s)
  {
  }

  lemma TopAfter(core: Core, step: Step, free: bool)
    requires CoreOk(core) && Enabled(Saving, core, step)
    ensures var core' := CoreAfter(Saving, core, step, free); core'.stack != [] && TopOk(core'.Top(), core'.flag)
  {
    var core' := CoreAfter(Saving, core, step, free);
    if step.Return? {
      assert core'.Top() == core.stack[|core.stack| - 2];
      assert InterruptedOk(core'.Top());
    }
  }

  lemma BelowAfter(core: Core, step: Step, free: bool)
    requires CoreOk(core) && Enabled(Saving, core, step)
    ensures
      var core' := CoreAfter(Saving, core, step, free);
      forall i | 0 <= i < |core'.stack| - 1 :: InterruptedOk(core'.stack[i])
  {
    var core' := CoreAfter(Saving, core, step, free);
    forall i | 0 <= i < |core'.stack| - 1 ensures InterruptedOk(core'.stack[i]) {
      if step.Interrupt? && i == |core.stack| - 1 {
        assert core'.stack[i] == core.Top();
      } else {
        assert core'.stack[i] == core.stack[i];
      }
    }
  }

  lemma NextCoreOk(core: Core, step: Step, free: bool)
    requires CoreOk(core) && Enabled(Saving, core, step)
    ensures CoreOk(CoreAfter(Saving, core, step, free))
  {
    hide CoreAfter, TopOk, InterruptedOk, Enabled;
    TopAfter(core, step, free);
    BelowAfter(core, step, free);
  }

  /** The locks that the running context holds change only when it acquires or releases one. */
  lemma HeldAfter(core: Core, step: Step, free: bool, l: Lock)
    requires CoreOk(core) && Enabled(Saving, core, step)
    ensures
      var t, t' := core.Top(), CoreAfter(Saving, core, step, free).Top();
      HeldIn(t', l) <==>
        if step.TryAcquire? && free && Last(t).lock == Some(l) then true
        else if step.Unlock? && Last(t).lock == Some(l) then false
        else HeldIn(t, l)
  {
    var core' := CoreAfter(Saving, core, step, free);
    var t, t' := core.Top(), core'.Top();
    if step.Return? {
      assert t' == core.stack[|core.stack| - 2];
      assert InterruptedOk(t');
    } else if step.Interrupt? {
    } else {
      if HeldIn(t, l) {
        var j :| 0 <= j < |t| && t[j].lock == Some(l) && t[j].stage == Active;
        assert j < |t| - 1 ==> j < |t'| && t'[j] == t[j];
        assert step.Begin? ==> t'[j] == t[j];
      }
      if HeldIn(t', l) {
        var j :| 0 <= j < |t'| && t'[j].lock == Some(l) && t'[j].stage == Active;
        assert j < |t| - 1 ==> t'[j] == t[j];
      }
      if step.TryAcquire? && free && Last(t).lock == Some(l) {
        assert t'[|t| - 1].lock == Some(l) && t'[|t| - 1].stage == Active;
      }
    }
  }

  /** How a step changes which locks the running context of its CPU holds, and the lock words with it. */
  ghost predicate HeldChange(t: Context, t': Context, step: Step, free: bool) {
    forall l: Lock :: HeldIn(t', l) <==>
      if step.TryAcquire? && free && LockOf(t, step) == Some(l) then true
      else if step.Unlock? && LockOf(t, step) == Some(l) then false
      else HeldIn(t, l)
  }

  lemma NextHeldChange(core: Core, step: Step, free: bool)
    requires CoreOk(core) && Enabled(Saving, core, step)
    ensures HeldChange(core.Top(), CoreAfter(Saving, core, step, free).Top(), step, free)
  {
    hide CoreOk, CoreAfter, HeldIn;
    forall l: Lock ensures HeldIn(CoreAfter(Saving, core, step, free).Top(), l) <==>
        if step.TryAcquire? && free && LockOf(core.Top(), step) == Some(l) then true
        else if step.Unlock? && LockOf(core.Top(), step) == Some(l) then false
        else HeldIn(core.Top(), l)
    {
      HeldAfter(core, step, free, l);
    }
  }

  lemma UnlockHolds(core: Core, step: Step)
    requires Enabled(Saving, core, step) && step.Unlock?
    ensures LockOf(core.Top(), step).Some? && HeldIn(core.Top(), LockOf(core.Top(), step).value)
  {
    assert core.Top()[|core.Top()| - 1].stage == Active;
  }

  lemma NextLocksOk(s: State, c: Cpu, step: Step, s': State)
    requires Inv(s) && Next(Saving, s, c, step, s')
    ensures LocksOk(s')
  {
    hide CoreOk, HeldIn, CoreAfter, Enabled, LockOf;
    var t := s.cores[c].Top();
    var lock := LockOf(t, step);
    var free := lock.Some? && s.locks[lock.value] == None;
    NextHeldChange(s.cores[c], step, free);
    if step.Unlock? { UnlockHolds(s.cores[c], step); }
    forall d | d in s.cores && d != c ensures s'.cores[d] == s.cores[d] {}
  }

  lemma NextInv(s: State, c: Cpu, step: Step, s': State)
    requires Inv(s) && Next(Saving, s, c, step, s')
    ensures Inv(s')
  {
    NextLocksOk(s, c, step, s');
    hide CoreOk, CoreAfter, Enabled, LocksOk;
    var lock := LockOf(s.cores[c].Top(), step);
    NextCoreOk(s.cores[c], step, lock.Some? && s.locks[lock.value] == None);
    forall d | d in s'.cores ensures CoreOk(s'.cores[d]) {
      if d != c { assert s'.cores[d] == s.cores[d]; }
    }
  }

  ghost predicate IsRun(use: Use, states: seq<State>, cpus: seq<Cpu>, steps: seq<Step>) {
    && |states| == |steps| + 1 && |cpus| == |steps| && Init(states[0])
    && forall i | 0 <= i < |steps| :: Next(use, states[i], cpus[i], steps[i], states[i + 1])
  }

  lemma {:induction false} RunInv(states: seq<State>, cpus: seq<Cpu>, steps: seq<Step>, i: nat)
    requires IsRun(Saving, states, cpus, steps) && i < |states|
    ensures Inv(states[i])
  {
    hide Inv, Next;
    if i == 0 {
      InitInv(states[0]);
    } else {
      RunInv(states, cpus, steps, i - 1);
      NextInv(states[i - 1], cpus[i - 1], steps[i - 1], states[i]);
    }
  }

  predicate Uses(g: Guard, l: Lock) { g.lock == Some(l) && (g.stage == Spinning || g.stage == Active) }

  lemma UserIsInnermost(core: Core, i: nat, j: nat, l: Lock)
    requires CoreOk(core) && i < |core.stack| && j < |core.stack[i]| && Uses(core.stack[i][j], l)
    ensures i == |core.stack| - 1 && !core.flag && core.stack[i] == core.Top()
  {
    assert i < |core.stack| - 1 ==> InterruptedOk(core.stack[i]);
  }

  /**
   In every state of every run with saving guards, a context that holds a lock or spins for one is the running
   context of its CPU and has interrupts off there. So no context waits for a lock that it, or a context it has
   interrupted, holds.
   */
  lemma UsersAreInnermost(states: seq<State>, cpus: seq<Cpu>, steps: seq<Step>, n: nat, c: Cpu, i: nat, j: nat, l: Lock)
    requires IsRun(Saving, states, cpus, steps) && n < |states| && c in states[n].cores
    requires i < |states[n].cores[c].stack| && j < |states[n].cores[c].stack[i]|
    requires Uses(states[n].cores[c].stack[i][j], l)
    ensures
      var core := states[n].cores[c];
      && i == |core.stack| - 1 && !core.flag
      && (core.stack[i][j].stage == Spinning ==>
            forall i', j' | 0 <= i' < |core.stack| && 0 <= j' < |core.stack[i']| && (i', j') != (i, j) ::
              !Uses(core.stack[i'][j'], l))
  {
    RunInv(states, cpus, steps, n);
    assert CoreOk(states[n].cores[c]);
    var core := states[n].cores[c];
    UserIsInnermost(core, i, j, l);
    forall i', j' | 0 <= i' < |core.stack| && 0 <= j' < |core.stack[i']| && (i', j') != (i, j)
      ensures !Uses(core.stack[i'][j'], l)
    {
      if Uses(core.stack[i'][j'], l) {
        UserIsInnermost(core, i', j', l);
      }
    }
  }

  lemma HolderIsNamed(s: State, c: Cpu, i: nat, j: nat, l: Lock)
    requires Inv(s) && c in s.cores && i < |s.cores[c].stack| && j < |s.cores[c].stack[i]|
    requires s.cores[c].stack[i][j].lock == Some(l) && s.cores[c].stack[i][j].stage == Active
    ensures i == |s.cores[c].stack| - 1 && s.cores[c].stack[i] == s.cores[c].Top()
    ensures l in s.locks && s.locks[l] == Some(c)
  {
    assert CoreOk(s.cores[c]);
    UserIsInnermost(s.cores[c], i, j, l);
    assert HeldIn(s.cores[c].Top(), l);
  }

  lemma HeldOnce(s: State, c: Cpu, j: nat, j': nat, l: Lock)
    requires Inv(s) && c in s.cores && j < |s.cores[c].Top()| && j' < |s.cores[c].Top()|
    requires s.cores[c].Top()[j].lock == s.cores[c].Top()[j'].lock == Some(l)
    ensures j == j'
  {
    assert TopOk(s.cores[c].Top(), s.cores[c].flag) by { assert CoreOk(s.cores[c]); }
  }

  /** Two contexts never hold the same lock, on one CPU or on two, and the lock word names the holder's CPU. */
  lemma HoldersUnique(states: seq<State>, cpus: seq<Cpu>, steps: seq<Step>, n: nat,
                      c: Cpu, i: nat, j: nat, c': Cpu, i': nat, j': nat, l: Lock)
    requires IsRun(Saving, states, cpus, steps) && n < |states| && c in states[n].cores && c' in states[n].cores
    requires i < |states[n].cores[c].stack| && j < |states[n].cores[c].stack[i]|
    requires i' < |states[n].cores[c'].stack| && j' < |states[n].cores[c'].stack[i']|
    requires states[n].cores[c].stack[i][j].lock == Some(l) && states[n].cores[c].stack[i][j].stage == Active
    requires states[n].cores[c'].stack[i'][j'].lock == Some(l) && states[n].cores[c'].stack[i'][j'].stage == Active
    ensures (c, i, j) == (c', i', j') && l in states[n].locks && states[n].locks[l] == Some(c)
  {
    hide Inv, IsRun;
    RunInv(states, cpus, steps, n);
    var s := states[n];
    HolderIsNamed(s, c, i, j, l);
    HolderIsNamed(s, c', i', j', l);
    HeldOnce(s, c, j, j', l);
  }

  // Nested guards and the flag

  lemma OutermostStep(core: Core, step: Step, free: bool, d: nat)
    requires Enabled(Saving, core, step) && d < |core.stack| && core.stack[d] != []
    requires var after := CoreAfter(Saving, core, step, free).stack; d < |after| && after[d] != []
    ensures CoreAfter(Saving, core, step, free).stack[d][0].wasEnabled == core.stack[d][0].wasEnabled
  {
  }

  /** CPU c constructs an outermost guard in step i and is inside it up to state j. */
  ghost predicate InsideGuards(states: seq<State>, cpus: seq<Cpu>, steps: seq<Step>, c: Cpu, i: nat, j: nat) {
    && IsRun(Saving, states, cpus, steps) && i < j < |states|
    && cpus[i] == c && steps[i].Begin? && c in states[i].cores && states[i].cores[c].Top() == []
    && states[i].cores[c].stack != []
    && var depth := |states[i].cores[c].stack|;
       forall k | i < k <= j ::
         c in states[k].cores && |states[k].cores[c].stack| >= depth && states[k].cores[c].stack[depth - 1] != []
  }

  lemma {:induction false} OutermostKeepsFlag(states: seq<State>, cpus: seq<Cpu>, steps: seq<Step>,
                                              c: Cpu, i: nat, j: nat)
    requires InsideGuards(states, cpus, steps, c, i, j)
    ensures
      var depth := |states[i].cores[c].stack|;
      states[j].cores[c].stack[depth - 1][0].wasEnabled == states[i].cores[c].flag
  {
    var depth := |states[i].cores[c].stack|;
    assert Next(Saving, states[j - 1], cpus[j - 1], steps[j - 1], states[j]);
    if i < j - 1 {
      OutermostKeepsFlag(states, cpus, steps, c, i, j - 1);
      var core, lock := states[j - 1].cores[cpus[j - 1]], LockOf(states[j - 1].cores[cpus[j - 1]].Top(), steps[j - 1]);
      if cpus[j - 1] == c {
        OutermostStep(core, steps[j - 1], lock.Some? && states[j - 1].locks[lock.value] == None, depth - 1);
      }
    }
  }

  /**
   While a context runs inside nested guards, past the reading of the flag, interrupts are off; when an inner guard
   ends they stay off, and when the outermost one ends the flag is what it was when that guard began.
   */
  lemma GuardsRestoreFlag(states: seq<State>, cpus: seq<Cpu>, steps: seq<Step>, c: Cpu, i: nat, j: nat)
    requires InsideGuards(states, cpus, steps, c, i, j)
    requires |states[j].cores[c].stack| == |states[i].cores[c].stack|
    ensures
      var t := states[j].cores[c].Top();
      && (t[0].stage != Saved || |t| > 1 ==> !states[j].cores[c].flag)
      && (j < |steps| && cpus[j] == c && steps[j] == Restore ==>
            states[j + 1].cores[c].flag == if |t| > 1 then false else states[i].cores[c].flag)
  {
    OutermostKeepsFlag(states, cpus, steps, c, i, j);
    RunInv(states, cpus, steps, j);
    assert CoreOk(states[j].cores[c]);
    if j < |steps| {
      assert Next(Saving, states[j], cpus[j], steps[j], states[j + 1]);
    }
  }

  // The flag and the handlers, however locks are used

  lemma RunStep(use: Use, states: seq<State>, cpus: seq<Cpu>, steps: seq<Step>, i: nat)
    requires IsRun(use, states, cpus, steps) && i < |steps|
    ensures |states| == |steps| + 1 && |cpus| == |steps| && Next(use, states[i], cpus[i], steps[i], states[i + 1])
  {
  }

  /** irq_enable, the return from a handler, and the end of a guard that has found interrupts on. */
  predicate TurnsOn(core: Core, step: Step) {
    step == SetFlag(true) || step == Return || (step == Restore && core.Top() != [] && Last(core.Top()).wasEnabled)
  }

  /** irq_disable, the second half of irq_save_disable, and the entry of a handler with interrupts off. */
  predicate TurnsOff(step: Step) { step == SetFlag(false) || step == Disable || step == Interrupt(false) }

  lemma FlagStep(use: Use, s: State, c: Cpu, d: Cpu, step: Step, s': State)
    requires c in s.cores && Next(use, s, d, step, s')
    ensures c in s'.cores && (d != c ==> s'.cores[c] == s.cores[c])
    ensures d == c && (step == SetFlag(false) || step == Disable) ==> !s'.cores[c].flag
    ensures d == c && (step == SetFlag(true) || step == Return) ==> s'.cores[c].flag
    ensures d == c && !s.cores[c].flag ==> !step.Interrupt? && (s'.cores[c].flag ==> TurnsOn(s.cores[c], step))
    ensures d == c && s.cores[c].flag && !s'.cores[c].flag ==> TurnsOff(step)
  {
  }

  /**
   After cli, or irq_save_disable, the CPU's interrupts stay off and no handler runs on it until it turns them on
   again.
   */
  lemma {:induction false} OffStaysOff(
      use: Use, states: seq<State>, cpus: seq<Cpu>, steps: seq<Step>, c: Cpu, i: nat, n: nat)
    requires IsRun(use, states, cpus, steps) && i < n < |states|
    requires cpus[i] == c && c in states[i].cores && (steps[i] == SetFlag(false) || steps[i] == Disable)
    requires forall k | i < k < n && cpus[k] == c :: c in states[k].cores && !TurnsOn(states[k].cores[c], steps[k])
    ensures c in states[n].cores && !states[n].cores[c].flag
    ensures forall k | i < k < n && cpus[k] == c :: !steps[k].Interrupt?
    decreases n
  {
    hide Next, TurnsOn;
    RunStep(use, states, cpus, steps, n - 1);
    if i < n - 1 {
      OffStaysOff(use, states, cpus, steps, c, i, n - 1);
    }
    FlagStep(use, states[n - 1], c, cpus[n - 1], steps[n - 1], states[n]);
  }

  lemma InterruptNeedsFlag(use: Use, core: Core, on: bool)
    ensures Enabled(use, core, Interrupt(on)) <==> core.stack != [] && core.flag
  {
  }

  /** After sti, or the return from a handler, a handler can run on the CPU until it turns interrupts off. */
  lemma {:induction false} OnStaysOn(
      use: Use, states: seq<State>, cpus: seq<Cpu>, steps: seq<Step>, c: Cpu, i: nat, n: nat)
    requires IsRun(use, states, cpus, steps) && i < n < |states|
    requires cpus[i] == c && c in states[i].cores && (steps[i] == SetFlag(true) || steps[i] == Return)
    requires forall k | i < k < n && cpus[k] == c :: !TurnsOff(steps[k])
    ensures c in states[n].cores && states[n].cores[c].flag
    ensures states[n].cores[c].stack != [] ==> Enabled(use, states[n].cores[c], Interrupt(false))
    decreases n
  {
    hide Next, TurnsOff;
    RunStep(use, states, cpus, steps, n - 1);
    if i < n - 1 {
      OnStaysOn(use, states, cpus, steps, c, i, n - 1);
    }
    FlagStep(use, states[n - 1], c, cpus[n - 1], steps[n - 1], states[n]);
    InterruptNeedsFlag(use, states[n].cores[c], false);
  }

  lemma LowerStay(use: Use, core: Core, step: Step, free: bool, depth: nat)
    requires Enabled(use, core, step) && depth < |core.stack| && depth < |CoreAfter(use, core, step, free).stack|
    ensures CoreAfter(use, core, step, free).stack[..depth] == core.stack[..depth]
  {
  }

  /** CPU c enters a handler in step i and is in it, or in one that interrupts it, up to state j. */
  ghost predicate InHandler(use: Use, states: seq<State>, cpus: seq<Cpu>, steps: seq<Step>, c: Cpu, i: nat, j: nat) {
    && IsRun(use, states, cpus, steps) && i < j < |states|
    && cpus[i] == c && steps[i].Interrupt? && c in states[i].cores
    && forall k | i < k <= j :: c in states[k].cores && |states[k].cores[c].stack| > |states[i].cores[c].stack|
  }

  lemma EntryPushes(use: Use, core: Core, step: Step)
    requires Enabled(use, core, step) && step.Interrupt?
    ensures forall free :: CoreAfter(use, core, step, free).stack[..|core.stack|] == core.stack
  {
  }

  lemma {:induction false} HandlerKeepsBelow(use: Use, states: seq<State>, cpus: seq<Cpu>, steps: seq<Step>,
                                             c: Cpu, i: nat, j: nat)
    requires InHandler(use, states, cpus, steps, c, i, j)
    ensures
      var depth := |states[i].cores[c].stack|;
      states[j].cores[c].stack[..depth] == states[i].cores[c].stack && states[i].cores[c].flag
    decreases j
  {
    hide Enabled, CoreAfter;
    var depth := |states[i].cores[c].stack|;
    RunStep(use, states, cpus, steps, i);
    RunStep(use, states, cpus, steps, j - 1);
    var core, lock := states[j - 1].cores[cpus[j - 1]], LockOf(states[j - 1].cores[cpus[j - 1]].Top(), steps[j - 1]);
    if i < j - 1 {
      HandlerKeepsBelow(use, states, cpus, steps, c, i, j - 1);
      if cpus[j - 1] == c {
        LowerStay(use, core, steps[j - 1], lock.Some? && states[j - 1].locks[lock.value] == None, depth);
      }
    } else {
      EntryPushes(use, core, steps[i]);
    }
    InterruptNeedsFlag(use, states[i].cores[c], steps[i].on);
  }

  /** A handler that returns leaves its CPU, contexts and flag, as it has found it. */
  lemma HandlerIsTransparent(use: Use, states: seq<State>, cpus: seq<Cpu>, steps: seq<Step>, c: Cpu, i: nat, j: nat)
    requires InHandler(use, states, cpus, steps, c, i, j) && j < |steps| && cpus[j] == c && steps[j] == Return
    requires |states[j].cores[c].stack| == |states[i].cores[c].stack| + 1
    ensures states[j + 1].cores[c] == states[i].cores[c]
  {
    HandlerKeepsBelow(use, states, cpus, steps, c, i, j);
    RunStep(use, states, cpus, steps, j);
    hide IsRun;
  }

  /** The core inside a new saving guard for l, constructed up to the given stage. */
  function InGuard(core: Core, l: Lock, stage: Stage): Core
    requires core.stack != []
  {
    core.WithTop(core.Top() + [Guard(Some(l), core.flag, stage)]).(flag := stage == Saved && core.flag)
  }

  lemma TopTwice(core: Core, t: Context, u: Context)
    requires core.stack != []
    ensures core.WithTop(t).Top() == t && core.WithTop(t).WithTop(u) == core.WithTop(u)
    ensures core.WithTop(core.Top()) == core
  {
  }

  lemma InGuardStage(core: Core, l: Lock, stage: Stage, later: Stage)
    requires core.stack != []
    ensures
      var inside := InGuard(core, l, stage);
      && inside.stack != [] && inside.Top() != [] && Last(inside.Top()) == Guard(Some(l), core.flag, stage)
      && inside.Top()[..|inside.Top()| - 1] == core.Top()
      && inside.WithTop(WithLast(inside.Top(), Guard(Some(l), core.flag, later)))
           == core.WithTop(core.Top() + [Guard(Some(l), core.flag, later)]).(flag := inside.flag)
      && inside.WithTop(core.Top()) == core.(flag := inside.flag)
  {
    var t, g, g' := core.Top(), Guard(Some(l), core.flag, stage), Guard(Some(l), core.flag, later);
    TopTwice(core, t + [g], t + [g']);
    TopTwice(core, t + [g], t);
    assert WithLast(t + [g], g') == t + [g'];
    assert (t + [g])[..|t|] == t;
  }

  lemma CoreRoundTrip(core: Core, l: Lock)
    requires core.stack != [] && Settled(core.Top()) && NewLock(core.Top(), Some(l))
    ensures Enabled(Saving, core, Begin(Some(l)))
    ensures CoreAfter(Saving, core, Begin(Some(l)), true) == InGuard(core, l, Saved)
    ensures Enabled(Saving, InGuard(core, l, Saved), Disable)
    ensures CoreAfter(Saving, InGuard(core, l, Saved), Disable, false) == InGuard(core, l, Spinning)
    ensures Enabled(Saving, InGuard(core, l, Spinning), TryAcquire)
    ensures CoreAfter(Saving, InGuard(core, l, Spinning), TryAcquire, true) == InGuard(core, l, Active)
    ensures Enabled(Saving, InGuard(core, l, Active), Unlock)
    ensures CoreAfter(Saving, InGuard(core, l, Active), Unlock, false) == InGuard(core, l, Released)
    ensures Enabled(Saving, InGuard(core, l, Released), Restore)
    ensures CoreAfter(Saving, InGuard(core, l, Released), Restore, false) == core
  {
    InGuardStage(core, l, Saved, Spinning);
    InGuardStage(core, l, Spinning, Active);
    InGuardStage(core, l, Active, Released);
    InGuardStage(core, l, Released, Released);
    assert InGuard(core, l, Saved).flag == core.flag;
    hide InGuard, WithLast;
    hide NewLock, Settled;
  }

  lemma LockOfInGuard(core: Core, l: Lock)
    requires core.stack != []
    ensures !InGuard(core, l, Active).flag
    ensures LockOf(core.Top(), Begin(Some(l))) == Some(l)
    ensures LockOf(InGuard(core, l, Saved).Top(), Disable) == None
    ensures LockOf(InGuard(core, l, Spinning).Top(), TryAcquire) == Some(l)
    ensures LockOf(InGuard(core, l, Active).Top(), Unlock) == Some(l)
    ensures LockOf(InGuard(core, l, Released).Top(), Restore) == None
  {
  }

  /**
   Where lock l is free, code between its guards can take it through the saving guard and give it back, and then
   everything is as before.
   */
  lemma GuardRoundTrip(s: State, c: Cpu, l: Lock) returns (inside: State)
    requires c in s.cores && s.cores[c].stack != [] && Settled(s.cores[c].Top()) && NewLock(s.cores[c].Top(), Some(l))
    requires l in s.locks && s.locks[l] == None
    ensures
      var s1 := s.(cores := s.cores[c := InGuard(s.cores[c], l, Saved)]);
      var s2 := s.(cores := s.cores[c := InGuard(s.cores[c], l, Spinning)]);
      var s4 := s.(cores := s.cores[c := InGuard(s.cores[c], l, Released)]);
      && Next(Saving, s, c, Begin(Some(l)), s1) && Next(Saving, s1, c, Disable, s2)
      && Next(Saving, s2, c, TryAcquire, inside)
      && Next(Saving, inside, c, Unlock, s4) && Next(Saving, s4, c, Restore, s)
    ensures c in inside.cores && !inside.cores[c].flag && l in inside.locks && inside.locks[l] == Some(c)
  {
    var core := s.cores[c];
    inside := State(s.cores[c := InGuard(core, l, Active)], s.locks[l := Some(c)]);
    CoreRoundTrip(core, l);
    LockOfInGuard(core, l);
    hide CoreAfter, Enabled, InGuard, LockOf;
    assert inside.locks[l := None] == s.locks;
    assert s.cores[c := core] == s.cores;
  }

  // Without saving guards, or with interrupts turned on inside them

  predicate OnlyGuard(t: Context, l: Lock, stage: Stage) { |t| == 1 && t[0].lock == Some(l) && t[0].stage == stage }

  /** On CPU c a context spins for lock l, the context that it interrupted holds l, and nobody else does. */
  ghost predicate Deadlocked(s: State, c: Cpu, l: Lock) {
    && c in s.cores && l in s.locks && s.locks[l].Some? && |s.cores[c].stack| >= 2
    && OnlyGuard(s.cores[c].stack[0], l, Active) && OnlyGuard(s.cores[c].stack[1], l, Spinning)
    && forall d, i, j | d in s.cores && 0 <= i < |s.cores[d].stack| && 0 <= j < |s.cores[d].stack[i]| ::
         s.cores[d].stack[i][j].lock == Some(l) && s.cores[d].stack[i][j].stage == Active ==> (d, i, j) == (c, 0, 0)
  }

  /** A plain lock_guard used by code and by a handler that interrupts it reaches that state. */
  lemma PlainGuardDeadlocks(c: Cpu, l: Lock) returns (states: seq<State>, cpus: seq<Cpu>, steps: seq<Step>)
    ensures IsRun(Plain, states, cpus, steps) && Deadlocked(states[|steps|], c, l)
  {
    var begin := Begin(Some(l));
    var core0 := Core([[]], true);
    var core1 := CoreAfter(Plain, core0, begin, true);
    var core2 := CoreAfter(Plain, core1, TryAcquire, true);
    var core3 := CoreAfter(Plain, core2, Interrupt(false), true);
    var core4 := CoreAfter(Plain, core3, begin, false);
    assert core1.stack[0] == [Guard(Some(l), false, Spinning)];
    assert core2.stack[0] == [Guard(Some(l), false, Active)];
    assert core4.stack[1] == [Guard(Some(l), false, Spinning)];
    var s0 := State(map[c := core0], map[l := None]);
    var s1 := s0.(cores := s0.cores[c := core1]);
    var s2 := State(s1.cores[c := core2], s1.locks[l := Some(c)]);
    var s3 := s2.(cores := s2.cores[c := core3]);
    var s4 := s3.(cores := s3.cores[c := core4]);
    states, cpus, steps := [s0, s1, s2, s3, s4], [c, c, c, c], [begin, TryAcquire, Interrupt(false), begin];
    assert Next(Plain, s0, c, steps[0], s1);
    assert Next(Plain, s1, c, steps[1], s2);
    assert Next(Plain, s2, c, steps[2], s3);
    assert Next(Plain, s3, c, steps[3], s4);
  }

  /** A state with one CPU and one lock. */
  function Small(c: Cpu, stack: seq<Context>, flag: bool, l: Lock, holder: Option<Cpu>): State {
    State(map[c := Core(stack, flag)], map[l := holder])
  }

  lemma SmallStep(c: Cpu, l: Lock, stack: seq<Context>, flag: bool, holder: Option<Cpu>, step: Step,
                  stack': seq<Context>, flag': bool, holder': Option<Cpu>)
    requires Enabled(Enabling, Core(stack, flag), step)
    requires var lock := LockOf(Core(stack, flag).Top(), step);
      && lock in {None, Some(l)}
      && CoreAfter(Enabling, Core(stack, flag), step, lock.Some? && holder == None) == Core(stack', flag')
      && LocksAfter(map[l := holder], c, lock, step) == map[l := holder']
    ensures Next(Enabling, Small(c, stack, flag, l, holder), c, step, Small(c, stack', flag', l, holder'))
  {
  }

  /** Code takes the lock through the saving guard and turns interrupts on inside it. */
  lemma EnablingFirst(c: Cpu, l: Lock)
    ensures
      var saved, spin, held := Guard(Some(l), true, Saved), Guard(Some(l), true, Spinning), Guard(Some(l), true, Active);
      && Next(Enabling, Small(c, [[]], true, l, None), c, Begin(Some(l)), Small(c, [[saved]], true, l, None))
      && Next(Enabling, Small(c, [[saved]], true, l, None), c, Disable, Small(c, [[spin]], false, l, None))
      && Next(Enabling, Small(c, [[spin]], false, l, None), c, TryAcquire, Small(c, [[held]], false, l, Some(c)))
      && Next(Enabling, Small(c, [[held]], false, l, Some(c)), c, SetFlag(true), Small(c, [[held]], true, l, Some(c)))
  {
    var saved, spin, held := Guard(Some(l), true, Saved), Guard(Some(l), true, Spinning), Guard(Some(l), true, Active);
    assert CoreAfter(Enabling, Core([[]], true), Begin(Some(l)), true).stack[0] == [saved];
    assert CoreAfter(Enabling, Core([[]], true), Begin(Some(l)), true).stack == [[saved]];
    assert CoreAfter(Enabling, Core([[saved]], true), Disable, true).stack[0] == [spin];
    assert CoreAfter(Enabling, Core([[saved]], true), Disable, true).stack == [[spin]];
    assert CoreAfter(Enabling, Core([[spin]], false), TryAcquire, true).stack[0] == [held];
    assert CoreAfter(Enabling, Core([[spin]], false), TryAcquire, true).stack == [[held]];
    hide Next, CoreAfter;
    SmallStep(c, l, [[]], true, None, Begin(Some(l)), [[saved]], true, None);
    SmallStep(c, l, [[saved]], true, None, Disable, [[spin]], false, None);
    SmallStep(c, l, [[spin]], false, None, TryAcquire, [[held]], false, Some(c));
    SmallStep(c, l, [[held]], false, Some(c), SetFlag(true), [[held]], true, Some(c));
  }

  /** A handler then takes the same lock through its saving guard. */
  lemma EnablingThen(c: Cpu, l: Lock)
    ensures
      var held, saved := Guard(Some(l), true, Active), Guard(Some(l), false, Saved);
      var spin := Guard(Some(l), false, Spinning);
      var h := Some(c);
      && Next(Enabling, Small(c, [[held]], true, l, h), c, Interrupt(false), Small(c, [[held], []], false, l, h))
      && Next(Enabling, Small(c, [[held], []], false, l, h), c, Begin(Some(l)), Small(c, [[held], [saved]], false, l, h))
      && Next(Enabling, Small(c, [[held], [saved]], false, l, h), c, Disable, Small(c, [[held], [spin]], false, l, h))
  {
    var held, saved, spin := Guard(Some(l), true, Active), Guard(Some(l), false, Saved), Guard(Some(l), false, Spinning);
    assert CoreAfter(Enabling, Core([[held], []], false), Begin(Some(l)), false).stack[1] == [saved];
    assert CoreAfter(Enabling, Core([[held], []], false), Begin(Some(l)), false).stack == [[held], [saved]];
    assert CoreAfter(Enabling, Core([[held], [saved]], false), Disable, false).stack[1] == [spin];
    assert CoreAfter(Enabling, Core([[held], [saved]], false), Disable, false).stack == [[held], [spin]];
    SmallStep(c, l, [[held]], true, Some(c), Interrupt(false), [[held], []], false, Some(c));
    SmallStep(c, l, [[held], []], false, Some(c), Begin(Some(l)), [[held], [saved]], false, Some(c));
    SmallStep(c, l, [[held], [saved]], false, Some(c), Disable, [[held], [spin]], false, Some(c));
  }

  /** Turning interrupts on inside a saving guard brings the deadlock back. */
  lemma EnablingInsideDeadlocks(c: Cpu, l: Lock) returns (states: seq<State>, cpus: seq<Cpu>, steps: seq<Step>)
    ensures IsRun(Enabling, states, cpus, steps) && Deadlocked(states[|steps|], c, l)
  {
    EnablingFirst(c, l);
    EnablingThen(c, l);
    hide Next;
    var saving, spin, held := Guard(Some(l), true, Saved), Guard(Some(l), true, Spinning), Guard(Some(l), true, Active);
    var saving', spin' := Guard(Some(l), false, Saved), Guard(Some(l), false, Spinning);
    states := [Small(c, [[]], true, l, None), Small(c, [[saving]], true, l, None), Small(c, [[spin]], false, l, None),
               Small(c, [[held]], false, l, Some(c)), Small(c, [[held]], true, l, Some(c)),
               Small(c, [[held], []], false, l, Some(c)), Small(c, [[held], [saving']], false, l, Some(c)),
               Small(c, [[held], [spin']], false, l, Some(c))];
    cpus := [c, c, c, c, c, c, c];
    steps := [Begin(Some(l)), Disable, TryAcquire, SetFlag(true), Interrupt(false), Begin(Some(l)), Disable];
  }

  /** A step of the deadlocked CPU leaves the two lowest contexts as they are. */
  lemma LowestStay(use: Use, core: Core, step: Step, free: bool, l: Lock)
    requires Enabled(use, core, step) && |core.stack| >= 2
    requires OnlyGuard(core.stack[1], l, Spinning)
    requires LockOf(core.Top(), step) == Some(l) ==> !free
    ensures
      var after := CoreAfter(use, core, step, free).stack;
      |after| >= 2 && after[0] == core.stack[0] && after[1] == core.stack[1]
  {
  }

  /** A step makes no context a holder of l unless it finds l free. */
  lemma HoldersStay(use: Use, core: Core, step: Step, free: bool, l: Lock, i: nat, j: nat)
    requires Enabled(use, core, step) && (LockOf(core.Top(), step) == Some(l) ==> !free)
    requires
      var after := CoreAfter(use, core, step, free).stack;
      i < |after| && j < |after[i]| && after[i][j].lock == Some(l) && after[i][j].stage == Active
    ensures
      i < |core.stack| && j < |core.stack[i]| && core.stack[i][j].lock == Some(l) && core.stack[i][j].stage == Active
  {
  }

  lemma UnlockIsActive(use: Use, core: Core, step: Step)
    requires Enabled(use, core, step) && step.Unlock?
    ensures core.stack != [] && core.Top() != []
    ensures
      var g := core.stack[|core.stack| - 1][|core.Top()| - 1];
      g.lock == LockOf(core.Top(), step) && g.stage == Active
  {
  }

  lemma NobodyUnlocks(use: Use, s: State, c: Cpu, l: Lock, d: Cpu, step: Step)
    requires Deadlocked(s, c, l) && d in s.cores && Enabled(use, s.cores[d], step)
    ensures !(step.Unlock? && LockOf(s.cores[d].Top(), step) == Some(l))
  {
    if step.Unlock? {
      UnlockIsActive(use, s.cores[d], step);
    }
  }

  /** Once there, whatever any CPU does, the handler never gets the lock. */
  lemma DeadlockStays(use: Use, s: State, c: Cpu, l: Lock, d: Cpu, step: Step, s': State)
    requires Deadlocked(s, c, l) && Next(use, s, d, step, s')
    ensures Deadlocked(s', c, l)
  {
    var core, lock := s.cores[d], LockOf(s.cores[d].Top(), step);
    NobodyUnlocks(use, s, c, l, d, step);
    hide CoreAfter, Enabled, LockOf, OnlyGuard;
    var free := lock.Some? && s.locks[lock.value] == None;
    if d == c { LowestStay(use, core, step, free, l); }
    forall e | e in s.cores && e != d ensures s'.cores[e] == s.cores[e] {}
    forall e, i, j | e in s'.cores && 0 <= i < |s'.cores[e].stack| && 0 <= j < |s'.cores[e].stack[i]|
        && s'.cores[e].stack[i][j].lock == Some(l) && s'.cores[e].stack[i][j].stage == Active
      ensures (e, i, j) == (c, 0, 0)
    {
      if e == d { HoldersStay(use, core, step, free, l, i, j); }
    }
  }
}
