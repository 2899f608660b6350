/**
 The call gate of one hook, as a step system.

 Any number of threads make guarded calls (pin the gate, lock its recursive mutex, read the
 published callable, run the trampoline, unlock), each re-entering the hook as deep as it likes.
 The owner enables, disables and releases the hook, and one thread may destroy the handle. The
 destructor takes the gate out of the handle, then either leaks the backend (loader lock held, lock
 failure, newer layers on the target) or withdraws the callable under the mutex and frees the
 trampoline. As the handle's contract says, enable, disable and release do not overlap destruction.
 */
module HookGate {
  type Tid = nat

  datatype Status = Active | Disabled | Enabling | Disabling

  /** What one entry of a thread into this hook is doing. */
  datatype Frame =
    | CallPinned    // holds a strong reference to the gate only
    | CallLocked    // gate mutex taken, callable not yet read
    | Invoking      // running the trampoline with the mutex held
    | EnablePinned
    | EnableLocked  // status is Enabling, the backend is being armed
    | DisablePinned
    | DisableLocked // status is Disabling, the backend is being disarmed

  datatype Mutex = Free | Held(owner: Tid, depth: nat)

  datatype Handle =
    | Live
    | Released                // release(): the backend stays installed for ever
    | Destroying(d: Tid, at: Stage)
    | Destroyed(d: Tid)

  datatype Stage =
    | GateTaken   // the handle's gate reference is gone
    | GateLocked  // the gate mutex is held
    | Withdrawn   // null callable published, status Disabled
    | Unlocked    // waiting for the target's teardown slot

  datatype State = State(
    isInline: bool,
    status: Status,
    callable: bool,      // the gate publishes the trampoline
    mapped: bool,        // the trampoline's memory exists
    mutex: Mutex,
    handle: Handle,
    stacks: map<Tid, seq<Frame>>)

  datatype Step =
    | Pin(t: Tid)
    | StartEnable(t: Tid)
    | StartDisable(t: Tid)
    | Lock(t: Tid, ok: bool)
    | Read(t: Tid)
    | Return(t: Tid)
    | Finish(t: Tid, ok: bool)
    | Release
    | BeginDestroy(t: Tid, loaderLock: bool)
    | LockGate(ok: bool)
    | Withdraw
    | UnlockGate
    | Teardown(newer: nat)

  function Stack(s: State, t: Tid): (r: seq<Frame>)
  {
    if t in s.stacks then s.stacks[t] else []
  }

  predicate Top(s: State, t: Tid, f: Frame)
  {
    var st := Stack(s, t);
    st != [] && st[|st| - 1] == f
  }

  predicate Pinned(f: Frame)
  {
    f.CallPinned? || f.EnablePinned? || f.DisablePinned?
  }

  /** A thread enters the hook afresh or from inside the code its trampoline runs. */
  predicate MayEnter(s: State, t: Tid)
  {
    && (Stack(s, t) == [] || Top(s, t, Invoking))
    && !(s.handle.Destroying? && s.handle.d == t)
  }

  predicate Controls(f: Frame)
  {
    f.EnablePinned? || f.EnableLocked? || f.DisablePinned? || f.DisableLocked?
  }

  /** No enable or disable is in progress; such an entry is always a thread's innermost one. */
  ghost predicate ControlIdle(s: State)
  {
    forall t, f :: Top(s, t, f) ==> !Controls(f)
  }

  predicate Runnable(s: State, t: Tid)
  {
    Stack(s, t) != [] && !(s.handle.Destroying? && s.handle.d == t)
  }

  predicate CanLock(m: Mutex, t: Tid)
  {
    m.Free? || m.owner == t
  }

  predicate AtStage(s: State, stage: Stage)
  {
    s.handle.Destroying? && s.handle.at == stage
  }

  ghost predicate Enabled(s: State, step: Step)
  {
    match step
    case Pin(t) => MayEnter(s, t) && s.handle.Live?
    case StartEnable(t) => MayEnter(s, t) && s.handle.Live?
    case StartDisable(t) => MayEnter(s, t) && s.handle.Live?
    case Lock(t, ok) =>
      && Runnable(s, t)
      && (Top(s, t, CallPinned) || Top(s, t, EnablePinned) || Top(s, t, DisablePinned))
      && (ok ==> CanLock(s.mutex, t))
    case Read(t) => Runnable(s, t) && Top(s, t, CallLocked)
    case Return(t) => Runnable(s, t) && Top(s, t, Invoking)
    case Finish(t, _) => Runnable(s, t) && (Top(s, t, EnableLocked) || Top(s, t, DisableLocked))
    case Release => s.handle.Live? && ControlIdle(s)
    case BeginDestroy(t, _) => s.handle.Live? && ControlIdle(s) && MayEnter(s, t)
    case LockGate(ok) => AtStage(s, GateTaken) && (ok ==> CanLock(s.mutex, s.handle.d))
    case Withdraw => AtStage(s, GateLocked)
    case UnlockGate => AtStage(s, Withdrawn)
    case Teardown(_) => AtStage(s, Unlocked)
  }

  function Acquire(m: Mutex, t: Tid): (r: Mutex)
  {
    if m.Free? then Held(t, 1) else Held(m.owner, m.depth + 1)
  }

  function Unlock(m: Mutex): (r: Mutex)
  {
    if m.Held? && m.depth > 1 then Held(m.owner, m.depth - 1) else Free
  }

  function Push(s: State, t: Tid, f: Frame): (n: State)
  {
    s.(stacks := s.stacks[t := Stack(s, t) + [f]])
  }

  function Pop(s: State, t: Tid): (n: State)
    requires Stack(s, t) != []
  {
    s.(stacks := s.stacks[t := s.stacks[t][..|s.stacks[t]| - 1]])
  }

  function Become(s: State, t: Tid, f: Frame): (n: State)
    requires Stack(s, t) != []
  {
    Push(Pop(s, t), t, f)
  }

  /** What a thread does with the mutex it has just been granted. */
  function Granted(s: State, t: Tid): (n: State)
    requires Stack(s, t) != []
  {
    var locked := s.(mutex := Acquire(s.mutex, t));
    if Top(s, t, CallPinned) then Become(locked, t, CallLocked)
    else if Top(s, t, EnablePinned) && s.status.Disabled? then Become(locked, t, EnableLocked).(status := Enabling)
    else if Top(s, t, DisablePinned) && s.status.Active? then Become(locked, t, DisableLocked).(status := Disabling)
    else Pop(s, t) // already in the wanted state, or refused: the lock is given back at once
  }

  function Settled(s: State, t: Tid, ok: bool): (n: State)
    requires Stack(s, t) != []
  {
    var done := Pop(s, t).(mutex := Unlock(s.mutex));
    if Top(s, t, EnableLocked) then
      if ok then done.(status := Active, callable := s.isInline) else done.(status := Disabled)
    else
      if ok then done.(status := Disabled, callable := false) else done.(status := Active)
  }

  function Apply(s: State, step: Step): (n: State)
    requires Enabled(s, step)
  {
    match step
    case Pin(t) => Push(s, t, CallPinned)
    case StartEnable(t) => Push(s, t, EnablePinned)
    case StartDisable(t) => Push(s, t, DisablePinned)
    case Lock(t, ok) => if ok then Granted(s, t) else Pop(s, t)
    case Read(t) => if s.callable then Become(s, t, Invoking) else Pop(s, t).(mutex := Unlock(s.mutex))
    case Return(t) => Pop(s, t).(mutex := Unlock(s.mutex))
    case Finish(t, ok) => Settled(s, t, ok)
    case Release => s.(handle := Released)
    case BeginDestroy(t, loaderLock) => s.(handle := if loaderLock then Destroyed(t) else Destroying(t, GateTaken))
    case LockGate(ok) =>
      if ok then s.(mutex := Acquire(s.mutex, s.handle.d), handle := Destroying(s.handle.d, GateLocked))
      else s.(handle := Destroyed(s.handle.d))
    case Withdraw => s.(callable := false, status := Disabled, handle := Destroying(s.handle.d, Withdrawn))
    case UnlockGate => s.(mutex := Unlock(s.mutex), handle := Destroying(s.handle.d, Unlocked))
    case Teardown(newer) => s.(mapped := newer > 0, handle := Destroyed(s.handle.d))
  }

  predicate Installed(s: State)
  {
    && s.mapped && s.mutex.Free? && s.handle.Live? && s.stacks == map[]
    && (s.status.Active? || s.status.Disabled?)
    && s.callable == (s.isInline && s.status.Active?)
  }

  ghost predicate Runs(s: State, steps: seq<Step>)
    decreases |steps|
  {
    steps == [] || (Enabled(s, steps[0]) && Runs(Apply(s, steps[0]), steps[1..]))
  }

  ghost function After(s: State, steps: seq<Step>): (n: State)
    requires Runs(s, steps)
    decreases |steps|
  {
    if steps == [] then s else After(Apply(s, steps[0]), steps[1..])
  }

  predicate Inside(s: State, t: Tid)
  {
    Invoking in Stack(s, t)
  }

  /** Safety: nobody is running a trampoline whose memory is gone. */
  ghost predicate Safe(s: State)
  {
    forall t :: Inside(s, t) ==> s.mapped
  }

  /** On a live handle with the mutex free, the callable is published exactly for an armed inline hook. */
  predicate Published(s: State)
  {
    s.handle.Live? && s.mutex.Free? ==> (s.callable <==> s.isInline && s.status.Active?)
  }

  // ---------------------------------------------------------------------------------------
  // The inductive invariant
  // ---------------------------------------------------------------------------------------

  /** Below its top frame a thread is running trampolines. */
  predicate Nested(st: seq<Frame>)
  {
    forall i :: 0 <= i < |st| - 1 ==> st[i] == Invoking
  }

  /** How many times the entries of a thread hold the gate mutex. */
  function Holds(st: seq<Frame>): (r: nat)
  {
    if st == [] then 0 else if Pinned(st[|st| - 1]) then |st| - 1 else |st|
  }

  function DestroyerHolds(s: State, t: Tid): (r: nat)
  {
    if (AtStage(s, GateLocked) || AtStage(s, Withdrawn)) && s.handle.d == t then 1 else 0
  }

  function HeldBy(m: Mutex, t: Tid): (r: nat)
  {
    if m.Held? && m.owner == t then m.depth else 0
  }

  /** The mutex is held by exactly the entries and the destructor that took it, counted. */
  predicate LockMatches(s: State, t: Tid)
  {
    Nested(Stack(s, t)) && Holds(Stack(s, t)) + DestroyerHolds(s, t) == HeldBy(s.mutex, t)
  }

  predicate Past(s: State)
  {
    AtStage(s, Withdrawn) || AtStage(s, Unlocked) || (s.handle.Destroyed? && !s.mapped)
  }

  /** Status and callable agree, except while the one arming or disarming thread holds the mutex. */
  ghost predicate StatusMatches(s: State)
  {
    && (s.status.Enabling? ==> !s.callable && exists t :: Top(s, t, EnableLocked))
    && (s.status.Disabling? ==> s.callable == s.isInline && exists t :: Top(s, t, DisableLocked))
    && (s.status.Active? ==> s.callable == s.isInline)
    && (s.status.Disabled? ==> !s.callable)
    && (forall t :: Top(s, t, EnableLocked) ==> s.status.Enabling?)
    && (forall t :: Top(s, t, DisableLocked) ==> s.status.Disabling?)
  }

  ghost predicate Inv(s: State)
  {
    && (s.mutex.Held? ==> s.mutex.depth > 0)
    && (forall t :: LockMatches(s, t))
    && StatusMatches(s)
    && (!s.mapped ==> s.handle.Destroyed?)
    && (s.handle.Destroying? || s.handle.Destroyed? ==> ControlIdle(s))
    && (Past(s) ==> !s.callable && forall t :: Inside(s, t) ==> t == s.handle.d)
  }

  // ---------------------------------------------------------------------------------------
  // An entry step changes one thread's stack and the mutex in one of five ways
  // ---------------------------------------------------------------------------------------

  function Last(st: seq<Frame>): (r: Frame)
    requires st != []
  {
    st[|st| - 1]
  }

  function Init(st: seq<Frame>): (r: seq<Frame>)
    requires st != []
  {
    st[..|st| - 1]
  }

  datatype Change = Entered | GaveUp | Took | Gave | Ran

  predicate Changes(c: Change, t: Tid, st: seq<Frame>, m: Mutex, nst: seq<Frame>, nm: Mutex)
  {
    match c
    case Entered => nst != [] && Init(nst) == st && Pinned(Last(nst)) && nm == m && (st == [] || Last(st) == Invoking)
    case GaveUp => st != [] && Pinned(Last(st)) && nst == Init(st) && nm == m
    case Took =>
      && st != [] && Pinned(Last(st)) && nst != [] && Init(nst) == Init(st)
      && (Last(nst) == CallLocked || Last(nst) == EnableLocked || Last(nst) == DisableLocked)
      && CanLock(m, t) && nm == Acquire(m, t)
    case Gave => st != [] && !Pinned(Last(st)) && nst == Init(st) && nm == Unlock(m)
    case Ran => st != [] && Last(st) == CallLocked && nst == Init(st) + [Invoking] && nm == m
  }

  lemma ChangeKeepsCount(c: Change, t: Tid, st: seq<Frame>, m: Mutex, nst: seq<Frame>, nm: Mutex)
    requires Changes(c, t, st, m, nst, nm)
    requires Nested(st) && Holds(st) == HeldBy(m, t) && (m.Held? ==> m.depth > 0)
    ensures Nested(nst) && Holds(nst) == HeldBy(nm, t) && (nm.Held? ==> nm.depth > 0)
    ensures forall u :: u != t ==> HeldBy(nm, u) == HeldBy(m, u)
  {
  }

  predicate IsEntry(step: Step)
  {
    step.Pin? || step.StartEnable? || step.StartDisable? || step.Lock? || step.Read? || step.Return? || step.Finish?
  }

  function ChangeOf(s: State, step: Step): (c: Change)
    requires IsEntry(step)
  {
    match step
    case Lock(t, ok) =>
      if !ok then GaveUp
      else if Top(s, t, CallPinned) || (Top(s, t, EnablePinned) && s.status.Disabled?)
              || (Top(s, t, DisablePinned) && s.status.Active?) then Took
      else GaveUp
    case Read(_) => if s.callable then Ran else Gave
    case Return(_) => Gave
    case Finish(_, _) => Gave
    case _ => Entered
  }

  lemma GrantChanges(s: State, t: Tid)
    requires Enabled(s, Lock(t, true))
    ensures Changes(ChangeOf(s, Lock(t, true)), t, Stack(s, t), s.mutex, Stack(Granted(s, t), t), Granted(s, t).mutex)
  {
  }

  lemma StepChanges(s: State, step: Step)
    requires Enabled(s, step) && IsEntry(step)
    ensures Changes(ChangeOf(s, step), step.t, Stack(s, step.t), s.mutex,
                    Stack(Apply(s, step), step.t), Apply(s, step).mutex)
  {
    if step.Lock? && step.ok {
      GrantChanges(s, step.t);
    }
  }

  lemma GrantFrame(s: State, t: Tid)
    requires Stack(s, t) != []
    ensures Granted(s, t).handle == s.handle && Granted(s, t).mapped == s.mapped
    ensures Granted(s, t).callable == s.callable && Granted(s, t).isInline == s.isInline
    ensures forall u :: u != t ==> Stack(Granted(s, t), u) == Stack(s, u)
  {
  }

  lemma StepFrame(s: State, step: Step)
    requires Enabled(s, step) && IsEntry(step)
    ensures Apply(s, step).handle == s.handle && Apply(s, step).mapped == s.mapped
    ensures Apply(s, step).isInline == s.isInline
    ensures forall u :: u != step.t ==> Stack(Apply(s, step), u) == Stack(s, u)
    ensures s.handle.Destroying? ==> step.t != s.handle.d
  {
    if step.Lock? && step.ok {
      GrantFrame(s, step.t);
    }
  }

  lemma LockKeptByEntry(s: State, step: Step)
    requires Inv(s) && Enabled(s, step) && IsEntry(step)
    ensures forall u :: LockMatches(Apply(s, step), u)
    ensures Apply(s, step).mutex.Held? ==> Apply(s, step).mutex.depth > 0
  {
    var n, t := Apply(s, step), step.t;
    StepChanges(s, step);
    StepFrame(s, step);
    assert LockMatches(s, t);
    ChangeKeepsCount(ChangeOf(s, step), t, Stack(s, t), s.mutex, Stack(n, t), n.mutex);
    forall u ensures LockMatches(n, u) {
      assert LockMatches(s, u);
      assert DestroyerHolds(n, u) == DestroyerHolds(s, u);
    }
  }

  lemma LockKeptByOwner(s: State, step: Step)
    requires Inv(s) && Enabled(s, step) && !IsEntry(step)
    ensures forall u :: LockMatches(Apply(s, step), u)
    ensures Apply(s, step).mutex.Held? ==> Apply(s, step).mutex.depth > 0
  {
    var n := Apply(s, step);
    if s.handle.Destroying? {
      assert LockMatches(s, s.handle.d);
    }
    forall u ensures LockMatches(n, u) {
      assert LockMatches(s, u);
      assert Stack(n, u) == Stack(s, u);
    }
  }

  /** Two threads cannot both hold the gate mutex. */
  lemma OneHolder(s: State, t: Tid, u: Tid)
    requires LockMatches(s, t) && LockMatches(s, u)
    requires Holds(Stack(s, t)) > 0 && Holds(Stack(s, u)) + DestroyerHolds(s, u) > 0
    ensures t == u
  {
  }

  // Status and callable.

  predicate Controlling(f: Frame)
  {
    f.EnableLocked? || f.DisableLocked?
  }

  predicate TakesControl(s: State, step: Step)
  {
    step.Lock? && step.ok && ChangeOf(s, step) == Took && !Top(s, step.t, CallPinned)
  }

  lemma SameControl(s: State, n: State)
    requires StatusMatches(s)
    requires n.status == s.status && n.callable == s.callable && n.isInline == s.isInline
    requires forall u :: Top(n, u, EnableLocked) <==> Top(s, u, EnableLocked)
    requires forall u :: Top(n, u, DisableLocked) <==> Top(s, u, DisableLocked)
    ensures StatusMatches(n)
  {
  }

  /** Apart from arming and disarming, an entry neither starts nor ends a controlling frame. */
  lemma UncontrolledTops(c: Change, t: Tid, st: seq<Frame>, m: Mutex, nst: seq<Frame>, nm: Mutex)
    requires Nested(st) && Changes(c, t, st, m, nst, nm)
    requires st != [] ==> !Controlling(Last(st))
    requires c == Took ==> Last(nst) == CallLocked
    ensures nst != [] ==> !Controlling(Last(nst))
  {
  }

  lemma CallStepFrame(s: State, step: Step)
    requires Enabled(s, step) && IsEntry(step) && !step.Finish? && !TakesControl(s, step)
    ensures Apply(s, step).status == s.status && Apply(s, step).callable == s.callable
    ensures ChangeOf(s, step) == Took ==> Top(Apply(s, step), step.t, CallLocked)
    ensures Stack(s, step.t) != [] ==> !Controlling(Last(Stack(s, step.t)))
  {
    if step.Lock? && step.ok && Top(s, step.t, CallPinned) {
      BecomeTop(s.(mutex := Acquire(s.mutex, step.t)), step.t, CallLocked);
    }
  }

  lemma SameTops(s: State, n: State, t: Tid)
    requires forall u :: u != t ==> Stack(n, u) == Stack(s, u)
    requires Stack(s, t) != [] ==> !Controlling(Last(Stack(s, t)))
    requires Stack(n, t) != [] ==> !Controlling(Last(Stack(n, t)))
    ensures forall u :: Top(n, u, EnableLocked) <==> Top(s, u, EnableLocked)
    ensures forall u :: Top(n, u, DisableLocked) <==> Top(s, u, DisableLocked)
  {
    forall u | u != t ensures (Top(n, u, EnableLocked) <==> Top(s, u, EnableLocked))
                           && (Top(n, u, DisableLocked) <==> Top(s, u, DisableLocked)) {
      assert Stack(n, u) == Stack(s, u);
    }
  }

  lemma CallStepKeepsStatus(s: State, step: Step)
    requires Inv(s) && Enabled(s, step) && IsEntry(step) && !step.Finish? && !TakesControl(s, step)
    ensures StatusMatches(Apply(s, step))
  {
    var n, t := Apply(s, step), step.t;
    StepChanges(s, step);
    StepFrame(s, step);
    CallStepFrame(s, step);
    assert LockMatches(s, t);
    UncontrolledTops(ChangeOf(s, step), t, Stack(s, t), s.mutex, Stack(n, t), n.mutex);
    SameTops(s, n, t);
    SameControl(s, n);
  }

  lemma TakeControlKeepsStatus(s: State, step: Step)
    requires Inv(s) && Enabled(s, step) && TakesControl(s, step)
    ensures StatusMatches(Apply(s, step))
  {
    var n, t := Apply(s, step), step.t;
    StepFrame(s, step);
    var f := if Top(s, t, EnablePinned) then EnableLocked else DisableLocked;
    var locked := Become(s.(mutex := Acquire(s.mutex, t)), t, f);
    BecomeTop(s.(mutex := Acquire(s.mutex, t)), t, f);
    assert Stack(n, t) == Stack(locked, t);
    assert forall g :: Top(n, t, g) <==> Top(locked, t, g);
    forall u | u != t ensures !Top(n, u, EnableLocked) && !Top(n, u, DisableLocked) {
      assert Stack(n, u) == Stack(s, u);
      assert Top(n, u, EnableLocked) == Top(s, u, EnableLocked);
      assert Top(n, u, DisableLocked) == Top(s, u, DisableLocked);
    }
  }

  lemma BecomeTop(s: State, t: Tid, f: Frame)
    requires Stack(s, t) != []
    ensures Top(Become(s, t, f), t, f)
    ensures forall g :: Top(Become(s, t, f), t, g) ==> g == f
  {
  }

  lemma FinishKeepsStatus(s: State, step: Step)
    requires Inv(s) && Enabled(s, step) && step.Finish?
    ensures StatusMatches(Apply(s, step))
  {
    var n, t := Apply(s, step), step.t;
    StepChanges(s, step);
    StepFrame(s, step);
    assert LockMatches(s, t);
    forall u ensures !Top(n, u, EnableLocked) && !Top(n, u, DisableLocked) {
      if u != t {
        assert Stack(n, u) == Stack(s, u);
        assert LockMatches(s, u);
      }
    }
  }

  lemma StatusKept(s: State, step: Step)
    requires Inv(s) && Enabled(s, step)
    ensures StatusMatches(Apply(s, step))
  {
    var n := Apply(s, step);
    if !IsEntry(step) {
      forall u, f ensures Top(n, u, f) == Top(s, u, f) {
        assert Stack(n, u) == Stack(s, u);
      }
      if !step.Withdraw? {
        SameControl(s, n);
      }
    } else if step.Finish? {
      FinishKeepsStatus(s, step);
    } else if TakesControl(s, step) {
      TakeControlKeepsStatus(s, step);
    } else {
      CallStepKeepsStatus(s, step);
    }
  }

  // The handle and the threads inside the trampoline.

  /** While the handle is going away, no call can turn into an enable or a disable. */
  lemma IdleEntry(s: State, step: Step, f: Frame)
    requires Inv(s) && Enabled(s, step) && (s.handle.Destroying? || s.handle.Destroyed?)
    requires IsEntry(step) && Top(Apply(s, step), step.t, f)
    ensures !Controls(f)
  {
    StepChanges(s, step);
    assert LockMatches(s, step.t);
    assert Stack(s, step.t) != [] ==> Top(s, step.t, Last(Stack(s, step.t)));
  }

  lemma IdleKept(s: State, step: Step)
    requires Inv(s) && Enabled(s, step) && (s.handle.Destroying? || s.handle.Destroyed?)
    ensures ControlIdle(Apply(s, step))
  {
    var n := Apply(s, step);
    forall u, f | Top(n, u, f) ensures !Controls(f) {
      if IsEntry(step) && u == step.t {
        IdleEntry(s, step, f);
      } else {
        OthersStack(s, step, u);
        assert Top(s, u, f);
      }
    }
  }

  lemma OthersStack(s: State, step: Step, u: Tid)
    requires Enabled(s, step) && (IsEntry(step) ==> u != step.t)
    ensures Stack(Apply(s, step), u) == Stack(s, u)
  {
    if IsEntry(step) {
      StepFrame(s, step);
    }
  }

  /** A thread comes to be inside a trampoline only by reading a published callable. */
  lemma InsideOnlyByRead(s: State, step: Step, u: Tid)
    requires Inv(s) && Enabled(s, step) && IsEntry(step) && Inside(Apply(s, step), u)
    ensures Inside(s, u) || (step == Read(u) && s.callable)
  {
    StepChanges(s, step);
    StepFrame(s, step);
  }

  lemma InsideHolds(s: State, t: Tid)
    requires LockMatches(s, t) && Inside(s, t)
    ensures Holds(Stack(s, t)) > 0
  {
  }

  /** Once the destructor holds the mutex, only its own thread can be inside. */
  lemma OnlyDestroyerInside(s: State, u: Tid)
    requires Inv(s) && AtStage(s, GateLocked) && Inside(s, u)
    ensures u == s.handle.d
  {
    assert LockMatches(s, u) && LockMatches(s, s.handle.d);
    InsideHolds(s, u);
    OneHolder(s, u, s.handle.d);
  }

  lemma CallableKept(s: State, step: Step)
    requires Inv(s) && Enabled(s, step) && IsEntry(step) && Past(s)
    ensures !Apply(s, step).callable
  {
    if step.Finish? {
      assert Top(s, step.t, Last(Stack(s, step.t)));
    } else if step.Lock? && step.ok {
      GrantFrame(s, step.t);
    }
  }

  lemma PastKept(s: State, step: Step)
    requires Inv(s) && Enabled(s, step) && Past(Apply(s, step))
    ensures !Apply(s, step).callable
    ensures forall u :: Inside(Apply(s, step), u) ==> u == Apply(s, step).handle.d
  {
    var n := Apply(s, step);
    if IsEntry(step) {
      StepFrame(s, step);
      CallableKept(s, step);
      forall u | Inside(n, u) ensures u == n.handle.d {
        InsideOnlyByRead(s, step, u);
      }
    } else {
      forall u | Inside(n, u) ensures u == n.handle.d {
        assert Stack(n, u) == Stack(s, u);
        assert Inside(s, u);
        if step.Withdraw? {
          OnlyDestroyerInside(s, u);
        }
      }
    }
  }

  lemma StepKeepsInv(s: State, step: Step)
    requires Inv(s) && Enabled(s, step)
    ensures Inv(Apply(s, step))
  {
    var n := Apply(s, step);
    if IsEntry(step) {
      LockKeptByEntry(s, step);
      StepFrame(s, step);
    } else {
      LockKeptByOwner(s, step);
    }
    StatusKept(s, step);
    if s.handle.Destroying? || s.handle.Destroyed? {
      IdleKept(s, step);
    } else if step.BeginDestroy? {
      assert forall u, f :: Top(n, u, f) ==> Top(s, u, f);
    }
    if Past(n) {
      PastKept(s, step);
    }
  }

  // ---------------------------------------------------------------------------------------
  // Over whole runs
  // ---------------------------------------------------------------------------------------

  lemma {:induction false} RunKeepsInv(s: State, steps: seq<Step>)
    requires Inv(s) && Runs(s, steps)
    ensures Inv(After(s, steps))
    decreases |steps|
  {
    if steps != [] {
      StepKeepsInv(s, steps[0]);
      RunKeepsInv(Apply(s, steps[0]), steps[1..]);
    }
  }

  lemma InstalledInv(s: State)
    requires Installed(s)
    ensures Inv(s)
  {
  }

  /** In every run, on a live handle with a free mutex, callable <==> inline and Active. */
  lemma PublishedExactlyWhenArmed(s: State, steps: seq<Step>)
    requires Installed(s) && Runs(s, steps)
    ensures Published(After(s, steps))
  {
    InstalledInv(s);
    RunKeepsInv(s, steps);
    var n := After(s, steps);
    if n.mutex.Free? {
      forall t ensures !Top(n, t, EnableLocked) && !Top(n, t, DisableLocked) {
        assert LockMatches(n, t);
      }
    }
  }

  /** The destroying thread is not itself inside a guarded call on the hook. */
  ghost predicate Disciplined(s: State, steps: seq<Step>)
    requires Runs(s, steps)
    decreases |steps|
  {
    steps == [] ||
    (&& (steps[0].BeginDestroy? ==> !Inside(s, steps[0].t))
     && Disciplined(Apply(s, steps[0]), steps[1..]))
  }

  predicate DestroyerOutside(s: State)
  {
    s.handle.Destroying? || (s.handle.Destroyed? && !s.mapped) ==> !Inside(s, s.handle.d)
  }

  lemma StepKeepsOutside(s: State, step: Step)
    requires Inv(s) && DestroyerOutside(s) && Enabled(s, step)
    requires step.BeginDestroy? ==> !Inside(s, step.t)
    ensures DestroyerOutside(Apply(s, step))
  {
    var n := Apply(s, step);
    if IsEntry(step) {
      StepFrame(s, step);
      if (s.handle.Destroying? || s.handle.Destroyed?) && Inside(n, s.handle.d) {
        InsideOnlyByRead(s, step, s.handle.d);
      }
    } else if n.handle.Destroying? || n.handle.Destroyed? {
      assert Stack(n, n.handle.d) == Stack(s, n.handle.d);
    }
  }

  lemma {:induction false} RunKeepsOutside(s: State, steps: seq<Step>)
    requires Inv(s) && DestroyerOutside(s) && Runs(s, steps) && Disciplined(s, steps)
    ensures Inv(After(s, steps)) && DestroyerOutside(After(s, steps))
    decreases |steps|
  {
    if steps != [] {
      StepKeepsInv(s, steps[0]);
      StepKeepsOutside(s, steps[0]);
      RunKeepsOutside(Apply(s, steps[0]), steps[1..]);
    }
  }

  /** No guarded call ever runs a freed trampoline, whatever the interleaving. */
  lemma NoCallIntoFreedTrampoline(s: State, steps: seq<Step>)
    requires Installed(s) && Runs(s, steps) && Disciplined(s, steps)
    ensures Safe(After(s, steps))
  {
    InstalledInv(s);
    RunKeepsOutside(s, steps);
  }

  /** While a thread destroys the handle its own entries stand still, and a finished destruction stays so. */
  lemma DestroyerStandsStill(s: State, step: Step)
    requires Enabled(s, step) && s.handle.Destroying?
    ensures Stack(Apply(s, step), s.handle.d) == Stack(s, s.handle.d)
    ensures Apply(s, step).handle.Destroyed?
            || (Apply(s, step).handle.Destroying? && Apply(s, step).handle.d == s.handle.d)
  {
    if IsEntry(step) {
      StepFrame(s, step);
    }
  }

  lemma {:induction false} DestroyedStays(s: State, steps: seq<Step>)
    requires s.handle.Destroyed? && Runs(s, steps)
    ensures After(s, steps).handle.Destroyed?
    decreases |steps|
  {
    if steps != [] {
      if IsEntry(steps[0]) {
        StepFrame(s, steps[0]);
      }
      DestroyedStays(Apply(s, steps[0]), steps[1..]);
    }
  }

  lemma {:induction false} StandsStillThroughout(s: State, steps: seq<Step>)
    requires s.handle.Destroying? && Runs(s, steps) && After(s, steps).handle.Destroying?
    ensures After(s, steps).handle.d == s.handle.d
    ensures Stack(After(s, steps), s.handle.d) == Stack(s, s.handle.d)
    decreases |steps|
  {
    if steps != [] {
      var n := Apply(s, steps[0]);
      DestroyerStandsStill(s, steps[0]);
      if n.handle.Destroyed? {
        DestroyedStays(n, steps[1..]);
      } else {
        StandsStillThroughout(n, steps[1..]);
      }
    }
  }

  lemma FreeingIsSafeIffDestroyerOutside(s: State)
    requires Inv(s) && AtStage(s, Unlocked)
    ensures Safe(Apply(s, Teardown(0))) <==> !Inside(s, s.handle.d)
  {
    var n := Apply(s, Teardown(0));
    forall t ensures Inside(n, t) == Inside(s, t) {
      assert Stack(n, t) == Stack(s, t);
    }
  }

  /**
   Without the discipline: a destruction that reaches the freeing step is safe exactly when, at
   the moment it began, the destroying thread was not inside a guarded call of its own.
   */
  lemma DestructionIsSafeIffBegunOutside(s: State, before: seq<Step>, d: Tid, rest: seq<Step>)
    requires Installed(s) && Runs(s, before)
    requires Enabled(After(s, before), BeginDestroy(d, false))
    requires Runs(Apply(After(s, before), BeginDestroy(d, false)), rest)
    requires AtStage(After(Apply(After(s, before), BeginDestroy(d, false)), rest), Unlocked)
    ensures var begun := After(s, before);
            Safe(Apply(After(Apply(begun, BeginDestroy(d, false)), rest), Teardown(0))) <==> !Inside(begun, d)
  {
    InstalledInv(s);
    RunKeepsInv(s, before);
    var begun := After(s, before);
    var n := Apply(begun, BeginDestroy(d, false));
    StepKeepsInv(begun, BeginDestroy(d, false));
    RunKeepsInv(n, rest);
    StandsStillThroughout(n, rest);
    assert Stack(n, d) == Stack(begun, d);
    FreeingIsSafeIffDestroyerOutside(After(n, rest));
  }

  lemma Prepend(s: State, step: Step, rest: seq<Step>)
    requires Enabled(s, step) && Runs(Apply(s, step), rest)
    ensures Runs(s, [step] + rest) && After(s, [step] + rest) == After(Apply(s, step), rest)
  {
    assert ([step] + rest)[1..] == rest;
  }

  /** From inside its own call, a thread can carry the whole destruction through. */
  lemma DestroyFromInside(s: State) returns (steps: seq<Step>)
    requires s.handle.Live? && s.stacks.Keys == {0} && s.stacks[0] == [Invoking] && s.mutex == Held(0, 1)
    ensures Runs(s, steps) && !Safe(After(s, steps))
  {
    assert ControlIdle(s) by {
      forall u, f | Top(s, u, f) ensures !Controls(f) { assert u == 0; }
    }
    var s1 := Apply(s, BeginDestroy(0, false));
    var s2 := Apply(s1, LockGate(true));
    var s3 := Apply(s2, Withdraw);
    var s4 := Apply(s3, UnlockGate);
    var s5 := Apply(s4, Teardown(0));
    assert Inside(s5, 0);
    Prepend(s4, Teardown(0), []);
    Prepend(s3, UnlockGate, [Teardown(0)]);
    steps := [UnlockGate] + [Teardown(0)];
    Prepend(s2, Withdraw, steps);
    steps := [Withdraw] + steps;
    Prepend(s1, LockGate(true), steps);
    steps := [LockGate(true)] + steps;
    Prepend(s, BeginDestroy(0, false), steps);
    steps := [BeginDestroy(0, false)] + steps;
  }

  lemma EnterCall(s: State)
    requires Installed(s) && s.callable
    ensures Enabled(s, Pin(0))
    ensures Enabled(Apply(s, Pin(0)), Lock(0, true))
    ensures Apply(Apply(s, Pin(0)), Lock(0, true)) == s.(stacks := map[0 := [CallLocked]], mutex := Held(0, 1))
  {
    var s1 := Apply(s, Pin(0));
    assert Stack(s, 0) + [CallPinned] == [CallPinned];
    assert s1.stacks == map[0 := [CallPinned]];
    var s2 := Apply(s1, Lock(0, true));
    assert [CallPinned][..0] + [CallLocked] == [CallLocked];
    assert s2.stacks == map[0 := [CallLocked]];
  }

  /** The recursive mutex lets a destroyer through its own guarded call: the trampoline goes underfoot. */
  lemma DestroyingInsideOwnCallIsUnsafe(s: State)
    requires Installed(s) && s.callable
    ensures exists steps :: Runs(s, steps) && !Safe(After(s, steps))
  {
    EnterCall(s);
    var s1 := Apply(s, Pin(0));
    var s2 := Apply(s1, Lock(0, true));
    var s3 := Apply(s2, Read(0));
    assert [CallLocked][..0] + [Invoking] == [Invoking];
    assert s3.stacks == map[0 := [Invoking]];
    var steps := DestroyFromInside(s3);
    Prepend(s2, Read(0), steps);
    Prepend(s1, Lock(0, true), [Read(0)] + steps);
    Prepend(s, Pin(0), [Lock(0, true)] + ([Read(0)] + steps));
  }

  // ---------------------------------------------------------------------------------------
  // What each operation is for: undisturbed runs of one thread
  // ---------------------------------------------------------------------------------------

  /** The thread may enter the hook and its lock would be granted. */
  predicate Ready(s: State, t: Tid)
  {
    s.handle.Live? && MayEnter(s, t) && CanLock(s.mutex, t)
  }

  /** Nothing but status and callable differ. */
  ghost predicate OnlyArmed(s: State, n: State, armed: bool)
  {
    && n.status == (if armed then Active else Disabled)
    && n.callable == (armed && s.isInline)
    && n.isInline == s.isInline && n.mapped == s.mapped && n.mutex == s.mutex && n.handle == s.handle
    && forall u :: Stack(n, u) == Stack(s, u)
  }

  lemma ReadyIsSettled(s: State, t: Tid)
    requires Inv(s) && Ready(s, t)
    ensures s.status.Active? || s.status.Disabled?
    ensures s.callable == (s.isInline && s.status.Active?)
    ensures Unlock(Acquire(s.mutex, t)) == s.mutex
  {
    forall u ensures !Top(s, u, EnableLocked) && !Top(s, u, DisableLocked) {
      assert LockMatches(s, u) && LockMatches(s, t);
    }
  }

  lemma PushPop(st: seq<Frame>, f: Frame, g: Frame)
    ensures (st + [f])[..|st + [f]| - 1] == st
    ensures (st + [f])[..|st + [f]| - 1] + [g] == st + [g]
  {
  }

  lemma TwoSteps(s: State, a: Step, b: Step)
    requires Enabled(s, a) && Enabled(Apply(s, a), b)
    ensures Runs(s, [a, b]) && After(s, [a, b]) == Apply(Apply(s, a), b)
  {
    Prepend(Apply(s, a), b, []);
    Prepend(s, a, [b]);
    assert [a] + [b] == [a, b] && [b] + [] == [b];
  }

  lemma ThreeSteps(s: State, a: Step, b: Step, c: Step)
    requires Enabled(s, a) && Enabled(Apply(s, a), b) && Enabled(Apply(Apply(s, a), b), c)
    ensures Runs(s, [a, b, c]) && After(s, [a, b, c]) == Apply(Apply(Apply(s, a), b), c)
  {
    TwoSteps(Apply(s, a), b, c);
    Prepend(s, a, [b, c]);
    assert [a] + [b, c] == [a, b, c];
  }

  /** Once it has the lock, an enable or disable stands on top of its thread with the status in between. */
  lemma ControlLocks(s: State, t: Tid, enable: bool)
    requires Ready(s, t) && s.status == (if enable then Disabled else Active)
    ensures var start := if enable then StartEnable(t) else StartDisable(t);
            && Enabled(s, start) && Enabled(Apply(s, start), Lock(t, true))
            && Apply(Apply(s, start), Lock(t, true)) == UnderControl(s, t, enable)
  {
    if enable {
      EnableLocks(s, t);
    } else {
      DisableLocks(s, t);
    }
  }

  lemma EnableLocks(s: State, t: Tid)
    requires Ready(s, t) && s.status.Disabled?
    ensures Enabled(s, StartEnable(t)) && Enabled(Apply(s, StartEnable(t)), Lock(t, true))
    ensures Apply(Apply(s, StartEnable(t)), Lock(t, true)) == UnderControl(s, t, true)
  {
    var st := Stack(s, t);
    var s1 := Apply(s, StartEnable(t));
    PushPop(st, EnablePinned, EnableLocked);
    assert Stack(s1, t) == st + [EnablePinned];
    assert Granted(s1, t).stacks == s.stacks[t := st + [EnableLocked]];
  }

  lemma DisableLocks(s: State, t: Tid)
    requires Ready(s, t) && s.status.Active?
    ensures Enabled(s, StartDisable(t)) && Enabled(Apply(s, StartDisable(t)), Lock(t, true))
    ensures Apply(Apply(s, StartDisable(t)), Lock(t, true)) == UnderControl(s, t, false)
  {
    var st := Stack(s, t);
    var s1 := Apply(s, StartDisable(t));
    PushPop(st, DisablePinned, DisableLocked);
    assert Stack(s1, t) == st + [DisablePinned];
    assert Granted(s1, t).stacks == s.stacks[t := st + [DisableLocked]];
  }

  function UnderControl(s: State, t: Tid, enable: bool): (n: State)
  {
    s.(stacks := s.stacks[t := Stack(s, t) + [if enable then EnableLocked else DisableLocked]],
       mutex := Acquire(s.mutex, t), status := if enable then Enabling else Disabling)
  }

  lemma ControlFinishes(s: State, t: Tid, enable: bool, ok: bool)
    requires Ready(s, t) && s.status == (if enable then Disabled else Active)
    requires s.callable == (s.isInline && s.status.Active?) && Unlock(Acquire(s.mutex, t)) == s.mutex
    ensures Enabled(UnderControl(s, t, enable), Finish(t, ok))
    ensures OnlyArmed(s, Apply(UnderControl(s, t, enable), Finish(t, ok)), ok == enable)
  {
    var locked := if enable then EnableLocked else DisableLocked;
    PushPop(Stack(s, t), locked, locked);
  }

  /** An enable of a disabled hook arms it exactly when the backend does. */
  lemma EnableArms(s: State, t: Tid, ok: bool)
    requires Inv(s) && Ready(s, t) && s.status.Disabled?
    ensures Runs(s, [StartEnable(t), Lock(t, true), Finish(t, ok)])
    ensures OnlyArmed(s, After(s, [StartEnable(t), Lock(t, true), Finish(t, ok)]), ok)
  {
    ReadyIsSettled(s, t);
    ControlLocks(s, t, true);
    ControlFinishes(s, t, true, ok);
    ThreeSteps(s, StartEnable(t), Lock(t, true), Finish(t, ok));
  }

  /** A disable of an active hook disarms it exactly when the backend does. */
  lemma DisableDisarms(s: State, t: Tid, ok: bool)
    requires Inv(s) && Ready(s, t) && s.status.Active?
    ensures Runs(s, [StartDisable(t), Lock(t, true), Finish(t, ok)])
    ensures OnlyArmed(s, After(s, [StartDisable(t), Lock(t, true), Finish(t, ok)]), !ok)
  {
    ReadyIsSettled(s, t);
    ControlLocks(s, t, false);
    ControlFinishes(s, t, false, ok);
    ThreeSteps(s, StartDisable(t), Lock(t, true), Finish(t, ok));
  }

  /** Enabling an active hook or disabling a disabled one changes nothing. */
  lemma RepeatChangesNothing(s: State, t: Tid, start: Step)
    requires Inv(s) && Ready(s, t)
    requires start == if s.status.Active? then StartEnable(t) else StartDisable(t)
    ensures Runs(s, [start, Lock(t, true)])
    ensures OnlyArmed(s, After(s, [start, Lock(t, true)]), s.status.Active?)
  {
    ReadyIsSettled(s, t);
    PushPop(Stack(s, t), EnablePinned, EnablePinned);
    PushPop(Stack(s, t), DisablePinned, DisablePinned);
    TwoSteps(s, start, Lock(t, true));
  }

  /** A guarded call runs the trampoline exactly when the hook is inline and Active, and else leaves at once. */
  lemma CallRunsExactlyWhenArmed(s: State, t: Tid)
    requires Inv(s) && Ready(s, t)
    ensures Runs(s, [Pin(t), Lock(t, true), Read(t)])
    ensures var n := After(s, [Pin(t), Lock(t, true), Read(t)]);
            && Stack(n, t) == Stack(s, t) + (if s.isInline && s.status.Active? then [Invoking] else [])
            && n.mutex == (if s.isInline && s.status.Active? then Acquire(s.mutex, t) else s.mutex)
            && forall u :: u != t ==> Stack(n, u) == Stack(s, u)
  {
    ReadyIsSettled(s, t);
    PushPop(Stack(s, t), CallPinned, CallLocked);
    PushPop(Stack(s, t), CallLocked, Invoking);
    ThreeSteps(s, Pin(t), Lock(t, true), Read(t));
  }

  /** In every reachable state: after an enable the next guarded call runs the trampoline of an inline hook. */
  lemma CallAfterEnable(start: State, steps: seq<Step>, t: Tid, u: Tid)
    requires Installed(start) && Runs(start, steps)
    requires var s := After(start, steps); Ready(s, t) && Ready(s, u) && s.status.Disabled?
    ensures var s := After(start, steps);
            && Runs(s, [StartEnable(t), Lock(t, true), Finish(t, true)])
            && var n := After(s, [StartEnable(t), Lock(t, true), Finish(t, true)]);
               && n.status == Active && n.callable == n.isInline
               && Runs(n, [Pin(u), Lock(u, true), Read(u)])
               && Stack(After(n, [Pin(u), Lock(u, true), Read(u)]), u) ==
                  Stack(s, u) + if s.isInline then [Invoking] else []
  {
    var s := After(start, steps);
    InstalledInv(start);
    RunKeepsInv(start, steps);
    EnableArms(s, t, true);
    RunKeepsInv(s, [StartEnable(t), Lock(t, true), Finish(t, true)]);
    CallRunsExactlyWhenArmed(After(s, [StartEnable(t), Lock(t, true), Finish(t, true)]), u);
  }

  /** And after a disable it does not, whatever the hook. */
  lemma CallAfterDisable(start: State, steps: seq<Step>, t: Tid, u: Tid)
    requires Installed(start) && Runs(start, steps)
    requires var s := After(start, steps); Ready(s, t) && Ready(s, u) && s.status.Active?
    ensures var s := After(start, steps);
            && Runs(s, [StartDisable(t), Lock(t, true), Finish(t, true)])
            && var n := After(s, [StartDisable(t), Lock(t, true), Finish(t, true)]);
               && n.status == Disabled && !n.callable
               && Runs(n, [Pin(u), Lock(u, true), Read(u)])
               && Stack(After(n, [Pin(u), Lock(u, true), Read(u)]), u) == Stack(s, u)
  {
    var s := After(start, steps);
    InstalledInv(start);
    RunKeepsInv(start, steps);
    DisableDisarms(s, t, true);
    RunKeepsInv(s, [StartDisable(t), Lock(t, true), Finish(t, true)]);
    CallRunsExactlyWhenArmed(After(s, [StartDisable(t), Lock(t, true), Finish(t, true)]), u);
  }

  /** What is left of a hook: its handle gone, its callable withdrawn or kept, its trampoline freed or leaked. */
  predicate Ended(s: State, n: State, t: Tid, callable: bool, mapped: bool)
  {
    && n.handle == Destroyed(t) && n.callable == callable && n.mapped == mapped
    && n.mutex == s.mutex && n.stacks == s.stacks
  }

  /** A destruction withdraws the callable, and frees the trampoline exactly when no newer layer is on the target. */
  lemma DestructionFreesUnlessLayered(s: State, t: Tid, newer: nat)
    requires Inv(s) && Ready(s, t) && ControlIdle(s)
    ensures var steps := [BeginDestroy(t, false), LockGate(true), Withdraw, UnlockGate, Teardown(newer)];
            Runs(s, steps) && Ended(s, After(s, steps), t, false, newer > 0)
  {
    ReadyIsSettled(s, t);
    var s1 := Apply(s, BeginDestroy(t, false));
    var s2 := Apply(s1, LockGate(true));
    ThreeSteps(s2, Withdraw, UnlockGate, Teardown(newer));
    Prepend(s1, LockGate(true), [Withdraw, UnlockGate, Teardown(newer)]);
    Prepend(s, BeginDestroy(t, false), [LockGate(true), Withdraw, UnlockGate, Teardown(newer)]);
    assert [LockGate(true)] + [Withdraw, UnlockGate, Teardown(newer)] ==
           [LockGate(true), Withdraw, UnlockGate, Teardown(newer)];
    assert [BeginDestroy(t, false)] + [LockGate(true), Withdraw, UnlockGate, Teardown(newer)] ==
           [BeginDestroy(t, false), LockGate(true), Withdraw, UnlockGate, Teardown(newer)];
  }

  /** Under the loader lock, or when the gate cannot be locked, everything stays installed. */
  lemma DestructionLeaks(s: State, t: Tid)
    requires Inv(s) && s.handle.Live? && MayEnter(s, t) && ControlIdle(s)
    ensures Enabled(s, BeginDestroy(t, true))
    ensures Ended(s, Apply(s, BeginDestroy(t, true)), t, s.callable, true)
    ensures Runs(s, [BeginDestroy(t, false), LockGate(false)])
    ensures Ended(s, After(s, [BeginDestroy(t, false), LockGate(false)]), t, s.callable, true)
  {
    TwoSteps(s, BeginDestroy(t, false), LockGate(false));
  }
}
