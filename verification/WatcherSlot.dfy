/**
 The auto-reload watcher slot: enable, disable, and the re-point a load performs when it switches the
 configuration file under a live watcher.

 A re-point moves the stale watcher out in one critical section, joins it with no lock held, and starts
 a fresh one in a second critical section; in between, any number of enables, disables and other loads
 may run. Each critical section is one step. The disable generation is a 64-bit counter that does not go
 all the way round within one re-point. The path an enable or a restart uses was read beforehand, so it
 is simply given; it is empty before the first load.
 */
module WatcherSlot {
  import opened MachineInts
  import opened Options
  import opened Ascii

  type Thread = nat

  /** A watcher on a resolved path, with the user callback it was built with and its worker thread. */
  datatype Watcher = Watcher(path: string, callback: Option<nat>, worker: Thread)

  datatype State = State(
    slot: Option<Watcher>,
    callback: Option<nat>,         // the persisted user callback
    servicer: Option<Thread>,      // the hotkey servicer's worker, once started
    disables: nat,                 // the generation is its low 64 bits
    repoints: map<nat, nat>)       // loads that moved a watcher out, with the disables they saw

  const Initial: State := State(None, None, None, 0, map[])

  datatype Step =
    | StartServicer(worker: Thread)
    | MoveOut(load: nat, path: string, caller: Thread)
    | Restart(load: nat, path: string, starts: bool, worker: Thread)
    | Enable(path: string, callback: Option<nat>, starts: bool, worker: Thread)
    | Disable(caller: Thread)

  /** Windows paths compare without regard to ASCII case. */
  predicate SamePath(a: string, b: string)
  {
    |a| == |b| && forall i :: 0 <= i < |a| ==> LowerChar(a[i]) == LowerChar(b[i])
  }

  function Generation(disables: nat): (r: u64)
  {
    disables % TWO_64
  }

  predicate Enabled(s: State, step: Step)
  {
    match step
    case MoveOut(load, _, _) => load !in s.repoints
    case Restart(load, _, _, _) => load in s.repoints && s.disables - s.repoints[load] < TWO_64
    case _ => true
  }

  /** start_watcher_locked. */
  function StartWatcher(s: State, path: string, starts: bool, worker: Thread): (n: State)
  {
    if s.slot.Some? then s
    else if starts then s.(slot := Some(Watcher(path, s.callback, worker)))
    else s.(slot := None, callback := None)
  }

  /** The disable is refused on the watcher's own worker and on the servicer's. */
  predicate Refused(s: State, caller: Thread)
  {
    (s.slot.Some? && s.slot.value.worker == caller) || s.servicer == Some(caller)
  }

  function Apply(s: State, step: Step): (n: State)
    requires Enabled(s, step)
  {
    match step
    case StartServicer(worker) => if s.servicer.Some? then s else s.(servicer := Some(worker))
    case MoveOut(load, path, caller) =>
      if s.slot.Some? && !SamePath(s.slot.value.path, path) && s.slot.value.worker != caller
      then s.(slot := None, repoints := s.repoints[load := s.disables])
      else s
    case Restart(load, path, starts, worker) =>
      var done := s.(repoints := s.repoints - {load});
      if path != "" && Generation(s.disables) == Generation(s.repoints[load])
      then StartWatcher(done, path, starts, worker) else done
    case Enable(path, callback, starts, worker) =>
      if path == "" || s.slot.Some? then s
      else StartWatcher(s.(callback := callback), path, starts, worker)
    case Disable(caller) =>
      if Refused(s, caller) then s
      else s.(slot := None, callback := None, disables := s.disables + 1)
  }

  predicate Runs(s: State, steps: seq<Step>)
    decreases |steps|
  {
    steps == [] || (Enabled(s, steps[0]) && Runs(Apply(s, steps[0]), steps[1..]))
  }

  function After(s: State, steps: seq<Step>): (n: State)
    requires Runs(s, steps)
    decreases |steps|
  {
    if steps == [] then s else After(Apply(s, steps[0]), steps[1..])
  }

  // ---------------------------------------------------------------------------------------
  // The invariants
  // ---------------------------------------------------------------------------------------

  /** Pending re-points saw no disable that has not happened, and a live watcher runs the persisted callback. */
  predicate Inv(s: State)
  {
    && (forall l :: l in s.repoints ==> s.repoints[l] <= s.disables)
    && (s.slot.Some? ==> s.slot.value.callback == s.callback)
  }

  lemma StepKeepsInv(s: State, step: Step)
    requires Inv(s) && Enabled(s, step)
    ensures Inv(Apply(s, step))
  {
  }

  lemma {:induction false} RunKeepsInv(s: State, steps: seq<Step>)
    requires Inv(s) && Runs(s, steps)
    ensures Inv(After(s, steps))
    decreases |steps|
  {
    if steps != [] {
      StepKeepsInv(s, steps[0]);
      RunKeepsInv(Apply(s, steps[0]), steps[1..]);
    }
  }

  /** Off, and every re-point still pending will notice. */
  predicate Off(s: State)
  {
    s.slot.None? && s.callback.None? && forall l :: l in s.repoints ==> s.repoints[l] < s.disables
  }

  lemma SameGeneration(a: nat, b: nat)
    requires a <= b && b - a < TWO_64 && Generation(a) == Generation(b)
    ensures a == b
  {
    assert a == a / TWO_64 * TWO_64 + a % TWO_64;
    assert b == b / TWO_64 * TWO_64 + b % TWO_64;
    assert b - a == (b / TWO_64 - a / TWO_64) * TWO_64;
  }

  lemma StepKeepsOff(s: State, step: Step)
    requires Off(s) && Enabled(s, step) && !step.Enable?
    ensures Off(Apply(s, step))
  {
    if step.Restart? && Generation(s.disables) == Generation(s.repoints[step.load]) {
      SameGeneration(s.repoints[step.load], s.disables);
    }
  }

  predicate NoEnable(steps: seq<Step>)
  {
    forall i :: 0 <= i < |steps| ==> !steps[i].Enable?
  }

  lemma {:induction false} RunKeepsOff(s: State, steps: seq<Step>)
    requires Off(s) && Runs(s, steps) && NoEnable(steps)
    ensures Off(After(s, steps))
    decreases |steps|
  {
    if steps != [] {
      StepKeepsOff(s, steps[0]);
      RunKeepsOff(Apply(s, steps[0]), steps[1..]);
    }
  }

  /**
   A disable that is not refused takes effect for good: until a later enable the slot stays empty and the
   user callback stays released, even when re-points begun before it finish after it.
   */
  lemma DisabledStaysOff(before: seq<Step>, caller: Thread, later: seq<Step>)
    requires Runs(Initial, before) && !Refused(After(Initial, before), caller)
    requires Runs(Apply(After(Initial, before), Disable(caller)), later) && NoEnable(later)
    ensures var s := After(Apply(After(Initial, before), Disable(caller)), later);
            s.slot.None? && s.callback.None?
  {
    RunKeepsInv(Initial, before);
    RunKeepsOff(Apply(After(Initial, before), Disable(caller)), later);
  }

  predicate Undisturbing(step: Step)
  {
    step.StartServicer? || step.MoveOut?
  }

  predicate Undisturbed(steps: seq<Step>)
  {
    forall i :: 0 <= i < |steps| ==> Undisturbing(steps[i])
  }

  lemma {:induction false} UndisturbedKeepsRepoint(s: State, steps: seq<Step>, load: nat)
    requires Runs(s, steps) && Undisturbed(steps) && s.slot.None? && load in s.repoints
    ensures var n := After(s, steps);
            && n.slot.None? && n.callback == s.callback && n.disables == s.disables
            && load in n.repoints && n.repoints[load] == s.repoints[load]
    decreases |steps|
  {
    if steps != [] {
      assert Undisturbing(steps[0]);
      UndisturbedKeepsRepoint(Apply(s, steps[0]), steps[1..], load);
    }
  }

  /** The converse: with no enable or disable in between, a re-point brings an equivalent watcher back. */
  lemma UndisturbedRepointRestarts(before: seq<Step>, load: nat, path: string, caller: Thread, between: seq<Step>,
                                   latest: string, worker: Thread)
    requires Runs(Initial, before) && latest != ""
    requires var s := After(Initial, before);
             && s.slot.Some? && Enabled(s, MoveOut(load, path, caller))
             && !SamePath(s.slot.value.path, path) && s.slot.value.worker != caller
             && Runs(Apply(s, MoveOut(load, path, caller)), between) && Undisturbed(between)
    ensures var s := After(Initial, before);
            var m := After(Apply(s, MoveOut(load, path, caller)), between);
            && Enabled(m, Restart(load, latest, true, worker))
            && Apply(m, Restart(load, latest, true, worker)).slot ==
               Some(Watcher(latest, s.slot.value.callback, worker))
  {
    RunKeepsInv(Initial, before);
    var s := After(Initial, before);
    UndisturbedKeepsRepoint(Apply(s, MoveOut(load, path, caller)), between, load);
  }

  /** An enable on an empty slot starts a watcher with its callback, or leaves none when the watcher does not start. */
  lemma EnableStarts(s: State, path: string, callback: Option<nat>, starts: bool, worker: Thread)
    requires path != "" && s.slot.None?
    ensures var n := Apply(s, Enable(path, callback, starts, worker));
            && n.slot == (if starts then Some(Watcher(path, callback, worker)) else None)
            && n.callback == (if starts then callback else None)
            && n.disables == s.disables && n.repoints == s.repoints && n.servicer == s.servicer
  {
  }

  /** Before the first load, or over a running watcher, it changes nothing. */
  lemma EnableRefused(s: State, path: string, callback: Option<nat>, starts: bool, worker: Thread)
    requires path == "" || s.slot.Some?
    ensures Apply(s, Enable(path, callback, starts, worker)) == s
  {
  }

  /** A disable is refused exactly on the worker it would have to join, and otherwise empties the slot for good. */
  lemma DisableTakesEffect(s: State, caller: Thread)
    ensures var n, own := Apply(s, Disable(caller)), s.slot.Some? && s.slot.value.worker == caller;
            if own || s.servicer == Some(caller) then n == s
            else n.slot.None? && n.callback.None? && n.disables == s.disables + 1 && n.repoints == s.repoints
  {
  }

  /** A load moves the watcher out exactly when it watches another file and the load is not on its own worker. */
  lemma MoveOutMeans(s: State, load: nat, path: string, caller: Thread)
    requires Inv(s) && load !in s.repoints
    ensures var n := Apply(s, MoveOut(load, path, caller));
            if s.slot.Some? && s.slot.value.worker != caller
               && (|path| != |s.slot.value.path|
                   || exists i :: 0 <= i < |path| && LowerChar(path[i]) != LowerChar(s.slot.value.path[i]))
            then n == s.(slot := None, repoints := s.repoints[load := s.disables])
            else n == s
  {
  }

  /** The servicer is started once. */
  lemma ServicerStartsOnce(s: State, first: Thread, second: Thread)
    requires s.servicer.None?
    ensures var n := Apply(s, StartServicer(first));
            n == s.(servicer := Some(first)) && Apply(n, StartServicer(second)) == n
  {
  }
}
