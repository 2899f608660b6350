/**
 The latch that quiesces background reloads before a Logic DLL is unmapped, with any number of
 passes.

 A pass checks the latch, raises the in-flight count, checks the latch again and backs out if it was
 set; otherwise it runs setters one at a time and then the user callback, checking the latch before
 each, and lowers the count at the end. The unload side sets the latch and then waits for a zero count.
 */
module ReloadGate {

  type Pass = nat

  datatype Stage =
    | Checked     // latch seen clear, count not yet raised
    | Counted     // count raised, latch not yet seen again
    | BackingOut  // latch seen set: lower the count, run nothing
    | Engaged     // between setters
    | InSetter
    | BeforeCallback
    | InCallback
    | Leaving

  datatype State = State(
    latch: bool,
    inFlight: int,
    passes: map<Pass, Stage>,
    awaiting: bool,    // an unload has latched and is waiting, with no rearm since
    quiesced: bool)    // such a wait returned true, with no rearm since

  const Initial: State := State(false, 0, map[], false, false)

  datatype Step =
    | Start(p: Pass)
    | Increment(p: Pass)
    | Recheck(p: Pass)
    | BackOut(p: Pass)
    | EnterSetter(p: Pass)
    | LeaveSetter(p: Pass)
    | SettersDone(p: Pass)
    | EnterCallback(p: Pass, present: bool)
    | LeaveCallback(p: Pass)
    | Finish(p: Pass)
    | Latch
    | AwaitPoll
    | AwaitTimeout
    | Rearm

  predicate At(s: State, p: Pass, stage: Stage)
  {
    p in s.passes && s.passes[p] == stage
  }

  predicate Enabled(s: State, step: Step)
  {
    match step
    case Start(p) => p !in s.passes
    case Increment(p) => At(s, p, Checked)
    case Recheck(p) => At(s, p, Counted)
    case BackOut(p) => At(s, p, BackingOut)
    case EnterSetter(p) => At(s, p, Engaged)
    case LeaveSetter(p) => At(s, p, InSetter)
    case SettersDone(p) => At(s, p, Engaged)
    case EnterCallback(p, _) => At(s, p, BeforeCallback)
    case LeaveCallback(p) => At(s, p, InCallback)
    case Finish(p) => At(s, p, Leaving)
    case Latch => true
    case AwaitPoll => s.awaiting
    case AwaitTimeout => s.awaiting
    case Rearm => true
  }

  function Go(s: State, p: Pass, stage: Stage): (n: State)
  {
    s.(passes := s.passes[p := stage])
  }

  function Exit(s: State, p: Pass): (n: State)
  {
    s.(inFlight := s.inFlight - 1, passes := s.passes - {p})
  }

  function Apply(s: State, step: Step): (n: State)
    requires Enabled(s, step)
  {
    match step
    case Start(p) => if s.latch then s else Go(s, p, Checked)
    case Increment(p) => Go(s, p, Counted).(inFlight := s.inFlight + 1)
    case Recheck(p) => Go(s, p, if s.latch then BackingOut else Engaged)
    case BackOut(p) => Exit(s, p)
    case EnterSetter(p) => Go(s, p, if s.latch then BeforeCallback else InSetter)
    case LeaveSetter(p) => Go(s, p, Engaged)
    case SettersDone(p) => Go(s, p, BeforeCallback)
    case EnterCallback(p, present) => Go(s, p, if present && !s.latch then InCallback else Leaving)
    case LeaveCallback(p) => Go(s, p, Leaving)
    case Finish(p) => Exit(s, p)
    case Latch => s.(latch := true, awaiting := true)
    case AwaitPoll => if s.inFlight == 0 then s.(awaiting := false, quiesced := true) else s
    case AwaitTimeout => s.(awaiting := false)
    case Rearm => s.(latch := false, awaiting := false, quiesced := false)
  }

  predicate Runs(s: State, steps: seq<Step>)
    decreases |steps|
  {
    steps == [] || (Enabled(s, steps[0]) && Runs(Apply(s, steps[0]), steps[1..]))
  }

  function After(s: State, steps: seq<Step>): (n: State)
    requires Runs(s, steps)
    decreases |steps|
  {
    if steps == [] then s else After(Apply(s, steps[0]), steps[1..])
  }

  /** The passes between their increment and their decrement. */
  function InFlight(passes: map<Pass, Stage>): (r: set<Pass>)
  {
    set p | p in passes && !passes[p].Checked?
  }

  predicate RunsConsumerCode(stage: Stage)
  {
    stage.InSetter? || stage.InCallback?
  }

  // ---------------------------------------------------------------------------------------
  // The inductive invariant
  // ---------------------------------------------------------------------------------------

  predicate Harmless(stage: Stage)
  {
    stage.Checked? || stage.Counted? || stage.BackingOut?
  }

  predicate Inv(s: State)
  {
    && s.inFlight == |InFlight(s.passes)|
    && (s.awaiting || s.quiesced ==> s.latch)
    && (s.quiesced ==> forall p :: p in s.passes ==> Harmless(s.passes[p]))
  }

  lemma PassMoves(passes: map<Pass, Stage>, p: Pass, stage: Stage)
    requires p in passes && !passes[p].Checked? && !stage.Checked?
    ensures InFlight(passes[p := stage]) == InFlight(passes)
  {
  }

  lemma PassEnters(passes: map<Pass, Stage>, p: Pass)
    requires p in passes && passes[p].Checked?
    ensures |InFlight(passes[p := Counted])| == |InFlight(passes)| + 1
  {
    assert InFlight(passes[p := Counted]) == InFlight(passes) + {p};
  }

  lemma PassLeaves(passes: map<Pass, Stage>, p: Pass)
    requires p in passes && !passes[p].Checked?
    ensures |InFlight(passes - {p})| == |InFlight(passes)| - 1
  {
    assert InFlight(passes) == InFlight(passes - {p}) + {p};
  }

  lemma PassStarts(passes: map<Pass, Stage>, p: Pass)
    requires p !in passes
    ensures InFlight(passes[p := Checked]) == InFlight(passes)
  {
  }

  lemma CountKept(s: State, step: Step)
    requires s.inFlight == |InFlight(s.passes)| && Enabled(s, step)
    ensures Apply(s, step).inFlight == |InFlight(Apply(s, step).passes)|
  {
    match step
    case Start(p) => PassStarts(s.passes, p);
    case Increment(p) => PassEnters(s.passes, p);
    case BackOut(p) => PassLeaves(s.passes, p);
    case Finish(p) => PassLeaves(s.passes, p);
    case Latch =>
    case AwaitPoll =>
    case AwaitTimeout =>
    case Rearm =>
    case _ => PassMoves(s.passes, step.p, Apply(s, step).passes[step.p]);
  }

  /** A zero count means every remaining pass has yet to raise it. */
  lemma ZeroMeansHarmless(s: State)
    requires s.inFlight == |InFlight(s.passes)| && s.inFlight == 0
    ensures forall p :: p in s.passes ==> Harmless(s.passes[p])
  {
    forall p | p in s.passes ensures Harmless(s.passes[p]) {
      assert p !in InFlight(s.passes);
    }
  }

  lemma StepKeepsInv(s: State, step: Step)
    requires Inv(s) && Enabled(s, step)
    ensures Inv(Apply(s, step))
  {
    CountKept(s, step);
    if step.AwaitPoll? && s.inFlight == 0 {
      ZeroMeansHarmless(s);
    }
  }

  lemma {:induction false} RunKeepsInv(s: State, steps: seq<Step>)
    requires Inv(s) && Runs(s, steps)
    ensures Inv(After(s, steps))
    decreases |steps|
  {
    if steps != [] {
      StepKeepsInv(s, steps[0]);
      RunKeepsInv(Apply(s, steps[0]), steps[1..]);
    }
  }

  lemma InitialInv()
    ensures Inv(Initial)
  {
    assert InFlight(Initial.passes) == {};
  }

  /** In every run the count is exactly the passes between increment and decrement. */
  lemma CountIsPassesInFlight(steps: seq<Step>)
    requires Runs(Initial, steps)
    ensures After(Initial, steps).inFlight == |InFlight(After(Initial, steps).passes)|
  {
    InitialInv();
    RunKeepsInv(Initial, steps);
  }

  predicate NoRearm(steps: seq<Step>)
  {
    forall i :: 0 <= i < |steps| ==> !steps[i].Rearm?
  }

  lemma {:induction false} QuiescedStays(s: State, steps: seq<Step>)
    requires Inv(s) && s.quiesced && Runs(s, steps) && NoRearm(steps)
    ensures After(s, steps).quiesced && Inv(After(s, steps))
    decreases |steps|
  {
    if steps != [] {
      StepKeepsInv(s, steps[0]);
      QuiescedStays(Apply(s, steps[0]), steps[1..]);
    }
  }

  /**
   Once a latched wait has returned true, no pass is in a setter or the user callback, then or at any
   later moment before a rearm.
   */
  lemma SilentUntilRearm(before: seq<Step>, later: seq<Step>, p: Pass)
    requires Runs(Initial, before) && After(Initial, before).awaiting
    requires Runs(Apply(After(Initial, before), AwaitPoll), later) && NoRearm(later)
    requires Apply(After(Initial, before), AwaitPoll).quiesced
    ensures var s := After(Apply(After(Initial, before), AwaitPoll), later);
            p in s.passes ==> !RunsConsumerCode(s.passes[p])
  {
    InitialInv();
    RunKeepsInv(Initial, before);
    StepKeepsInv(After(Initial, before), AwaitPoll);
    QuiescedStays(Apply(After(Initial, before), AwaitPoll), later);
  }

  // ---------------------------------------------------------------------------------------
  // What passes and the wait are for
  // ---------------------------------------------------------------------------------------

  ghost predicate Reaches(s: State, steps: seq<Step>, n: State)
  {
    Runs(s, steps) && After(s, steps) == n
  }

  lemma {:induction false} ReachesMore(s: State, steps: seq<Step>, m: State, step: Step, n: State)
    requires Reaches(s, steps, m) && Enabled(m, step) && n == Apply(m, step)
    ensures Reaches(s, steps + [step], n)
    decreases |steps|
  {
    if steps == [] {
      assert steps + [step] == [step] && [step][1..] == [];
    } else {
      assert (steps + [step])[0] == steps[0] && (steps + [step])[1..] == steps[1..] + [step];
      ReachesMore(Apply(s, steps[0]), steps[1..], m, step, n);
    }
  }

  /** The state with this pass in flight. */
  function During(s: State, p: Pass, stage: Stage): (n: State)
  {
    s.(passes := s.passes[p := stage], inFlight := s.inFlight + 1)
  }

  lemma PassGoes(s: State, steps: seq<Step>, p: Pass, stage: Stage, step: Step, next: Stage)
    requires !s.latch && Reaches(s, steps, During(s, p, stage))
    requires Enabled(During(s, p, stage), step) && Apply(During(s, p, stage), step) == Go(During(s, p, stage), p, next)
    ensures Reaches(s, steps + [step], During(s, p, next))
  {
    assert Go(During(s, p, stage), p, next) == During(s, p, next);
    ReachesMore(s, steps, During(s, p, stage), step, During(s, p, next));
  }

  function ToSetter(p: Pass): (steps: seq<Step>)
  {
    [Start(p), Increment(p), Recheck(p), EnterSetter(p)]
  }

  function ToCallback(p: Pass): (steps: seq<Step>)
  {
    ToSetter(p) + [LeaveSetter(p), SettersDone(p), EnterCallback(p, true)]
  }

  /** While nothing is latched, a pass gets to run a setter. */
  lemma UnlatchedPassRunsSetter(s: State, p: Pass)
    requires !s.latch && p !in s.passes
    ensures Reaches(s, ToSetter(p), During(s, p, InSetter))
  {
    assert Reaches(s, [], s);
    ReachesMore(s, [], s, Start(p), Go(s, p, Checked));
    assert Apply(Go(s, p, Checked), Increment(p)) == During(s, p, Counted);
    ReachesMore(s, [] + [Start(p)], Go(s, p, Checked), Increment(p), During(s, p, Counted));
    var steps := [] + [Start(p)] + [Increment(p)];
    PassGoes(s, steps, p, Counted, Recheck(p), Engaged);
    PassGoes(s, steps + [Recheck(p)], p, Engaged, EnterSetter(p), InSetter);
    assert steps + [Recheck(p)] + [EnterSetter(p)] == ToSetter(p);
  }

  /** After its setters it gets to run the callback. */
  lemma UnlatchedPassRunsCallback(s: State, p: Pass)
    requires !s.latch && p !in s.passes
    ensures Reaches(s, ToCallback(p), During(s, p, InCallback))
  {
    UnlatchedPassRunsSetter(s, p);
    var steps := ToSetter(p);
    PassGoes(s, steps, p, InSetter, LeaveSetter(p), Engaged);
    PassGoes(s, steps + [LeaveSetter(p)], p, Engaged, SettersDone(p), BeforeCallback);
    PassGoes(s, steps + [LeaveSetter(p)] + [SettersDone(p)], p, BeforeCallback, EnterCallback(p, true), InCallback);
    assert steps + [LeaveSetter(p)] + [SettersDone(p)] + [EnterCallback(p, true)] == ToCallback(p);
  }

  /** And then it leaves no trace. */
  lemma UnlatchedPassFinishes(s: State, p: Pass)
    requires !s.latch && p !in s.passes
    ensures Reaches(s, ToCallback(p) + [LeaveCallback(p), Finish(p)], s)
  {
    UnlatchedPassRunsCallback(s, p);
    var steps := ToCallback(p);
    PassGoes(s, steps, p, InCallback, LeaveCallback(p), Leaving);
    assert s.passes[p := Leaving] - {p} == s.passes;
    ReachesMore(s, steps + [LeaveCallback(p)], During(s, p, Leaving), Finish(p), s);
    assert steps + [LeaveCallback(p)] + [Finish(p)] == steps + [LeaveCallback(p), Finish(p)];
  }

  /** In every reachable state the wait reports quiescence exactly when no pass is between increment and decrement. */
  lemma AwaitReportsQuiescence(steps: seq<Step>)
    requires Runs(Initial, steps) && After(Initial, steps).awaiting
    ensures var s := After(Initial, steps);
            && s.latch
            && Apply(s, AwaitPoll) ==
               if forall p :: p in s.passes ==> s.passes[p].Checked?
               then s.(awaiting := false, quiesced := true) else s
  {
    var s := After(Initial, steps);
    InitialInv();
    RunKeepsInv(Initial, steps);
    NoneInFlight(s.passes);
  }

  lemma NoneInFlight(passes: map<Pass, Stage>)
    ensures |InFlight(passes)| == 0 <==> forall p :: p in passes ==> passes[p].Checked?
  {
    if p :| p in passes && !passes[p].Checked? {
      assert p in InFlight(passes);
    } else {
      assert InFlight(passes) == {};
    }
  }

  /** A wait that gives up reports nothing: the latch and what was known stay. */
  lemma AwaitGivesUp(s: State)
    requires s.awaiting
    ensures Enabled(s, AwaitTimeout) && Apply(s, AwaitTimeout) == s.(awaiting := false)
  {
  }

  /** An unload that latches with no pass in flight is quiescent at the first look. */
  lemma LatchThenAwait(s: State)
    requires s.inFlight == 0
    ensures Reaches(s, [Latch, AwaitPoll], s.(latch := true, awaiting := false, quiesced := true))
  {
    var n := s.(latch := true, awaiting := true);
    assert Reaches(s, [], s);
    ReachesMore(s, [], s, Latch, n);
    ReachesMore(s, [] + [Latch], n, AwaitPoll, s.(latch := true, awaiting := false, quiesced := true));
    assert [] + [Latch] + [AwaitPoll] == [Latch, AwaitPoll];
  }
}
