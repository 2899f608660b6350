/**
 The reader/shutdown handshake of the region cache, as a step system with any number of readers.

 Readers raise a per-thread stripe counter, then look at the initialized flag; shutdown clears
 the flag, then sums the stripes one at a time until a whole sum is zero, then frees the shard
 array. Flag and stripe operations are sequentially consistent steps. The shard-count load is only
 an acquire load, so it may return a stale count: zero, or any one published since the flag store
 that the reader observed. Each init may build an array of another length. init, shutdown, clear and
 cleanup run one at a time under the state mutex.
 */
module ReaderDrain {
  import opened MachineInts

  const STRIPES: nat := 64

  type Tid = u32

  /** The stripe a thread always uses: its id mixed by a 64-bit multiply. */
  function StripeOf(t: Tid): (r: nat)
    ensures r < STRIPES
  {
    Wrap64(t * 0x9E37_79B9_7F4A_7C15) / 0x1_0000_0000_0000 % STRIPES
  }

  /** Where a reader is between raising and lowering its stripe. */
  datatype Reader =
    | Entered                 // stripe raised, flag not yet loaded
    | SawLive(lifecycle: nat) // flag loaded as true, as stored by that init
    | SawDown                 // cache unavailable: the uncached walk
    | Touching(count: nat)    // that non-zero shard count was loaded: the array is indexed below it

  /** The holder of the state mutex. */
  datatype Admin =
    | Nobody
    | InitFlagged                        // flag stored true, array not yet built
    | InitBuilt                          // array built, count not yet published
    | Sweeping                           // clear or cleanup inside the array
    | ShutdownStarted(length: nat)                // shard count captured
    | ShutdownFlagged(length: nat)                // flag stored false
    | Summing(length: nat, next: nat, total: int) // stripes before `next` have been added up
    | Drained(length: nat)                        // a whole sum was zero: clear `length` shards, then free

  datatype State = State(
    initialized: bool,
    shardCount: nat,
    mapped: bool,
    length: nat,         // how many shards the array last built has
    stripes: seq<int>,
    readers: map<Tid, Reader>,
    admin: Admin,
    lifecycle: nat,      // how many times the flag was stored true
    published: map<nat, nat>, // the shard count each init published
    home: Tid -> nat)    // the stripe each thread uses

  const Initial: State := State(false, 0, false, 0, seq(STRIPES, i => 0), map[], Nobody, 0, map[], StripeOf)

  datatype Step =
    | Enter(t: Tid)
    | LoadFlag(t: Tid)
    | LoadCount(t: Tid)
    | LoadStaleCount(t: Tid, from: nat) // the count that an earlier init published
    | LoadStaleZero(t: Tid)
    | Leave(t: Tid)
    | InitStart
    | InitBuild(ok: bool, count: nat)
    | InitPublish
    | SweepStart
    | SweepEnd
    | ShutdownStart
    | ShutdownClearFlag
    | ShutdownZeroCount
    | SumStripe
    | FreeShards

  predicate At(s: State, t: Tid, r: Reader)
  {
    t in s.readers && s.readers[t] == r
  }

  predicate Enabled(s: State, step: Step)
  {
    match step
    case Enter(t) => t !in s.readers
    case LoadFlag(t) => At(s, t, Entered)
    case LoadCount(t) => t in s.readers && s.readers[t].SawLive?
    case LoadStaleCount(t, from) =>
      t in s.readers && s.readers[t].SawLive? && s.readers[t].lifecycle <= from && from in s.published
    case LoadStaleZero(t) => t in s.readers && s.readers[t].SawLive?
    case Leave(t) => t in s.readers && (s.readers[t].SawDown? || s.readers[t].Touching?)
    case InitStart => s.admin.Nobody? && !s.initialized
    case InitBuild(_, count) => s.admin.InitFlagged? && count > 0
    case InitPublish => s.admin.InitBuilt?
    case SweepStart => s.admin.Nobody? && s.mapped
    case SweepEnd => s.admin.Sweeping?
    case ShutdownStart => s.admin.Nobody?
    case ShutdownClearFlag => s.admin.ShutdownStarted?
    case ShutdownZeroCount => s.admin.ShutdownFlagged?
    case SumStripe => s.admin.Summing? && s.admin.next <= |s.stripes|
    case FreeShards => s.admin.Drained?
  }

  function Move(s: State, t: Tid, r: Reader): (n: State)
  {
    s.(readers := s.readers[t := r])
  }

  function Bump(s: State, t: Tid, delta: int): (n: State)
  {
    if s.home(t) < |s.stripes|
    then s.(stripes := s.stripes[s.home(t) := s.stripes[s.home(t)] + delta])
    else s
  }

  function Apply(s: State, step: Step): (n: State)
    requires Enabled(s, step)
  {
    match step
    case Enter(t) => Move(Bump(s, t, 1), t, Entered)
    case LoadFlag(t) => Move(s, t, if s.initialized then SawLive(s.lifecycle) else SawDown)
    case LoadCount(t) => Move(s, t, if s.shardCount > 0 then Touching(s.shardCount) else SawDown)
    case LoadStaleCount(t, from) => Move(s, t, Touching(s.published[from]))
    case LoadStaleZero(t) => Move(s, t, SawDown)
    case Leave(t) => Bump(s, t, -1).(readers := s.readers - {t})
    case InitStart => s.(initialized := true, lifecycle := s.lifecycle + 1, admin := InitFlagged)
    case InitBuild(ok, count) =>
      if ok then s.(mapped := true, length := count, admin := InitBuilt)
      else s.(mapped := false, initialized := false, admin := Nobody)
    case InitPublish =>
      s.(shardCount := s.length, published := s.published[s.lifecycle := s.length], admin := Nobody)
    case SweepStart => s.(admin := Sweeping)
    case SweepEnd => s.(admin := Nobody)
    case ShutdownStart => s.(admin := ShutdownStarted(s.shardCount))
    case ShutdownClearFlag => s.(initialized := false, admin := ShutdownFlagged(s.admin.length))
    case ShutdownZeroCount => s.(shardCount := 0, admin := Summing(s.admin.length, 0, 0))
    case SumStripe =>
      var a := s.admin;
      if a.next < |s.stripes| then s.(admin := Summing(a.length, a.next + 1, a.total + s.stripes[a.next]))
      else if a.total > 0 then s.(admin := Summing(a.length, 0, 0))
      else s.(admin := Drained(a.length))
    case FreeShards => s.(mapped := false, admin := Nobody)
  }

  predicate Runs(s: State, steps: seq<Step>)
    decreases |steps|
  {
    steps == [] || (Enabled(s, steps[0]) && Runs(Apply(s, steps[0]), steps[1..]))
  }

  function After(s: State, steps: seq<Step>): (n: State)
    requires Runs(s, steps)
    decreases |steps|
  {
    if steps == [] then s else After(Apply(s, steps[0]), steps[1..])
  }

  /** The array is there and has exactly this many shards, so every index below it is in bounds. */
  predicate Allocated(s: State, count: nat)
  {
    s.mapped && count == s.length
  }

  /** The safety property: whoever goes through the shard array goes through the one allocated, to its end. */
  predicate Safe(s: State)
  {
    && (forall t :: t in s.readers && s.readers[t].Touching? ==> Allocated(s, s.readers[t].count))
    && (s.admin.Sweeping? ==> Allocated(s, s.shardCount))
    && (s.admin.Drained? && s.admin.length > 0 ==> Allocated(s, s.admin.length))
  }

  // ---------------------------------------------------------------------------------------
  // The inductive invariant
  // ---------------------------------------------------------------------------------------

  function On(readers: set<Tid>, home: Tid -> nat, i: nat): (r: set<Tid>)
  {
    set t | t in readers && home(t) == i
  }

  lemma OneMore(readers: set<Tid>, home: Tid -> nat, i: nat, t: Tid)
    requires t !in readers
    ensures |On(readers + {t}, home, i)| == |On(readers, home, i)| + (if home(t) == i then 1 else 0)
  {
    if home(t) == i {
      assert On(readers + {t}, home, i) == On(readers, home, i) + {t};
    } else {
      assert On(readers + {t}, home, i) == On(readers, home, i);
    }
  }

  predicate HomesInRange(s: State)
  {
    forall t :: s.home(t) < STRIPES
  }

  /** Each stripe counts exactly the readers that raised it and have not lowered it. */
  predicate StripesCount(s: State)
  {
    |s.stripes| == STRIPES && forall i :: 0 <= i < STRIPES ==> s.stripes[i] == |On(s.readers.Keys, s.home, i)|
  }

  predicate Live(s: State, t: Tid)
  {
    t in s.readers && (s.readers[t].SawLive? || s.readers[t].Touching?)
  }

  /** What a reader that saw the flag true may still load, and what it already holds, is the allocated array's count. */
  predicate ReaderCovered(s: State, r: Reader)
  {
    && (r.Touching? ==> Allocated(s, r.count))
    && (r.SawLive? ==>
          && r.lifecycle <= s.lifecycle
          && forall k :: k in s.published && r.lifecycle <= k ==> Allocated(s, s.published[k]))
  }

  predicate LiveReadersCovered(s: State)
  {
    forall t :: t in s.readers ==> ReaderCovered(s, s.readers[t])
  }

  /** While the flag is down and stripes before `next` summed to zero, no live reader uses them. */
  predicate SummedStripesQuiet(s: State)
  {
    match s.admin
    case Summing(_, next, total) =>
      && next <= STRIPES
      && total >= 0
      && (total == 0 ==> forall t :: Live(s, t) ==> s.home(t) >= next)
    case Drained(_) => forall t :: !Live(s, t)
    case _ => true
  }

  predicate AdminConsistent(s: State)
  {
    && (forall k :: k in s.published ==> k <= s.lifecycle)
    && (s.initialized && s.lifecycle in s.published ==> Allocated(s, s.published[s.lifecycle]))
    && (s.shardCount > 0 ==> Allocated(s, s.shardCount))
    && match s.admin
       case Nobody => s.initialized == s.mapped && (s.mapped ==> s.shardCount == s.length)
       case InitFlagged => s.initialized && !s.mapped && s.lifecycle !in s.published
       case InitBuilt => s.initialized && s.mapped && s.lifecycle !in s.published
       case Sweeping => s.initialized && Allocated(s, s.shardCount)
       case ShutdownStarted(length) => s.initialized == s.mapped && (length > 0 ==> Allocated(s, length))
       case ShutdownFlagged(length) => !s.initialized && (length > 0 ==> Allocated(s, length))
       case Summing(length, _, _) => !s.initialized && s.shardCount == 0 && (length > 0 ==> Allocated(s, length))
       case Drained(length) => !s.initialized && s.shardCount == 0 && (length > 0 ==> Allocated(s, length))
  }

  predicate Inv(s: State)
  {
    HomesInRange(s) && StripesCount(s) && LiveReadersCovered(s) && SummedStripesQuiet(s) && AdminConsistent(s)
  }

  lemma EnterCounts(s: State, n: State, t: Tid)
    requires HomesInRange(s) && StripesCount(s) && t !in s.readers
    requires n.home == s.home && n.readers.Keys == s.readers.Keys + {t}
    requires n.stripes == s.stripes[s.home(t) := s.stripes[s.home(t)] + 1]
    ensures StripesCount(n)
  {
    forall i | 0 <= i < STRIPES ensures n.stripes[i] == |On(n.readers.Keys, n.home, i)| {
      OneMore(s.readers.Keys, s.home, i, t);
    }
  }

  lemma LeaveCounts(s: State, n: State, t: Tid)
    requires HomesInRange(s) && StripesCount(s) && t in s.readers
    requires n.home == s.home && n.readers.Keys == s.readers.Keys - {t}
    requires n.stripes == s.stripes[s.home(t) := s.stripes[s.home(t)] - 1]
    ensures StripesCount(n)
  {
    assert s.readers.Keys == n.readers.Keys + {t};
    forall i | 0 <= i < STRIPES ensures n.stripes[i] == |On(n.readers.Keys, n.home, i)| {
      OneMore(n.readers.Keys, s.home, i, t);
    }
  }

  lemma CountsKept(s: State, step: Step)
    requires HomesInRange(s) && StripesCount(s) && Enabled(s, step)
    ensures HomesInRange(Apply(s, step)) && StripesCount(Apply(s, step))
  {
    match step
    case Enter(t) => EnterCounts(s, Apply(s, step), t);
    case Leave(t) => LeaveCounts(s, Apply(s, step), t);
    case _ => assert Apply(s, step).readers.Keys == s.readers.Keys;
  }

  /** A stripe holding a reader is positive, so a stripe read as zero has none. */
  lemma ZeroStripeHasNoReader(s: State, i: nat, t: Tid)
    requires StripesCount(s) && i < STRIPES && t in s.readers && s.home(t) == i
    ensures s.stripes[i] > 0
  {
    assert t in On(s.readers.Keys, s.home, i);
  }

  predicate ReaderStep(step: Step)
  {
    || step.Enter? || step.LoadFlag? || step.LoadCount? || step.LoadStaleCount? || step.LoadStaleZero?
    || step.Leave?
  }

  /** Summing one more stripe: live readers on it make the running total positive. */
  lemma SumKeepsQuiet(s: State)
    requires Inv(s) && Enabled(s, SumStripe)
    ensures SummedStripesQuiet(Apply(s, SumStripe))
  {
    var n := Apply(s, SumStripe);
    forall t | Live(n, t) && n.admin.Summing? && n.admin.total == 0 ensures n.home(t) >= n.admin.next {
      assert Live(s, t);
      if n.admin.next > 0 && n.home(t) == n.admin.next - 1 {
        ZeroStripeHasNoReader(s, n.admin.next - 1, t);
      }
    }
    assert forall t :: Live(n, t) ==> Live(s, t) && s.home(t) < STRIPES;
  }

  /** Readers that enter, load or leave while the flag is down never become live. */
  lemma ReaderKeepsQuiet(s: State, step: Step)
    requires Inv(s) && Enabled(s, step) && ReaderStep(step)
    ensures SummedStripesQuiet(Apply(s, step))
  {
    var n := Apply(s, step);
    forall t | Live(n, t) && (s.admin.Summing? || s.admin.Drained?) ensures Live(s, t) {
    }
  }

  lemma QuietKept(s: State, step: Step)
    requires Inv(s) && Enabled(s, step)
    ensures SummedStripesQuiet(Apply(s, step))
  {
    if step.SumStripe? {
      SumKeepsQuiet(s);
    } else if ReaderStep(step) {
      ReaderKeepsQuiet(s, step);
    }
  }

  lemma ReaderKeepsCover(s: State, step: Step)
    requires Inv(s) && Enabled(s, step) && ReaderStep(step)
    ensures LiveReadersCovered(Apply(s, step))
  {
    var n := Apply(s, step);
    forall t | t in n.readers ensures ReaderCovered(n, n.readers[t]) {
      if t in s.readers {
        assert ReaderCovered(s, s.readers[t]);
      }
    }
  }

  lemma AdminKeepsCover(s: State, step: Step)
    requires Inv(s) && Enabled(s, step) && !ReaderStep(step)
    ensures LiveReadersCovered(Apply(s, step))
  {
    var n := Apply(s, step);
    assert n.readers == s.readers;
    forall t | t in s.readers ensures ReaderCovered(n, s.readers[t]) {
      assert ReaderCovered(s, s.readers[t]);
      assert s.readers[t].SawLive? || s.readers[t].Touching? ==> Live(s, t);
    }
  }

  lemma AdminKept(s: State, step: Step)
    requires AdminConsistent(s) && Enabled(s, step)
    ensures AdminConsistent(Apply(s, step))
  {
  }

  lemma StepKeepsInv(s: State, step: Step)
    requires Inv(s) && Enabled(s, step)
    ensures Inv(Apply(s, step))
  {
    CountsKept(s, step);
    QuietKept(s, step);
    AdminKept(s, step);
    if ReaderStep(step) {
      ReaderKeepsCover(s, step);
    } else {
      AdminKeepsCover(s, step);
    }
  }

  lemma {:induction false} RunKeepsInv(s: State, steps: seq<Step>)
    requires Inv(s) && Runs(s, steps)
    ensures Inv(After(s, steps))
    decreases |steps|
  {
    if steps != [] {
      StepKeepsInv(s, steps[0]);
      RunKeepsInv(Apply(s, steps[0]), steps[1..]);
    }
  }

  lemma InitialInv()
    ensures Inv(Initial)
  {
    forall i | 0 <= i < STRIPES ensures Initial.stripes[i] == |On(Initial.readers.Keys, Initial.home, i)| {
      assert On(Initial.readers.Keys, Initial.home, i) == {};
    }
  }

  /** In every interleaving, whoever is inside the shard array is inside one that is allocated, and in its bounds. */
  lemma NoUseAfterFree(steps: seq<Step>)
    requires Runs(Initial, steps)
    ensures Safe(After(Initial, steps))
  {
    InitialInv();
    RunKeepsInv(Initial, steps);
  }

  /** When shutdown is about to free the array, no reader holds or can still load it. */
  lemma DrainedMeansQuiet(steps: seq<Step>)
    requires Runs(Initial, steps) && After(Initial, steps).admin.Drained?
    ensures forall t :: !Live(After(Initial, steps), t)
  {
    InitialInv();
    RunKeepsInv(Initial, steps);
  }

  // ---------------------------------------------------------------------------------------
  // What init, a reader and shutdown are for
  // ---------------------------------------------------------------------------------------

  ghost predicate Reaches(s: State, steps: seq<Step>, n: State)
  {
    Runs(s, steps) && After(s, steps) == n
  }

  lemma {:induction false} ReachesMore(s: State, steps: seq<Step>, m: State, step: Step, n: State)
    requires Reaches(s, steps, m) && Enabled(m, step) && n == Apply(m, step)
    ensures Reaches(s, steps + [step], n)
    decreases |steps|
  {
    if steps == [] {
      assert steps + [step] == [step] && [step][1..] == [];
    } else {
      assert (steps + [step])[0] == steps[0] && (steps + [step])[1..] == steps[1..] + [step];
      ReachesMore(Apply(s, steps[0]), steps[1..], m, step, n);
    }
  }

  /** An init that succeeds publishes an array of the length asked for. */
  lemma InitPublishes(s: State, count: nat)
    requires s.admin.Nobody? && !s.initialized && count > 0
    ensures Reaches(s, [InitStart, InitBuild(true, count), InitPublish],
                    s.(initialized := true, lifecycle := s.lifecycle + 1, mapped := true, length := count,
                       shardCount := count, published := s.published[s.lifecycle + 1 := count]))
  {
    var s1 := Apply(s, InitStart);
    var s2 := Apply(s1, InitBuild(true, count));
    assert Reaches(s, [], s);
    ReachesMore(s, [], s, InitStart, s1);
    ReachesMore(s, [] + [InitStart], s1, InitBuild(true, count), s2);
    ReachesMore(s, [] + [InitStart] + [InitBuild(true, count)], s2, InitPublish, Apply(s2, InitPublish));
    assert [] + [InitStart] + [InitBuild(true, count)] + [InitPublish] ==
           [InitStart, InitBuild(true, count), InitPublish];
  }

  /** Between operations a reader enters the array exactly when the cache is initialized, with the array's length. */
  lemma ReaderUsesTheCache(s: State, t: Tid)
    requires Inv(s) && s.admin.Nobody? && t !in s.readers
    ensures Runs(s, [Enter(t), LoadFlag(t)])
    ensures s.initialized && s.length > 0 ==>
              && Runs(s, [Enter(t), LoadFlag(t), LoadCount(t)])
              && At(After(s, [Enter(t), LoadFlag(t), LoadCount(t)]), t, Touching(s.length))
    ensures !s.initialized ==> At(After(s, [Enter(t), LoadFlag(t)]), t, SawDown)
  {
    var s1 := Apply(s, Enter(t));
    var s2 := Apply(s1, LoadFlag(t));
    assert Reaches(s, [], s);
    ReachesMore(s, [], s, Enter(t), s1);
    ReachesMore(s, [] + [Enter(t)], s1, LoadFlag(t), s2);
    assert [] + [Enter(t)] + [LoadFlag(t)] == [Enter(t), LoadFlag(t)];
    if s.initialized {
      ReachesMore(s, [Enter(t), LoadFlag(t)], s2, LoadCount(t), Apply(s2, LoadCount(t)));
      assert [Enter(t), LoadFlag(t)] + [LoadCount(t)] == [Enter(t), LoadFlag(t), LoadCount(t)];
    }
  }

  /** The state of a shutdown that has added up this many empty stripes. */
  function SummedTo(s: State, k: nat): (n: State)
  {
    s.(initialized := false, shardCount := 0, admin := Summing(s.shardCount, k, 0))
  }

  lemma {:induction false} EmptyStripesSum(s: State, steps: seq<Step>, k: nat) returns (more: seq<Step>)
    requires Inv(s) && s.readers == map[] && k <= STRIPES && Reaches(s, steps, SummedTo(s, k))
    ensures Reaches(s, more, SummedTo(s, STRIPES))
    decreases STRIPES - k
  {
    if k == STRIPES {
      more := steps;
    } else {
      assert On(s.readers.Keys, s.home, k) == {};
      ReachesMore(s, steps, SummedTo(s, k), SumStripe, SummedTo(s, k + 1));
      more := EmptyStripesSum(s, steps + [SumStripe], k + 1);
    }
  }

  lemma ShutdownStarts(s: State) returns (steps: seq<Step>)
    requires s.admin.Nobody?
    ensures Reaches(s, steps, SummedTo(s, 0))
  {
    var s1 := Apply(s, ShutdownStart);
    var s2 := Apply(s1, ShutdownClearFlag);
    assert Reaches(s, [], s);
    ReachesMore(s, [], s, ShutdownStart, s1);
    ReachesMore(s, [] + [ShutdownStart], s1, ShutdownClearFlag, s2);
    ReachesMore(s, [] + [ShutdownStart] + [ShutdownClearFlag], s2, ShutdownZeroCount, SummedTo(s, 0));
    steps := [] + [ShutdownStart] + [ShutdownClearFlag] + [ShutdownZeroCount];
  }

  /** With no reader inside, a shutdown runs through and frees the array. */
  lemma ShutdownFrees(s: State) returns (steps: seq<Step>)
    requires Inv(s) && s.admin.Nobody? && s.readers == map[]
    ensures Reaches(s, steps, s.(initialized := false, shardCount := 0, mapped := false))
  {
    steps := ShutdownStarts(s);
    steps := EmptyStripesSum(s, steps, 0);
    var summed := SummedTo(s, STRIPES);
    var drained := summed.(admin := Drained(s.shardCount));
    ReachesMore(s, steps, summed, SumStripe, drained);
    ReachesMore(s, steps + [SumStripe], drained, FreeShards,
                s.(initialized := false, shardCount := 0, mapped := false));
    steps := steps + [SumStripe] + [FreeShards];
  }
}
