/**
 The profiler's ring of seqlock slots, with any number of recording threads and exporters.

 A writer claims a position, raises the slot's 32-bit sequence, stores the four payload fields one by
 one, and raises the sequence again. A reader loads the sequence, the four fields one by one, and the
 sequence again, and emits what it read if the sequence was even and has not changed. Steps are
 interleaved one atomic access at a time. A writer still at work is never lapped by a whole ring of
 later ones, and the ring is not reset.
 */
module Seqlock {
  import opened MachineInts

  const CAPACITY: nat := 65536

  /** One recorded sample; name 0 stands for the null pointer. */
  datatype Record = Record(name: nat, start: i64, duration: u32, thread: u32)

  /** `count` is the number of raises so far; the stored sequence is its low 32 bits. */
  datatype Slot = Slot(count: nat, payload: Record, completed: seq<Record>)

  datatype Writer = Writer(slot: nat, record: Record, stage: WriterStage)

  datatype WriterStage = Claimed | Opened | NameStored | StartStored | DurationStored | ThreadStored

  datatype Reader = Reader(slot: nat, before: nat, stage: ReaderStage, seen: Record)

  datatype ReaderStage = SequenceLoaded | NameLoaded | StartLoaded | DurationLoaded | ThreadLoaded

  datatype Emitted = Emitted(slot: nat, record: Record)

  datatype State = State(
    position: nat,
    slots: seq<Slot>,
    writers: map<nat, Writer>,
    readers: map<nat, Reader>,
    emitted: seq<Emitted>)

  datatype Step =
    | Claim(w: nat, record: Record)
    | Write(w: nat)                    // the writer's next atomic access
    | Begin(r: nat, slot: nat)         // load the sequence
    | Load(r: nat)                     // the reader's next payload load
    | Finish(r: nat)                   // load the sequence again: emit or drop

  const Blank: Record := Record(0, 0, 0, 0)

  const Initial: State := State(0, seq(CAPACITY, i => Slot(0, Blank, [])), map[], map[], [])

  function Sequence(slot: Slot): (r: u32)
  {
    slot.count % TWO_32
  }

  /** Nobody is still writing the slot about to be claimed. */
  predicate NotLapped(s: State, slot: nat)
  {
    forall w :: w in s.writers ==> s.writers[w].slot != slot
  }

  predicate Enabled(s: State, step: Step)
  {
    match step
    case Claim(w, _) => w !in s.writers && NotLapped(s, s.position % CAPACITY)
    case Write(w) => w in s.writers && s.writers[w].slot < |s.slots|
    case Begin(r, slot) => r !in s.readers && slot < |s.slots|
    case Load(r) => r in s.readers && s.readers[r].slot < |s.slots| && !s.readers[r].stage.ThreadLoaded?
    case Finish(r) =>
      && r in s.readers && s.readers[r].slot < |s.slots| && s.readers[r].stage.ThreadLoaded?
      // the 32-bit sequence does not go all the way round during one read
      && s.slots[s.readers[r].slot].count - s.readers[r].before < TWO_32
  }

  function Raise(slot: Slot): (r: Slot)
  {
    slot.(count := slot.count + 1)
  }

  function Put(s: State, i: nat, slot: Slot): (n: State)
  {
    if i < |s.slots| then s.(slots := s.slots[i := slot]) else s
  }

  /** A writer's next access, and where it then stands. */
  function Store(slot: Slot, x: Writer): (r: Slot)
  {
    match x.stage
    case Claimed => Raise(slot)
    case Opened => slot.(payload := slot.payload.(name := x.record.name))
    case NameStored => slot.(payload := slot.payload.(start := x.record.start))
    case StartStored => slot.(payload := slot.payload.(duration := x.record.duration))
    case DurationStored => slot.(payload := slot.payload.(thread := x.record.thread))
    case ThreadStored => Raise(slot).(completed := slot.completed + [x.record])
  }

  function Later(stage: WriterStage): (r: WriterStage)
    requires !stage.ThreadStored?
  {
    match stage
    case Claimed => Opened
    case Opened => NameStored
    case NameStored => StartStored
    case StartStored => DurationStored
    case DurationStored => ThreadStored
  }

  function Read(x: Reader, payload: Record): (r: Reader)
    requires !x.stage.ThreadLoaded?
  {
    match x.stage
    case SequenceLoaded => x.(stage := NameLoaded, seen := x.seen.(name := payload.name))
    case NameLoaded => x.(stage := StartLoaded, seen := x.seen.(start := payload.start))
    case StartLoaded => x.(stage := DurationLoaded, seen := x.seen.(duration := payload.duration))
    case DurationLoaded => x.(stage := ThreadLoaded, seen := x.seen.(thread := payload.thread))
  }

  function Apply(s: State, step: Step): (n: State)
    requires Enabled(s, step)
  {
    match step
    case Claim(w, record) =>
      s.(position := s.position + 1, writers := s.writers[w := Writer(s.position % CAPACITY, record, Claimed)])
    case Write(w) =>
      var x := s.writers[w];
      var stored := Put(s, x.slot, Store(s.slots[x.slot], x));
      if x.stage.ThreadStored? then stored.(writers := s.writers - {w})
      else stored.(writers := s.writers[w := x.(stage := Later(x.stage))])
    case Begin(r, slot) => s.(readers := s.readers[r := Reader(slot, s.slots[slot].count, SequenceLoaded, Blank)])
    case Load(r) =>
      var x := s.readers[r];
      var next := Read(x, s.slots[x.slot].payload);
      // a write in progress or a null name drops the sample as soon as the name is loaded
      if next.stage.NameLoaded? && (x.before % TWO_32 % 2 != 0 || next.seen.name == 0) then
        s.(readers := s.readers - {r})
      else s.(readers := s.readers[r := next])
    case Finish(r) =>
      var x := s.readers[r];
      var done := s.(readers := s.readers - {r});
      if Sequence(s.slots[x.slot]) == x.before % TWO_32 then done.(emitted := s.emitted + [Emitted(x.slot, x.seen)])
      else done
  }

  predicate Runs(s: State, steps: seq<Step>)
    decreases |steps|
  {
    steps == [] || (Enabled(s, steps[0]) && Runs(Apply(s, steps[0]), steps[1..]))
  }

  function After(s: State, steps: seq<Step>): (n: State)
    requires Runs(s, steps)
    decreases |steps|
  {
    if steps == [] then s else After(Apply(s, steps[0]), steps[1..])
  }

  // ---------------------------------------------------------------------------------------
  // The inductive invariant
  // ---------------------------------------------------------------------------------------

  /** A slot nobody is writing holds its last completed record. */
  predicate Settled(slot: Slot)
  {
    && slot.count == 2 * |slot.completed|
    && (|slot.completed| > 0 ==> slot.payload == slot.completed[|slot.completed| - 1])
    && (slot.completed == [] ==> slot.payload == Blank)
  }

  /** A slot under a writer: its sequence is odd and the fields stored so far are the writer's. */
  predicate Writing(slot: Slot, x: Writer)
  {
    if x.stage.Claimed? then Settled(slot)
    else
      && slot.count == 2 * |slot.completed| + 1
      && (!x.stage.Opened? ==> slot.payload.name == x.record.name)
      && (!x.stage.Opened? && !x.stage.NameStored? ==> slot.payload.start == x.record.start)
      && (x.stage.DurationStored? || x.stage.ThreadStored? ==> slot.payload.duration == x.record.duration)
      && (x.stage.ThreadStored? ==> slot.payload.thread == x.record.thread)
  }

  predicate WriterOk(s: State, w: nat)
    requires w in s.writers
  {
    var x := s.writers[w];
    x.slot < |s.slots| && Writing(s.slots[x.slot], x)
  }

  predicate Alone(s: State, w: nat, v: nat)
    requires w in s.writers && v in s.writers
  {
    w != v ==> s.writers[w].slot != s.writers[v].slot
  }

  predicate SlotOk(s: State, i: nat)
    requires i < |s.slots|
  {
    NotLapped(s, i) ==> Settled(s.slots[i])
  }

  /** While the slot has not been raised since, what a reader has seen is the slot's payload. */
  predicate Agrees(x: Reader, payload: Record)
  {
    && (!x.stage.SequenceLoaded? ==> x.seen.name == payload.name && x.before % 2 == 0 && x.seen.name != 0)
    && (!x.stage.SequenceLoaded? && !x.stage.NameLoaded? ==> x.seen.start == payload.start)
    && (x.stage.DurationLoaded? || x.stage.ThreadLoaded? ==> x.seen.duration == payload.duration)
    && (x.stage.ThreadLoaded? ==> x.seen.thread == payload.thread)
  }

  predicate ReaderOk(s: State, r: nat)
    requires r in s.readers
  {
    var x := s.readers[r];
    && x.slot < |s.slots|
    && x.before <= s.slots[x.slot].count
    && (!x.stage.SequenceLoaded? ==> x.before % 2 == 0)
    && (x.before == s.slots[x.slot].count && x.before % 2 == 0 ==> Agrees(x, s.slots[x.slot].payload))
  }

  /** What has been emitted is a record some `record` call completed in that slot. */
  predicate Genuine(s: State, e: Emitted)
  {
    e.slot < |s.slots| && e.record in s.slots[e.slot].completed
  }

  predicate Inv(s: State)
  {
    && |s.slots| == CAPACITY
    && (forall w :: w in s.writers ==> WriterOk(s, w))
    && (forall w, v :: w in s.writers && v in s.writers ==> Alone(s, w, v))
    && (forall i :: 0 <= i < |s.slots| ==> SlotOk(s, i))
    && (forall r :: r in s.readers ==> ReaderOk(s, r))
    && (forall e :: e in s.emitted ==> Genuine(s, e))
  }

  // One access at a time.

  lemma StoreKeepsWriting(slot: Slot, x: Writer)
    requires Writing(slot, x)
    ensures x.stage.ThreadStored? ==> Settled(Store(slot, x))
    ensures !x.stage.ThreadStored? ==> Writing(Store(slot, x), x.(stage := Later(x.stage)))
    ensures Store(slot, x).count >= slot.count
    ensures forall e :: e in slot.completed ==> e in Store(slot, x).completed
  {
  }

  /** A store either raises the sequence or happens under an odd one: no reader is misled. */
  lemma StoreKeepsReaders(slot: Slot, x: Writer, y: Reader)
    requires Writing(slot, x) && y.before <= slot.count
    requires y.before == slot.count && y.before % 2 == 0 ==> Agrees(y, slot.payload)
    ensures var n := Store(slot, x);
            y.before <= n.count && (y.before == n.count && y.before % 2 == 0 ==> Agrees(y, n.payload))
  {
  }

  lemma LowBitKept(n: nat)
    ensures n % TWO_32 % 2 == n % 2
  {
    var q := n / TWO_32;
    assert n == q * TWO_32 + n % TWO_32;
    assert TWO_32 == 2 * TWO_31;
    assert q * TWO_32 == 2 * (q * TWO_31);
    EvenShift(n % TWO_32, q * TWO_31);
  }

  lemma EvenShift(a: nat, b: nat)
    ensures (2 * b + a) % 2 == a % 2
  {
  }

  lemma ReadKeepsAgreement(x: Reader, payload: Record)
    requires !x.stage.ThreadLoaded? && x.before % 2 == 0 && Agrees(x, payload)
    requires Read(x, payload).seen.name != 0
    ensures Agrees(Read(x, payload), payload)
  {
  }

  /** An unchanged even sequence means the slot is settled, so the reader saw its last record. */
  lemma UnchangedMeansGenuine(s: State, r: nat)
    requires Inv(s) && r in s.readers && s.readers[r].stage.ThreadLoaded?
    requires s.slots[s.readers[r].slot].count == s.readers[r].before
    ensures s.readers[r].seen in s.slots[s.readers[r].slot].completed
  {
    assert ReaderOk(s, r);
    var x := s.readers[r];
    var slot := s.slots[x.slot];
    assert Settled(slot) by {
      if NotLapped(s, x.slot) {
        assert SlotOk(s, x.slot);
      } else {
        var w :| w in s.writers && s.writers[w].slot == x.slot;
        assert WriterOk(s, w);
      }
    }
    assert x.seen == slot.payload;
    assert slot.completed != [];
  }

  lemma SameSequenceSameCount(before: nat, count: nat)
    requires before <= count && count - before < TWO_32 && count % TWO_32 == before % TWO_32
    ensures count == before
  {
    var a, b := before / TWO_32, count / TWO_32;
    assert before == a * TWO_32 + before % TWO_32;
    assert count == b * TWO_32 + count % TWO_32;
    assert count - before == (b - a) * TWO_32;
  }

  // Each kind of step.

  lemma ClaimKeepsInv(s: State, step: Step)
    requires Inv(s) && step.Claim? && Enabled(s, step)
    ensures Inv(Apply(s, step))
  {
    var n := Apply(s, step);
    forall w | w in n.writers ensures WriterOk(n, w) {
      if w != step.w {
        assert WriterOk(s, w);
      } else {
        assert SlotOk(s, s.position % CAPACITY);
      }
    }
    forall w, v | w in n.writers && v in n.writers ensures Alone(n, w, v) {
      if w != step.w && v != step.w {
        assert Alone(s, w, v);
      }
    }
    forall i | 0 <= i < |n.slots| ensures SlotOk(n, i) {
      if NotLapped(n, i) {
        assert NotLapped(s, i) by {
          forall w | w in s.writers ensures s.writers[w].slot != i {
            assert n.writers[w] == s.writers[w];
          }
        }
        assert SlotOk(s, i);
      }
    }
    forall r | r in n.readers ensures ReaderOk(n, r) { assert ReaderOk(s, r); }
    forall e | e in n.emitted ensures Genuine(n, e) { assert Genuine(s, e); }
  }

  lemma WriteKeepsWriters(s: State, step: Step)
    requires Inv(s) && step.Write? && Enabled(s, step)
    ensures forall w :: w in Apply(s, step).writers ==> WriterOk(Apply(s, step), w)
    ensures forall w, v :: w in Apply(s, step).writers && v in Apply(s, step).writers ==> Alone(Apply(s, step), w, v)
  {
    var n, x := Apply(s, step), s.writers[step.w];
    assert WriterOk(s, step.w);
    StoreKeepsWriting(s.slots[x.slot], x);
    forall w | w in n.writers ensures WriterOk(n, w) {
      assert WriterOk(s, w) && Alone(s, w, step.w);
    }
    forall w, v | w in n.writers && v in n.writers ensures Alone(n, w, v) {
      assert Alone(s, w, v);
    }
  }

  lemma WriteKeepsSlots(s: State, step: Step)
    requires Inv(s) && step.Write? && Enabled(s, step)
    ensures forall i :: 0 <= i < |Apply(s, step).slots| ==> SlotOk(Apply(s, step), i)
  {
    var n, x := Apply(s, step), s.writers[step.w];
    assert WriterOk(s, step.w);
    StoreKeepsWriting(s.slots[x.slot], x);
    assert !x.stage.ThreadStored? ==> step.w in n.writers && n.writers[step.w].slot == x.slot;
    forall i | 0 <= i < |n.slots| && NotLapped(n, i) ensures Settled(n.slots[i]) {
      if i != x.slot {
        forall w | w in s.writers ensures s.writers[w].slot != i {
          assert w != step.w ==> w in n.writers && n.writers[w] == s.writers[w];
        }
        assert SlotOk(s, i);
      }
    }
  }

  lemma WriteKeepsReaders(s: State, step: Step)
    requires Inv(s) && step.Write? && Enabled(s, step)
    ensures forall r :: r in Apply(s, step).readers ==> ReaderOk(Apply(s, step), r)
    ensures forall e :: e in Apply(s, step).emitted ==> Genuine(Apply(s, step), e)
  {
    var n, x := Apply(s, step), s.writers[step.w];
    assert WriterOk(s, step.w);
    StoreKeepsWriting(s.slots[x.slot], x);
    forall r | r in n.readers ensures ReaderOk(n, r) {
      assert ReaderOk(s, r);
      if s.readers[r].slot == x.slot {
        StoreKeepsReaders(s.slots[x.slot], x, s.readers[r]);
      }
    }
    forall e | e in n.emitted ensures Genuine(n, e) { assert Genuine(s, e); }
  }

  lemma ReadingFrame(s: State, n: State)
    requires Inv(s) && n.slots == s.slots && n.writers == s.writers
    ensures |n.slots| == CAPACITY
    ensures forall w :: w in n.writers ==> WriterOk(n, w)
    ensures forall w, v :: w in n.writers && v in n.writers ==> Alone(n, w, v)
    ensures forall i :: 0 <= i < |n.slots| ==> SlotOk(n, i)
    ensures forall e :: e in s.emitted ==> Genuine(n, e)
  {
    forall w | w in n.writers ensures WriterOk(n, w) { assert WriterOk(s, w); }
    forall w, v | w in n.writers && v in n.writers ensures Alone(n, w, v) { assert Alone(s, w, v); }
    forall i | 0 <= i < |n.slots| ensures SlotOk(n, i) {
      assert SlotOk(s, i);
      assert NotLapped(n, i) == NotLapped(s, i);
    }
    forall e | e in s.emitted ensures Genuine(n, e) { assert Genuine(s, e); }
  }

  lemma BeginKeepsInv(s: State, step: Step)
    requires Inv(s) && step.Begin? && Enabled(s, step)
    ensures Inv(Apply(s, step))
  {
    var n := Apply(s, step);
    ReadingFrame(s, n);
    forall r | r in n.readers ensures ReaderOk(n, r) {
      if r != step.r {
        assert ReaderOk(s, r);
      }
    }
  }

  lemma LoadKeepsInv(s: State, step: Step)
    requires Inv(s) && step.Load? && Enabled(s, step)
    ensures Inv(Apply(s, step))
  {
    var n, x := Apply(s, step), s.readers[step.r];
    ReadingFrame(s, n);
    LowBitKept(x.before);
    forall r | r in n.readers ensures ReaderOk(n, r) {
      assert ReaderOk(s, r);
      if r == step.r && x.before == s.slots[x.slot].count && x.before % 2 == 0 {
        ReadKeepsAgreement(x, s.slots[x.slot].payload);
      }
    }
  }

  lemma FinishKeepsInv(s: State, step: Step)
    requires Inv(s) && step.Finish? && Enabled(s, step)
    ensures Inv(Apply(s, step))
  {
    var n, x := Apply(s, step), s.readers[step.r];
    ReadingFrame(s, n);
    forall r | r in n.readers ensures ReaderOk(n, r) { assert ReaderOk(s, r); }
    assert ReaderOk(s, step.r);
    if Sequence(s.slots[x.slot]) == x.before % TWO_32 {
      SameSequenceSameCount(x.before, s.slots[x.slot].count);
      UnchangedMeansGenuine(s, step.r);
    }
  }

  lemma StepKeepsInv(s: State, step: Step)
    requires Inv(s) && Enabled(s, step)
    ensures Inv(Apply(s, step))
  {
    match step
    case Claim(_, _) => ClaimKeepsInv(s, step);
    case Write(_) => WriteKeepsWriters(s, step); WriteKeepsSlots(s, step); WriteKeepsReaders(s, step);
    case Begin(_, _) => BeginKeepsInv(s, step);
    case Load(_) => LoadKeepsInv(s, step);
    case Finish(_) => FinishKeepsInv(s, step);
  }

  lemma {:induction false} RunKeepsInv(s: State, steps: seq<Step>)
    requires Inv(s) && Runs(s, steps)
    ensures Inv(After(s, steps))
    decreases |steps|
  {
    if steps != [] {
      StepKeepsInv(s, steps[0]);
      RunKeepsInv(Apply(s, steps[0]), steps[1..]);
    }
  }

  // Completed records come from record calls.

  function Claims(steps: seq<Step>): (r: set<Record>)
  {
    set i | 0 <= i < |steps| && steps[i].Claim? :: steps[i].record
  }

  predicate Known(s: State, known: set<Record>)
  {
    && (forall w :: w in s.writers ==> s.writers[w].record in known)
    && (forall i, e :: 0 <= i < |s.slots| && e in s.slots[i].completed ==> e in known)
  }

  lemma StepKnown(s: State, step: Step, known: set<Record>)
    requires Known(s, known) && Enabled(s, step)
    ensures Known(Apply(s, step), if step.Claim? then known + {step.record} else known)
  {
    var n := Apply(s, step);
    if step.Write? {
      var x := s.writers[step.w];
      forall e | e in n.slots[x.slot].completed ensures e in known {
        assert e in s.slots[x.slot].completed || e == x.record;
      }
    }
  }

  lemma {:induction false} RunKnown(s: State, steps: seq<Step>, known: set<Record>)
    requires Known(s, known) && Runs(s, steps)
    ensures Known(After(s, steps), known + Claims(steps))
    decreases |steps|
  {
    if steps == [] {
      assert known + Claims(steps) == known;
    } else {
      var first := if steps[0].Claim? then known + {steps[0].record} else known;
      StepKnown(s, steps[0], known);
      RunKnown(Apply(s, steps[0]), steps[1..], first);
      assert first + Claims(steps[1..]) == known + Claims(steps) by {
        ClaimsSplit(steps);
      }
    }
  }

  lemma ClaimsSplit(steps: seq<Step>)
    requires steps != []
    ensures Claims(steps) == (if steps[0].Claim? then {steps[0].record} else {}) + Claims(steps[1..])
  {
    forall e | e in Claims(steps[1..]) ensures e in Claims(steps) {
      var i :| 0 <= i < |steps[1..]| && steps[1..][i].Claim? && steps[1..][i].record == e;
      assert steps[i + 1].Claim?;
    }
    forall e | e in Claims(steps)
      ensures e in (if steps[0].Claim? then {steps[0].record} else {}) + Claims(steps[1..])
    {
      var i :| 0 <= i < |steps| && steps[i].Claim? && steps[i].record == e;
      assert i > 0 ==> steps[1..][i - 1].Claim?;
    }
  }

  lemma InitialHolds()
    ensures Inv(Initial) && Known(Initial, {})
  {
  }

  lemma KnownMember(s: State, known: set<Record>, e: Emitted)
    requires Known(s, known) && Genuine(s, e)
    ensures e.record in known
  {
  }

  /** Every emitted sample is, field for field, one record that a single call passed in and completed. */
  lemma EmittedSamplesAreWhole(steps: seq<Step>, e: Emitted)
    requires Runs(Initial, steps) && e in After(Initial, steps).emitted
    ensures Genuine(After(Initial, steps), e)
    ensures exists i :: 0 <= i < |steps| && steps[i].Claim? && steps[i].record == e.record
  {
    InitialHolds();
    RunKeepsInv(Initial, steps);
    RunKnown(Initial, steps, {});
    KnownMember(After(Initial, steps), {} + Claims(steps), e);
    assert e.record in Claims(steps);
  }

  // ---------------------------------------------------------------------------------------
  // What recording and exporting are for: undisturbed runs of one thread
  // ---------------------------------------------------------------------------------------

  ghost predicate Reaches(s: State, steps: seq<Step>, n: State)
  {
    Runs(s, steps) && After(s, steps) == n
  }

  lemma {:induction false} ReachesMore(s: State, steps: seq<Step>, m: State, step: Step, n: State)
    requires Reaches(s, steps, m) && Enabled(m, step) && n == Apply(m, step)
    ensures Reaches(s, steps + [step], n)
    decreases |steps|
  {
    if steps == [] {
      assert steps + [step] == [step] && [step][1..] == [];
    } else {
      assert (steps + [step])[0] == steps[0] && (steps + [step])[1..] == steps[1..] + [step];
      ReachesMore(Apply(s, steps[0]), steps[1..], m, step, n);
    }
  }

  lemma ReachesBoth(s: State, a: seq<Step>, m: State, b: seq<Step>, n: State)
    requires Reaches(s, a, m) && Reaches(m, b, n)
    ensures Reaches(s, a + b, n)
    decreases |b|
  {
    if b == [] {
      assert a + b == a;
    } else {
      var k := |b| - 1;
      RunSplits(m, b);
      ReachesBoth(s, a, m, b[..k], After(m, b[..k]));
      ReachesMore(s, a + b[..k], After(m, b[..k]), b[k], n);
      assert a + b[..k] + [b[k]] == a + b;
    }
  }

  lemma {:induction false} RunSplits(s: State, steps: seq<Step>)
    requires Runs(s, steps) && steps != []
    ensures var k := |steps| - 1;
            && Runs(s, steps[..k]) && Enabled(After(s, steps[..k]), steps[k])
            && After(s, steps) == Apply(After(s, steps[..k]), steps[k])
    decreases |steps|
  {
    var k := |steps| - 1;
    if k > 0 {
      RunSplits(Apply(s, steps[0]), steps[1..]);
      assert steps[..k][1..] == steps[1..][..k - 1];
    } else {
      assert steps[..0] == [] && steps[1..] == [];
    }
  }

  /** The state with the reader at x. */
  function Reading(s: State, r: nat, x: Reader): (n: State)
  {
    s.(readers := s.readers[r := x])
  }

  lemma LoadGoes(s: State, r: nat, x: Reader)
    requires x.slot < |s.slots| && !x.stage.ThreadLoaded?
    requires x.before % TWO_32 % 2 == 0 && s.slots[x.slot].payload.name != 0
    ensures Enabled(Reading(s, r, x), Load(r))
    ensures Apply(Reading(s, r, x), Load(r)) == Reading(s, r, Read(x, s.slots[x.slot].payload))
  {
  }

  /** A read of a settled slot that nothing disturbs emits the record last completed there, if it has a name. */
  lemma UndisturbedReadEmits(s: State, r: nat, slot: nat)
    requires Inv(s) && r !in s.readers && slot < CAPACITY && NotLapped(s, slot) && s.slots[slot].completed != []
    requires var done := s.slots[slot].completed; done[|done| - 1].name != 0
    ensures var done := s.slots[slot].completed;
            Reaches(s, [Begin(r, slot), Load(r), Load(r), Load(r), Load(r), Finish(r)],
                    s.(emitted := s.emitted + [Emitted(slot, done[|done| - 1])]))
  {
    assert SlotOk(s, slot);
    var p, before := s.slots[slot].payload, s.slots[slot].count;
    LowBitKept(before);
    var x0 := Reader(slot, before, SequenceLoaded, Blank);
    var x1 := Read(x0, p);
    var x2 := Read(x1, p);
    var x3 := Read(x2, p);
    var x4 := Read(x3, p);
    assert x4 == Reader(slot, before, ThreadLoaded, p);
    assert Reaches(s, [], s);
    ReachesMore(s, [], s, Begin(r, slot), Reading(s, r, x0));
    LoadGoes(s, r, x0);
    ReachesMore(s, [] + [Begin(r, slot)], Reading(s, r, x0), Load(r), Reading(s, r, x1));
    LoadGoes(s, r, x1);
    ReachesMore(s, [] + [Begin(r, slot)] + [Load(r)], Reading(s, r, x1), Load(r), Reading(s, r, x2));
    LoadGoes(s, r, x2);
    var steps := [] + [Begin(r, slot)] + [Load(r)] + [Load(r)];
    ReachesMore(s, steps, Reading(s, r, x2), Load(r), Reading(s, r, x3));
    LoadGoes(s, r, x3);
    ReachesMore(s, steps + [Load(r)], Reading(s, r, x3), Load(r), Reading(s, r, x4));
    FinishEmits(s, r, x4);
    ReachesMore(s, steps + [Load(r)] + [Load(r)], Reading(s, r, x4), Finish(r),
                s.(emitted := s.emitted + [Emitted(slot, p)]));
    assert steps + [Load(r)] + [Load(r)] + [Finish(r)] ==
           [Begin(r, slot), Load(r), Load(r), Load(r), Load(r), Finish(r)];
  }

  lemma FinishEmits(s: State, r: nat, x: Reader)
    requires r !in s.readers && x.slot < |s.slots| && x.stage.ThreadLoaded? && x.before == s.slots[x.slot].count
    ensures Enabled(Reading(s, r, x), Finish(r))
    ensures Apply(Reading(s, r, x), Finish(r)) == s.(emitted := s.emitted + [Emitted(x.slot, x.seen)])
  {
    assert s.readers[r := x] - {r} == s.readers;
  }

  /** A read that meets a write in progress or a nameless slot is dropped. */
  lemma UnfitReadDrops(s: State, r: nat, slot: nat)
    requires r !in s.readers && slot < |s.slots|
    requires s.slots[slot].count % 2 == 1 || s.slots[slot].payload.name == 0
    ensures Reaches(s, [Begin(r, slot), Load(r)], s)
  {
    LowBitKept(s.slots[slot].count);
    var x := Reader(slot, s.slots[slot].count, SequenceLoaded, Blank);
    assert Reaches(s, [], s);
    ReachesMore(s, [], s, Begin(r, slot), Reading(s, r, x));
    assert s.readers[r := x] - {r} == s.readers;
    ReachesMore(s, [] + [Begin(r, slot)], Reading(s, r, x), Load(r), s);
    assert [] + [Begin(r, slot)] + [Load(r)] == [Begin(r, slot), Load(r)];
  }

  /** The state with the writer at x and its slot as given. */
  function InWriting(s: State, w: nat, x: Writer, slot: Slot): (n: State)
    requires x.slot < |s.slots|
  {
    s.(writers := s.writers[w := x], slots := s.slots[x.slot := slot])
  }

  lemma WriteGoes(s: State, w: nat, x: Writer, slot: Slot)
    requires x.slot < |s.slots| && !x.stage.ThreadStored?
    ensures Enabled(InWriting(s, w, x, slot), Write(w))
    ensures Apply(InWriting(s, w, x, slot), Write(w)) ==
            InWriting(s, w, x.(stage := Later(x.stage)), Store(slot, x))
  {
    assert s.slots[x.slot := slot][x.slot := Store(slot, x)] == s.slots[x.slot := Store(slot, x)];
  }

  lemma WriteEnds(s: State, w: nat, x: Writer, slot: Slot)
    requires w !in s.writers && x.slot < |s.slots| && x.stage.ThreadStored?
    ensures Enabled(InWriting(s, w, x, slot), Write(w))
    ensures Apply(InWriting(s, w, x, slot), Write(w)) == s.(slots := s.slots[x.slot := Store(slot, x)])
  {
    assert s.slots[x.slot := slot][x.slot := Store(slot, x)] == s.slots[x.slot := Store(slot, x)];
    assert s.writers[w := x] - {w} == s.writers;
  }

  /** The ring after one more record: the next slot holds it, two sequence numbers on. */
  function Recorded(s: State, record: Record): (n: State)
    requires |s.slots| == CAPACITY
  {
    var at := s.position % CAPACITY;
    var slot := s.slots[at];
    s.(position := s.position + 1,
       slots := s.slots[at := Slot(slot.count + 2, record, slot.completed + [record])])
  }

  /** A record call stores its four fields in the next slot and leaves it settled. */
  lemma RecordStores(s: State, w: nat, record: Record)
    requires |s.slots| == CAPACITY && w !in s.writers && NotLapped(s, s.position % CAPACITY)
    ensures Reaches(s, [Claim(w, record), Write(w), Write(w), Write(w), Write(w), Write(w), Write(w)],
                    Recorded(s, record))
  {
    var at := s.position % CAPACITY;
    var p := s.(position := s.position + 1);
    var slot := s.slots[at];
    var x := Writer(at, record, Claimed);
    assert s.slots[at := slot] == s.slots;
    assert Reaches(s, [], s);
    var steps := [] + [Claim(w, record)];
    ReachesMore(s, [], s, Claim(w, record), InWriting(p, w, x, slot));
    steps, x, slot := WriteOnce(s, p, w, x, slot, steps);
    steps, x, slot := WriteOnce(s, p, w, x, slot, steps);
    steps, x, slot := WriteOnce(s, p, w, x, slot, steps);
    steps, x, slot := WriteOnce(s, p, w, x, slot, steps);
    steps, x, slot := WriteOnce(s, p, w, x, slot, steps);
    WriteEnds(p, w, x, slot);
    ReachesMore(s, steps, InWriting(p, w, x, slot), Write(w), p.(slots := p.slots[at := Store(slot, x)]));
    assert steps + [Write(w)] == [Claim(w, record), Write(w), Write(w), Write(w), Write(w), Write(w), Write(w)];
  }

  lemma WriteOnce(s: State, p: State, w: nat, x: Writer, slot: Slot, steps: seq<Step>)
    returns (more: seq<Step>, y: Writer, next: Slot)
    requires x.slot < |p.slots| && !x.stage.ThreadStored? && Reaches(s, steps, InWriting(p, w, x, slot))
    ensures more == steps + [Write(w)] && y == x.(stage := Later(x.stage)) && next == Store(slot, x)
    ensures Reaches(s, more, InWriting(p, w, y, next))
  {
    more, y, next := steps + [Write(w)], x.(stage := Later(x.stage)), Store(slot, x);
    WriteGoes(p, w, x, slot);
    ReachesMore(s, steps, InWriting(p, w, x, slot), Write(w), InWriting(p, w, y, next));
  }

  /** What is recorded and then read undisturbed is exported, field for field. */
  lemma RecordedIsExported(s: State, w: nat, record: Record, r: nat) returns (steps: seq<Step>)
    requires Inv(s) && w !in s.writers && NotLapped(s, s.position % CAPACITY) && r !in s.readers && record.name != 0
    ensures Runs(s, steps)
    ensures After(s, steps).emitted == s.emitted + [Emitted(s.position % CAPACITY, record)]
  {
    var at, n := s.position % CAPACITY, Recorded(s, record);
    var write := [Claim(w, record), Write(w), Write(w), Write(w), Write(w), Write(w), Write(w)];
    var read := [Begin(r, at), Load(r), Load(r), Load(r), Load(r), Finish(r)];
    RecordStores(s, w, record);
    RunKeepsInv(s, write);
    UndisturbedReadEmits(n, r, at);
    ReachesBoth(s, write, n, read, n.(emitted := n.emitted + [Emitted(at, record)]));
    steps := write + read;
  }
}
