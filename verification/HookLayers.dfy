/**
 Layered hooks on one patched target: the ledger's two queues and the physical patch chain.

 The ledger keeps, per target, the creation order of its hooks and a queue of pending operations;
 only the front of the queue may touch the target. Creating a hook saves whatever the target
 currently leads to as the new layer's resume point and redirects the target to the new layer;
 restoring a hook writes its saved resume point back and unmaps the layer. A destructor that finds
 newer layers leaks its backend instead.

 Hooks are numbered here in the order the ledger appends them, which the ledger's own ids need not
 follow; the ledger only ever compares ids for equality.
 */
module HookLayers {
  type Id = nat

  datatype Resume = Pristine | Layer(id: Id)

  /** One target: the ledger entry, where the prologue leads, and each mapped layer's saved resume. */
  datatype Target = Target(order: seq<Id>, pending: seq<Id>, head: Resume, saved: map<Id, Resume>)

  const Untouched: Target := Target([], [], Pristine, map[])

  function Erase(s: seq<Id>, x: Id): (r: seq<Id>)
  {
    if s == [] then [] else if s[0] == x then s[1..] else [s[0]] + Erase(s[1..], x)
  }

  function Reserve(v: Target, id: Id): (r: Target)
  {
    v.(order := v.order + [id], pending := v.pending + [id])
  }

  function Queue(v: Target, id: Id): (r: Target)
  {
    v.(pending := v.pending + [id])
  }

  function Patch(v: Target, id: Id): (r: Target)
  {
    v.(saved := v.saved[id := v.head], head := Layer(id))
  }

  function Restore(v: Target, id: Id): (r: Target)
    requires id in v.saved
  {
    v.(head := v.saved[id], saved := v.saved - {id})
  }

  /** commit_hook and release_teardown_slot: give the slot up, stay in the creation order. */
  function LeaveQueue(v: Target, id: Id): (r: Target)
  {
    v.(pending := Erase(v.pending, id))
  }

  /** release_hook: leave both queues. */
  function Drop(v: Target, id: Id): (r: Target)
  {
    v.(pending := Erase(v.pending, id), order := Erase(v.order, id))
  }

  /** How many hooks after `id` in the creation order; an unknown id fails closed to one. */
  function Newer(order: seq<Id>, id: Id): (r: nat)
  {
    if order == [] then 1 else if order[0] == id then |order| - 1 else Newer(order[1..], id)
  }

  // ---------------------------------------------------------------------------------------
  // Any number of threads installing on and tearing down one target
  // ---------------------------------------------------------------------------------------

  datatype Phase =
    | Waiting    // reserved, not yet at the front of the queue
    | Ghost      // the reservation failed half-way: in the order only, about to be dropped
    | Turn       // holds the slot, nothing patched
    | Patched    // holds the slot, backend created
    | Installed  // committed, handle alive
    | Leaked     // backend abandoned in place (also Hook::release)
    | Leaving    // destructor queued for the slot
    | Restoring  // destructor holds the slot and found no newer hook
    | Restored   // prologue written back, slot still held

  datatype State = State(target: Target, phase: map<Id, Phase>, next: Id)

  datatype Step =
    | StepReserve
    | StepGhost
    | StepFront(id: Id)
    | StepPatch(id: Id)
    | StepUndo(id: Id)
    | StepCommit(id: Id)
    | StepRollback(id: Id)
    | StepLeak(id: Id)
    | StepLeave(id: Id)
    | StepDecide(id: Id)
    | StepRestore(id: Id)
    | StepRelease(id: Id)

  predicate In(s: State, id: Id, p: Phase)
  {
    id in s.phase && s.phase[id] == p
  }

  predicate AtFront(s: State, id: Id)
  {
    s.target.pending != [] && s.target.pending[0] == id
  }

  predicate Enabled(s: State, step: Step)
  {
    match step
    case StepReserve => true
    case StepGhost => true
    case StepFront(id) => In(s, id, Waiting) && AtFront(s, id)
    case StepPatch(id) => In(s, id, Turn)
    case StepUndo(id) => In(s, id, Patched) && id in s.target.saved
    case StepCommit(id) => In(s, id, Patched)
    case StepRollback(id) => In(s, id, Turn) || In(s, id, Waiting) || In(s, id, Ghost)
    case StepLeak(id) => In(s, id, Installed)
    case StepLeave(id) => In(s, id, Installed)
    case StepDecide(id) => In(s, id, Leaving) && AtFront(s, id)
    case StepRestore(id) => In(s, id, Restoring) && id in s.target.saved
    case StepRelease(id) => In(s, id, Restored)
  }

  function To(s: State, v: Target, id: Id, p: Phase): (n: State)
  {
    s.(target := v, phase := s.phase[id := p])
  }

  function Forget(s: State, id: Id): (n: State)
  {
    s.(target := Drop(s.target, id), phase := s.phase - {id})
  }

  function Apply(s: State, step: Step): (n: State)
    requires Enabled(s, step)
  {
    var v := s.target;
    match step
    case StepReserve => To(s, Reserve(v, s.next), s.next, Waiting).(next := s.next + 1)
    case StepGhost => To(s, v.(order := v.order + [s.next]), s.next, Ghost).(next := s.next + 1)
    case StepFront(id) => To(s, v, id, Turn)
    case StepPatch(id) => To(s, Patch(v, id), id, Patched)
    case StepUndo(id) => To(s, Restore(v, id), id, Turn)
    case StepCommit(id) => To(s, LeaveQueue(v, id), id, Installed)
    case StepRollback(id) => Forget(s, id)
    case StepLeak(id) => To(s, v, id, Leaked)
    case StepLeave(id) => To(s, Queue(v, id), id, Leaving)
    case StepDecide(id) =>
      if Newer(v.order, id) > 0 then To(s, LeaveQueue(v, id), id, Leaked) else To(s, v, id, Restoring)
    case StepRestore(id) => To(s, Restore(v, id), id, Restored)
    case StepRelease(id) => Forget(s, id)
  }

  const Initial: State := State(Untouched, map[], 0)

  predicate Runs(s: State, steps: seq<Step>)
    decreases |steps|
  {
    steps == [] || (Enabled(s, steps[0]) && Runs(Apply(s, steps[0]), steps[1..]))
  }

  function After(s: State, steps: seq<Step>): (n: State)
    requires Runs(s, steps)
    decreases |steps|
  {
    if steps == [] then s else After(Apply(s, steps[0]), steps[1..])
  }

  /** The newest mapped layer below a bound. */
  function NewestBelow(mapped: set<Id>, bound: nat): (r: Resume)
  {
    if bound == 0 then Pristine else if bound - 1 in mapped then Layer(bound - 1) else NewestBelow(mapped, bound - 1)
  }

  /** Every saved resume is pristine or the next older mapped layer, and the target leads to the newest. */
  predicate ChainSound(head: Resume, saved: map<Id, Resume>, bound: nat)
  {
    && (forall k :: k in saved ==> ResumeSound(saved, bound, k))
    && head == NewestBelow(saved.Keys, bound)
  }

  predicate ResumeSound(saved: map<Id, Resume>, bound: nat, k: Id)
    requires k in saved
  {
    k < bound && saved[k] == NewestBelow(saved.Keys, k)
  }

  // ---------------------------------------------------------------------------------------
  // The inductive invariant
  // ---------------------------------------------------------------------------------------

  predicate Unpatched(p: Phase)
  {
    p.Waiting? || p.Ghost?
  }

  predicate HoldsSlot(p: Phase)
  {
    p.Turn? || p.Patched? || p.Restoring? || p.Restored?
  }

  predicate Mapped(p: Phase)
  {
    p.Patched? || p.Installed? || p.Leaked? || p.Leaving? || p.Restoring?
  }

  predicate Queued(p: Phase)
  {
    p.Waiting? || p.Leaving? || HoldsSlot(p)
  }

  predicate Pairwise(s: seq<Id>, related: (Id, Id) -> bool)
  {
    forall i, j :: 0 <= i < j < |s| ==> related(s[i], s[j])
  }

  function Less(): (r: (Id, Id) -> bool)
  {
    (a: Id, b: Id) => a < b
  }

  /** No hook is queued twice, and reservations queue in creation order. */
  function QueueOrder(s: State): (r: (Id, Id) -> bool)
  {
    (a: Id, b: Id) => a != b && (In(s, a, Waiting) && In(s, b, Waiting) ==> a < b)
  }

  predicate Member(s: State, id: Id)
  {
    && (id in s.phase ==> id < s.next)
    && (id in s.target.order <==> id in s.phase)
    && (id in s.target.pending <==> id in s.phase && Queued(s.phase[id]))
    && (id in s.target.saved <==> id in s.phase && Mapped(s.phase[id]))
  }

  /** Each hook is in exactly the containers its phase says. */
  ghost predicate Membership(s: State)
  {
    forall id :: Member(s, id)
  }

  predicate Ordered(s: State)
  {
    Pairwise(s.target.order, Less()) && Pairwise(s.target.pending, QueueOrder(s))
  }

  predicate SlotAtFront(s: State)
  {
    forall id :: id in s.phase && HoldsSlot(s.phase[id]) ==> AtFront(s, id)
  }

  predicate Guards(p: Phase)
  {
    p.Waiting? || HoldsSlot(p)
  }

  predicate Behind(older: Phase, newer: Phase)
  {
    Guards(older) ==> Unpatched(newer)
  }

  /** Behind a reservation or a slot holder nothing newer has been patched. */
  predicate NewerUnpatched(s: State)
  {
    forall a, b :: a in s.phase && b in s.phase && a < b ==> Behind(s.phase[a], s.phase[b])
  }

  ghost predicate Inv(s: State)
  {
    Membership(s) && Ordered(s) && SlotAtFront(s) && NewerUnpatched(s)
      && ChainSound(s.target.head, s.target.saved, s.next)
  }

  // Erasing from a queue.

  lemma {:induction false} EraseSplit(s: seq<Id>, x: Id) returns (i: nat)
    requires x in s
    ensures i < |s| && s[i] == x && Erase(s, x) == s[..i] + s[i + 1..]
  {
    if s[0] == x {
      i := 0;
    } else {
      var j := EraseSplit(s[1..], x);
      i := j + 1;
      assert s[..i] == [s[0]] + s[1..][..j];
      assert s[i + 1..] == s[1..][j + 1..];
    }
  }

  lemma ErasePairwise(s: seq<Id>, x: Id, related: (Id, Id) -> bool)
    requires Pairwise(s, related)
    ensures Pairwise(Erase(s, x), related)
  {
    if x in s {
      var i := EraseSplit(s, x);
    } else {
      EraseAbsent(s, x);
    }
  }

  lemma {:induction false} EraseAbsent(s: seq<Id>, x: Id)
    requires x !in s
    ensures Erase(s, x) == s
  {
    if s != [] {
      EraseAbsent(s[1..], x);
    }
  }

  /** Erasing from a queue without repetitions removes that id and no other. */
  lemma EraseMember(s: seq<Id>, x: Id, y: Id)
    requires forall i, j :: 0 <= i < j < |s| ==> s[i] != s[j]
    ensures y in Erase(s, x) <==> y in s && y != x
  {
    if x in s {
      var i := EraseSplit(s, x);
      assert s == s[..i] + [x] + s[i + 1..];
    } else {
      EraseAbsent(s, x);
    }
  }

  /** A queue of distinct ids keeps its front when a later id is erased. */
  lemma EraseKeepsFront(s: seq<Id>, x: Id)
    requires s != [] && s[0] != x
    ensures Erase(s, x) != [] && Erase(s, x)[0] == s[0]
  {
  }

  lemma {:induction false} NewestIsLast(order: seq<Id>, id: Id)
    requires Pairwise(order, Less()) && Newer(order, id) == 0
    ensures id in order && forall k :: k in order ==> k <= id
  {
    if order[0] == id {
      assert order == [id];
    } else {
      NewestIsLast(order[1..], id);
      assert order == [order[0]] + order[1..];
      assert Less()(order[0], order[1]);
      assert id in order[1..];
    }
  }

  // The patch chain.

  lemma {:induction false} SameBelow(m: set<Id>, n: set<Id>, bound: nat)
    requires forall k :: k < bound ==> (k in m <==> k in n)
    ensures NewestBelow(m, bound) == NewestBelow(n, bound)
  {
    if bound > 0 && bound - 1 !in m {
      SameBelow(m, n, bound - 1);
    }
  }

  lemma {:induction false} NothingBetween(m: set<Id>, low: nat, high: nat)
    requires low <= high && forall k :: k in m ==> k < low || k >= high
    ensures NewestBelow(m, high) == NewestBelow(m, low)
  {
    if low < high {
      NothingBetween(m, low, high - 1);
    }
  }

  lemma PatchedResumes(saved: map<Id, Resume>, updated: map<Id, Resume>, id: Id, bound: nat, k: Id)
    requires k in saved && k < id && ResumeSound(saved, bound, k)
    requires updated.Keys == saved.Keys + {id} && updated[k] == saved[k]
    ensures ResumeSound(updated, bound, k)
  {
    SameBelow(saved.Keys, updated.Keys, k);
  }

  lemma PatchedHead(m: set<Id>, id: Id, bound: nat)
    requires id < bound && forall k :: k in m ==> k < id
    ensures NewestBelow(m + {id}, bound) == Layer(id)
    ensures NewestBelow(m, bound) == NewestBelow(m + {id}, id)
  {
    NothingBetween(m, id, bound);
    NothingBetween(m + {id}, id + 1, bound);
    SameBelow(m, m + {id}, id);
  }

  lemma PatchKeepsChain(v: Target, id: Id, bound: nat)
    requires ChainSound(v.head, v.saved, bound) && id < bound
    requires forall k :: k in v.saved ==> k < id
    ensures ChainSound(Patch(v, id).head, Patch(v, id).saved, bound)
  {
    var n := Patch(v, id);
    assert n.saved.Keys == v.saved.Keys + {id};
    PatchedHead(v.saved.Keys, id, bound);
    forall k | k in v.saved ensures ResumeSound(n.saved, bound, k) {
      PatchedResumes(v.saved, n.saved, id, bound, k);
    }
  }

  lemma RestoredResumes(saved: map<Id, Resume>, updated: map<Id, Resume>, id: Id, bound: nat, k: Id)
    requires k in updated && k < id && k in saved && ResumeSound(saved, bound, k)
    requires updated.Keys == saved.Keys - {id} && updated[k] == saved[k]
    ensures ResumeSound(updated, bound, k)
  {
    SameBelow(saved.Keys, updated.Keys, k);
  }

  lemma RestoreKeepsChain(v: Target, id: Id, bound: nat)
    requires ChainSound(v.head, v.saved, bound) && id in v.saved
    requires forall k :: k in v.saved ==> k <= id
    ensures ChainSound(Restore(v, id).head, Restore(v, id).saved, bound)
  {
    var n := Restore(v, id);
    assert n.saved.Keys == v.saved.Keys - {id};
    assert ResumeSound(v.saved, bound, id);
    NothingBetween(n.saved.Keys, id, bound);
    SameBelow(v.saved.Keys, n.saved.Keys, id);
    forall k | k in n.saved ensures ResumeSound(n.saved, bound, k) {
      RestoredResumes(v.saved, n.saved, id, bound, k);
    }
  }

  /** A slot holder is newer than every other mapped layer. */
  lemma SlotHolderIsNewest(s: State, id: Id)
    requires Inv(s) && id in s.phase && HoldsSlot(s.phase[id])
    ensures forall k :: k in s.target.saved ==> k <= id
  {
    forall k | k in s.target.saved ensures k <= id {
      assert Member(s, k);
      assert id < k ==> Behind(s.phase[id], s.phase[k]);
    }
  }

  lemma ChainKeptByNew(s: State)
    requires Inv(s)
    ensures ChainSound(s.target.head, s.target.saved, s.next + 1)
  {
    forall k | k in s.target.saved ensures ResumeSound(s.target.saved, s.next + 1, k) {
      assert ResumeSound(s.target.saved, s.next, k);
    }
    assert s.next !in s.target.saved by { assert Member(s, s.next); }
  }

  predicate Patches(step: Step)
  {
    step.StepPatch? || step.StepUndo? || step.StepRestore?
  }

  lemma TurnCanPatch(s: State, id: Id)
    requires Inv(s) && In(s, id, Turn)
    ensures ChainSound(Patch(s.target, id).head, Patch(s.target, id).saved, s.next)
  {
    assert Member(s, id);
    SlotHolderIsNewest(s, id);
    PatchKeepsChain(s.target, id, s.next);
  }

  lemma SlotHolderCanRestore(s: State, id: Id)
    requires Inv(s) && id in s.phase && HoldsSlot(s.phase[id]) && id in s.target.saved
    ensures ChainSound(Restore(s.target, id).head, Restore(s.target, id).saved, s.next)
  {
    SlotHolderIsNewest(s, id);
    RestoreKeepsChain(s.target, id, s.next);
  }

  lemma OthersLeaveChain(s: State, step: Step)
    requires Enabled(s, step) && !Patches(step)
    ensures Apply(s, step).target.head == s.target.head && Apply(s, step).target.saved == s.target.saved
    ensures Apply(s, step).next == if step.StepReserve? || step.StepGhost? then s.next + 1 else s.next
  {
  }

  lemma ChainKept(s: State, step: Step)
    requires Inv(s) && Enabled(s, step)
    ensures ChainSound(Apply(s, step).target.head, Apply(s, step).target.saved, Apply(s, step).next)
  {
    if step.StepPatch? {
      TurnCanPatch(s, step.id);
    } else if step.StepUndo? || step.StepRestore? {
      SlotHolderCanRestore(s, step.id);
    } else {
      OthersLeaveChain(s, step);
      ChainKeptByNew(s);
    }
  }

  // The queues.

  lemma QueueDistinct(s: State)
    requires Ordered(s)
    ensures forall i, j :: 0 <= i < j < |s.target.order| ==> s.target.order[i] != s.target.order[j]
    ensures forall i, j :: 0 <= i < j < |s.target.pending| ==> s.target.pending[i] != s.target.pending[j]
  {
    forall i, j | 0 <= i < j < |s.target.order| ensures s.target.order[i] != s.target.order[j] {
      assert Less()(s.target.order[i], s.target.order[j]);
    }
    forall i, j | 0 <= i < j < |s.target.pending| ensures s.target.pending[i] != s.target.pending[j] {
      assert QueueOrder(s)(s.target.pending[i], s.target.pending[j]);
    }
  }

  lemma MemberKept(s: State, step: Step, id: Id)
    requires Enabled(s, step) && !step.StepReserve? && !step.StepGhost?
    requires Member(s, id) && Member(s, step.id)
    requires id in Erase(s.target.pending, step.id) <==> id in s.target.pending && id != step.id
    requires id in Erase(s.target.order, step.id) <==> id in s.target.order && id != step.id
    ensures Member(Apply(s, step), id)
  {
  }

  lemma MembershipKept(s: State, step: Step)
    requires Inv(s) && Enabled(s, step)
    ensures Membership(Apply(s, step))
  {
    var n := Apply(s, step);
    QueueDistinct(s);
    forall id ensures Member(n, id) {
      assert Member(s, id);
      if !step.StepReserve? && !step.StepGhost? {
        assert Member(s, step.id);
        EraseMember(s.target.pending, step.id, id);
        EraseMember(s.target.order, step.id, id);
        MemberKept(s, step, id);
      }
    }
  }

  lemma AppendPairwise(s: seq<Id>, x: Id, related: (Id, Id) -> bool)
    requires Pairwise(s, related) && forall a :: a in s ==> related(a, x)
    ensures Pairwise(s + [x], related)
  {
  }

  /** Changing the phase of one hook to anything but Waiting keeps the queue ordered. */
  lemma QueueOrderWeakens(s: State, n: State, q: seq<Id>)
    requires Pairwise(q, QueueOrder(s))
    requires forall a :: a in q && In(n, a, Waiting) ==> In(s, a, Waiting)
    ensures Pairwise(q, QueueOrder(n))
  {
    forall i, j | 0 <= i < j < |q| ensures QueueOrder(n)(q[i], q[j]) {
      assert QueueOrder(s)(q[i], q[j]);
    }
  }

  lemma OrderedKeptByNew(s: State, step: Step)
    requires Inv(s) && (step.StepReserve? || step.StepGhost?)
    ensures Ordered(Apply(s, step))
  {
    var n := Apply(s, step);
    forall a | a in s.target.order ensures Less()(a, s.next) {
      assert Member(s, a);
    }
    AppendPairwise(s.target.order, s.next, Less());
    forall a | a in s.target.pending ensures a < s.next && QueueOrder(n)(a, s.next) {
      assert Member(s, a);
    }
    QueueOrderWeakens(s, n, s.target.pending);
    AppendPairwise(s.target.pending, s.next, QueueOrder(n));
  }

  lemma OrderedKeptByOld(s: State, step: Step)
    requires Inv(s) && Enabled(s, step) && !step.StepReserve? && !step.StepGhost?
    ensures Ordered(Apply(s, step))
  {
    var n, v := Apply(s, step), s.target;
    ErasePairwise(v.order, step.id, Less());
    ErasePairwise(v.pending, step.id, QueueOrder(s));
    if step.StepLeave? {
      assert Member(s, step.id);
      AppendPairwise(v.pending, step.id, QueueOrder(s));
    }
    QueueOrderWeakens(s, n, n.target.pending);
  }

  lemma SlotKept(s: State, step: Step)
    requires Inv(s) && Enabled(s, step)
    ensures SlotAtFront(Apply(s, step))
  {
    var n := Apply(s, step);
    forall id | id in n.phase && HoldsSlot(n.phase[id]) ensures AtFront(n, id) {
      if step.StepCommit? || step.StepRollback? || step.StepDecide? || step.StepRelease? {
        if step.id != id {
          EraseKeepsFront(s.target.pending, step.id);
        }
      }
    }
  }

  /** Whoever reaches the front of the queue with a reservation is the oldest reservation. */
  lemma FrontIsOldestReservation(s: State, id: Id, a: Id)
    requires Inv(s) && In(s, id, Waiting) && AtFront(s, id) && In(s, a, Waiting)
    ensures id <= a
  {
    assert Member(s, a);
    if a != id {
      var i :| 0 <= i < |s.target.pending| && s.target.pending[i] == a;
      assert QueueOrder(s)(s.target.pending[0], s.target.pending[i]);
    }
  }

  lemma FrontKeepsNewerUnpatched(s: State, id: Id)
    requires Inv(s) && Enabled(s, StepFront(id))
    ensures NewerUnpatched(Apply(s, StepFront(id)))
  {
    var n := Apply(s, StepFront(id));
    forall a, b | a in n.phase && b in n.phase && a < b ensures Behind(n.phase[a], n.phase[b]) {
      assert Behind(s.phase[a], s.phase[b]);
      if b == id && s.phase[a].Waiting? {
        FrontIsOldestReservation(s, b, a);
      }
    }
  }

  lemma DecideKeepsNewerUnpatched(s: State, id: Id)
    requires Inv(s) && Enabled(s, StepDecide(id))
    ensures NewerUnpatched(Apply(s, StepDecide(id)))
  {
    var n := Apply(s, StepDecide(id));
    if Newer(s.target.order, id) == 0 {
      NewestIsLast(s.target.order, id);
    }
    forall a, b | a in n.phase && b in n.phase && a < b ensures Behind(n.phase[a], n.phase[b]) {
      assert Behind(s.phase[a], s.phase[b]) && Member(s, b);
    }
  }

  lemma NewerUnpatchedKept(s: State, step: Step)
    requires Inv(s) && Enabled(s, step)
    ensures NewerUnpatched(Apply(s, step))
  {
    var n := Apply(s, step);
    if step.StepFront? {
      FrontKeepsNewerUnpatched(s, step.id);
    } else if step.StepDecide? {
      DecideKeepsNewerUnpatched(s, step.id);
    } else {
      forall a, b | a in n.phase && b in n.phase && a < b ensures Behind(n.phase[a], n.phase[b]) {
        assert Member(s, a) && Member(s, b);
        assert a in s.phase && b in s.phase ==> Behind(s.phase[a], s.phase[b]);
      }
    }
  }

  lemma StepKeepsInv(s: State, step: Step)
    requires Inv(s) && Enabled(s, step)
    ensures Inv(Apply(s, step))
  {
    MembershipKept(s, step);
    if step.StepReserve? || step.StepGhost? {
      OrderedKeptByNew(s, step);
    } else {
      OrderedKeptByOld(s, step);
    }
    SlotKept(s, step);
    NewerUnpatchedKept(s, step);
    ChainKept(s, step);
  }

  // ---------------------------------------------------------------------------------------
  // Over whole runs
  // ---------------------------------------------------------------------------------------

  lemma {:induction false} RunKeepsInv(s: State, steps: seq<Step>)
    requires Inv(s) && Runs(s, steps)
    ensures Inv(After(s, steps))
    decreases |steps|
  {
    if steps != [] {
      StepKeepsInv(s, steps[0]);
      RunKeepsInv(Apply(s, steps[0]), steps[1..]);
    }
  }

  lemma {:induction false} NewestBelowMeans(mapped: set<Id>, bound: nat)
    ensures var r := NewestBelow(mapped, bound);
            && (r.Layer? ==> r.id in mapped && r.id < bound && forall k :: k in mapped && k < bound ==> k <= r.id)
            && (r.Pristine? ==> forall k :: k in mapped ==> k >= bound)
  {
    if bound > 0 && bound - 1 !in mapped {
      NewestBelowMeans(mapped, bound - 1);
    }
  }

  /** The layers a call into the target passes through, in order. */
  function Follow(saved: map<Id, Resume>, r: Resume): (path: seq<Id>)
    decreases if r.Pristine? then 0 else r.id + 1
  {
    if r.Pristine? then []
    else if r.id in saved && (saved[r.id].Pristine? || saved[r.id].id < r.id) then
      [r.id] + Follow(saved, saved[r.id])
    else [r.id]
  }

  lemma NewestIsOlder(mapped: set<Id>, bound: nat)
    ensures NewestBelow(mapped, bound).Layer? ==> NewestBelow(mapped, bound).id < bound
  {
    NewestBelowMeans(mapped, bound);
  }

  lemma FollowOne(saved: map<Id, Resume>, b: Id, k: Id)
    requires b in saved && (saved[b].Pristine? || saved[b].id < b)
    ensures k in Follow(saved, Layer(b)) <==> k == b || k in Follow(saved, saved[b])
  {
    assert Follow(saved, Layer(b)) == [b] + Follow(saved, saved[b]);
  }

  lemma {:induction false} FollowsExactlyBelow(saved: map<Id, Resume>, limit: nat, bound: nat, k: Id)
    requires forall j :: j in saved ==> ResumeSound(saved, limit, j)
    ensures k in Follow(saved, NewestBelow(saved.Keys, bound)) <==> k in saved && k < bound
  {
    if bound > 0 {
      var b := bound - 1;
      FollowsExactlyBelow(saved, limit, b, k);
      if b in saved {
        assert ResumeSound(saved, limit, b);
        NewestIsOlder(saved.Keys, b);
        FollowOne(saved, b, k);
      }
    }
  }

  /** Each saved resume is pristine or a mapped older layer. */
  lemma ResumesAreMapped(steps: seq<Step>, k: Id)
    requires Runs(Initial, steps) && k in After(Initial, steps).target.saved
    ensures var v := After(Initial, steps).target;
            v.saved[k].Pristine? || (v.saved[k].id in v.saved && v.saved[k].id < k)
  {
    RunKeepsInv(Initial, steps);
    var n := After(Initial, steps);
    assert ResumeSound(n.target.saved, n.next, k);
    NewestBelowMeans(n.target.saved.Keys, k);
  }

  /** The target leads to the newest mapped layer, and a call passes every mapped layer. */
  lemma TargetLeadsThroughAllLayers(steps: seq<Step>)
    requires Runs(Initial, steps)
    ensures var v := After(Initial, steps).target;
            && (v.head.Pristine? <==> |v.saved| == 0)
            && (v.head.Layer? ==> v.head.id in v.saved && forall k :: k in v.saved ==> k <= v.head.id)
            && (forall k :: k in Follow(v.saved, v.head) <==> k in v.saved)
  {
    RunKeepsInv(Initial, steps);
    var n := After(Initial, steps);
    NewestBelowMeans(n.target.saved.Keys, n.next);
    assert forall k :: k in n.target.saved ==> ResumeSound(n.target.saved, n.next, k);
    forall k ensures k in Follow(n.target.saved, n.target.head) <==> k in n.target.saved {
      FollowsExactlyBelow(n.target.saved, n.next, n.next, k);
    }
  }

  /** Only the layer the target leads to is ever restored. */
  lemma OnlyNewestIsRestored(steps: seq<Step>, id: Id)
    requires Runs(Initial, steps)
    requires Enabled(After(Initial, steps), StepRestore(id)) || Enabled(After(Initial, steps), StepUndo(id))
    ensures After(Initial, steps).target.head == Layer(id)
  {
    RunKeepsInv(Initial, steps);
    var n := After(Initial, steps);
    SlotHolderIsNewest(n, id);
    NewestBelowMeans(n.target.saved.Keys, n.next);
    assert ResumeSound(n.target.saved, n.next, id);
  }

  /** A leaked or released hook stays mapped and in the creation order for ever. */
  lemma {:induction false} LeakedStays(s: State, steps: seq<Step>, id: Id)
    requires Inv(s) && Runs(s, steps) && In(s, id, Leaked)
    ensures In(After(s, steps), id, Leaked) && id in After(s, steps).target.order && id in After(s, steps).target.saved
    decreases |steps|
  {
    assert Member(s, id);
    if steps != [] {
      StepKeepsInv(s, steps[0]);
      assert Member(s, s.next);
      LeakedStays(Apply(s, steps[0]), steps[1..], id);
    }
  }

  // ---------------------------------------------------------------------------------------
  // What installing and tearing down are for
  // ---------------------------------------------------------------------------------------

  lemma Prepend(s: State, step: Step, m: State, rest: seq<Step>)
    requires Enabled(s, step) && m == Apply(s, step) && Runs(m, rest)
    ensures Runs(s, [step] + rest) && After(s, [step] + rest) == After(m, rest)
  {
    assert ([step] + rest)[1..] == rest;
  }

  lemma ThreeSteps(s: State, a: Step, s1: State, b: Step, s2: State, c: Step, s3: State)
    requires Enabled(s, a) && s1 == Apply(s, a)
    requires Enabled(s1, b) && s2 == Apply(s1, b)
    requires Enabled(s2, c) && s3 == Apply(s2, c)
    ensures Runs(s, [a, b, c]) && After(s, [a, b, c]) == s3
  {
    assert Runs(s3, []) && After(s3, []) == s3;
    Prepend(s2, c, s3, []);
    Prepend(s1, b, s2, [c] + []);
    Prepend(s, a, s1, [b] + ([c] + []));
    assert [a] + ([b] + ([c] + [])) == [a, b, c];
  }

  lemma {:induction false} NewerIsZero(order: seq<Id>, id: Id)
    requires Pairwise(order, Less()) && id in order
    ensures Newer(order, id) == 0 <==> forall k :: k in order ==> k <= id
  {
    if order[0] == id {
      if |order| > 1 {
        assert Less()(order[0], order[1]);
        assert order[1] in order;
      }
    } else {
      assert id in order[1..];
      forall i, j | 0 <= i < j < |order[1..]| ensures Less()(order[1..][i], order[1..][j]) {
        assert Less()(order[i + 1], order[j + 1]);
      }
      NewerIsZero(order[1..], id);
      var i :| 0 < i < |order| && order[i] == id;
      assert Less()(order[0], order[i]);
      assert forall k :: k in order <==> k == order[0] || k in order[1..];
    }
  }

  /** An install at the front of the queue puts its layer on top: the target leads to it, and it to what was there. */
  lemma InstallPatches(s: State, id: Id)
    requires In(s, id, Waiting) && AtFront(s, id)
    ensures Runs(s, [StepFront(id), StepPatch(id), StepCommit(id)])
    ensures var v, w := s.target, After(s, [StepFront(id), StepPatch(id), StepCommit(id)]).target;
            && w.head == Layer(id) && w.saved == v.saved[id := v.head]
            && w.order == v.order && w.pending == v.pending[1..]
  {
    var s1 := Apply(s, StepFront(id));
    var s2 := Apply(s1, StepPatch(id));
    ThreeSteps(s, StepFront(id), s1, StepPatch(id), s2, StepCommit(id), Apply(s2, StepCommit(id)));
  }

  /** The target without this layer: what it resumed at is written back. */
  ghost predicate GivenBack(v: Target, w: Target, id: Id)
    requires id in v.saved && v.pending != []
  {
    && w.head == v.saved[id] && w.saved == v.saved - {id}
    && w.pending == v.pending[1..]
    && forall k :: k in w.order <==> k in v.order && k != id
  }

  lemma RestoreGivesBack(s: State, id: Id)
    requires Inv(s) && In(s, id, Leaving) && AtFront(s, id) && Newer(s.target.order, id) == 0
    ensures id in s.target.saved && Runs(s, [StepDecide(id), StepRestore(id), StepRelease(id)])
    ensures var n := After(s, [StepDecide(id), StepRestore(id), StepRelease(id)]);
            n.phase == s.phase - {id} && GivenBack(s.target, n.target, id)
  {
    assert Member(s, id);
    var s1 := Apply(s, StepDecide(id));
    var s2 := Apply(s1, StepRestore(id));
    var s3 := Apply(s2, StepRelease(id));
    assert s3.phase == s.phase - {id};
    assert s3.target == Drop(Restore(s.target, id), id);
    OrderDistinct(s.target.order);
    forall k ensures k in s3.target.order <==> k in s.target.order && k != id {
      EraseMember(s.target.order, id, k);
    }
    ThreeSteps(s, StepDecide(id), s1, StepRestore(id), s2, StepRelease(id), s3);
  }

  /** A teardown that reaches the front with no newer hook on the target restores its layer. */
  lemma NewestIsRestored(s: State, id: Id)
    requires Inv(s) && In(s, id, Leaving) && AtFront(s, id) && forall k :: k in s.target.order ==> k <= id
    ensures id in s.target.saved && Runs(s, [StepDecide(id), StepRestore(id), StepRelease(id)])
    ensures var n := After(s, [StepDecide(id), StepRestore(id), StepRelease(id)]);
            n.phase == s.phase - {id} && GivenBack(s.target, n.target, id)
  {
    NoNewer(s, id);
    RestoreGivesBack(s, id);
  }

  /** Under a newer hook it leaks the layer: only its place in the queue goes. */
  lemma OlderIsLeaked(s: State, id: Id, newer: Id)
    requires Inv(s) && In(s, id, Leaving) && AtFront(s, id) && newer in s.target.order && newer > id
    ensures Enabled(s, StepDecide(id)) && In(Apply(s, StepDecide(id)), id, Leaked)
    ensures Apply(s, StepDecide(id)).target == s.target.(pending := s.target.pending[1..])
  {
    NoNewer(s, id);
  }

  lemma NoNewer(s: State, id: Id)
    requires Inv(s) && id in s.phase
    ensures Newer(s.target.order, id) == 0 <==> forall k :: k in s.target.order ==> k <= id
  {
    assert Member(s, id);
    NewerIsZero(s.target.order, id);
  }

  lemma OrderDistinct(order: seq<Id>)
    requires Pairwise(order, Less())
    ensures forall i, j :: 0 <= i < j < |order| ==> order[i] != order[j]
  {
    forall i, j | 0 <= i < j < |order| ensures order[i] != order[j] {
      assert Less()(order[i], order[j]);
    }
  }
}
