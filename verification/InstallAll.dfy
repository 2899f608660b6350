/**
 The all-or-nothing table install: rows are installed in order, and when a mandatory row fails or
 something throws, the rows installed so far are destroyed newest first.

 No other thread touches the targets meanwhile, but they may carry any older layers beforehand.
 */
module InstallAll {
  import opened HookLayers

  type Address = nat

  type World = map<Address, Target>

  /** What happens when a row is installed; every cause of failure falls under one of these. */
  datatype Fate =
    | Installs
    | Unresolved     // bad request or unresolved target: nothing reserved
    | RolledBack     // refused or failed after the reservation, before the patch
    | Unwound        // out of memory after the backend patched the target
    | ThrowsBefore   // copying the row's request throws
    | ThrowsAfter    // recording the outcome of an installed row throws

  datatype Row = Row(target: Address, mandatory: bool, refuseIfHooked: bool, fate: Fate)

  datatype Hook = None | Some(target: Address, id: Id)

  datatype Outcome = Failed | Done(hooks: seq<Hook>)

  function At(w: World, a: Address): (v: Target)
  {
    if a in w then w[a] else Untouched
  }

  /** The ledger forgets a target whose creation order becomes empty. */
  function Put(w: World, a: Address, v: Target): (r: World)
  {
    if v == Untouched then w - {a} else w[a := v]
  }

  function Installed(v: Target, id: Id): (r: Target)
  {
    LeaveQueue(Patch(Reserve(v, id), id), id)
  }

  /** The destructor: leave everything under the loader lock, leak under newer layers, else restore. */
  function Destroyed(v: Target, id: Id, loaderLock: bool): (r: Target)
    requires id in v.saved
  {
    if loaderLock then v
    else if Newer(v.order, id) > 0 then LeaveQueue(Queue(v, id), id)
    else Drop(Restore(Queue(v, id), id), id)
  }

  /** A destroyed layer goes exactly when it is the newest, off the loader lock; otherwise the target is unchanged. */
  lemma DestroyedMeans(v: Target, id: Id, loaderLock: bool)
    requires id in v.saved && id in v.order && v.pending == [] && Pairwise(v.order, Less())
    ensures loaderLock || (exists k :: k in v.order && k > id) ==> Destroyed(v, id, loaderLock) == v
    ensures !loaderLock && (forall k :: k in v.order ==> k <= id) ==>
              var w := Destroyed(v, id, loaderLock);
              && w.head == v.saved[id] && w.saved == v.saved - {id} && w.pending == []
              && forall k :: k in w.order <==> k in v.order && k != id
  {
    NewerIsZero(v.order, id);
    assert [] + [id] == [id] && Erase([id], id) == [];
    OrderDistinct(v.order);
    forall k ensures k in Erase(v.order, id) <==> k in v.order && k != id {
      EraseMember(v.order, id, k);
    }
  }

  predicate Succeeds(v: Target, row: Row)
  {
    (row.fate.Installs? || row.fate.ThrowsAfter?) && !(row.refuseIfHooked && v.order != [])
  }

  /** One row's effect on its target, through every step the install takes. */
  function Attempt(v: Target, id: Id, row: Row): (r: Target)
  {
    if Succeeds(v, row) then Installed(v, id)
    else if row.fate.Unresolved? || row.fate.ThrowsBefore? || (row.refuseIfHooked && v.order != []) then v
    else if row.fate.RolledBack? then Drop(Reserve(v, id), id)
    else Drop(Restore(Patch(Reserve(v, id), id), id), id)
  }

  /** No operation is queued anywhere and every id is older than `next`. */
  predicate Settled(v: Target, next: Id)
  {
    && v.pending == []
    && (forall k :: k in v.order ==> k < next)
    && (forall k :: k in v.saved ==> k < next)
  }

  predicate Quiet(w: World, next: Id)
  {
    forall a :: a in w ==> w[a] != Untouched && Settled(w[a], next)
  }

  /** The world after the first `k` rows, if none of them aborted: successes only, stacked in order. */
  function Layered(w: World, table: seq<Row>, next: Id, k: nat): (r: World)
    requires k <= |table|
  {
    if k == 0 then w
    else
      var l := Layered(w, table, next, k - 1);
      var row := table[k - 1];
      if Succeeds(At(l, row.target), row) then Put(l, row.target, Installed(At(l, row.target), next + k - 1)) else l
  }

  lemma {:induction false} EraseLast(s: seq<Id>, id: Id)
    requires id !in s
    ensures Erase(s + [id], id) == s
  {
    if s != [] {
      EraseLast(s[1..], id);
      assert (s + [id])[1..] == s[1..] + [id];
    }
  }

  lemma {:induction false} NewestHasNoneNewer(s: seq<Id>, id: Id)
    requires id !in s
    ensures Newer(s + [id], id) == 0
  {
    if s != [] {
      NewestHasNoneNewer(s[1..], id);
      assert (s + [id])[1..] == s[1..] + [id];
    }
  }

  lemma InstalledShape(v: Target, id: Id)
    requires Settled(v, id)
    ensures Installed(v, id) == Target(v.order + [id], [], Layer(id), v.saved[id := v.head])
    ensures Settled(Installed(v, id), id + 1)
  {
    EraseLast([], id);
    assert [] + [id] == [id];
  }

  /** Destroying the newest hook off the loader lock takes its target back to what it was. */
  lemma DestroyUndoesInstall(v: Target, id: Id)
    requires Settled(v, id)
    ensures Destroyed(Installed(v, id), id, false) == v
  {
    InstalledShape(v, id);
    NewestHasNoneNewer(v.order, id);
    EraseLast(v.order, id);
    EraseLast([], id);
    assert [] + [id] == [id];
    assert v.saved[id := v.head] - {id} == v.saved;
  }

  /** A failed attempt leaves its target alone. */
  lemma FailedAttemptChangesNothing(v: Target, id: Id, row: Row)
    requires Settled(v, id) && !Succeeds(v, row)
    ensures Attempt(v, id, row) == v
  {
    EraseLast(v.order, id);
    EraseLast([], id);
    assert [] + [id] == [id];
    assert v.saved[id := v.head] - {id} == v.saved;
  }

  lemma QuietAt(w: World, next: Id, a: Address)
    requires Quiet(w, next)
    ensures Settled(At(w, a), next)
  {
  }

  lemma SettledLater(w: World, next: Id)
    requires Quiet(w, next)
    ensures Quiet(w, next + 1)
  {
    forall a | a in w ensures w[a] != Untouched && Settled(w[a], next + 1) {
      assert Settled(w[a], next);
    }
  }

  lemma PutInstalledQuiet(w: World, next: Id, a: Address)
    requires Quiet(w, next)
    ensures Quiet(Put(w, a, Installed(At(w, a), next)), next + 1)
  {
    SettledLater(w, next);
    InstalledShape(At(w, a), next);
  }

  lemma {:induction false} LayeredQuiet(w: World, table: seq<Row>, next: Id, k: nat)
    requires k <= |table| && Quiet(w, next)
    ensures Quiet(Layered(w, table, next, k), next + k)
  {
    if k > 0 {
      LayeredQuiet(w, table, next, k - 1);
      var l := Layered(w, table, next, k - 1);
      SettledLater(l, next + k - 1);
      PutInstalledQuiet(l, next + k - 1, table[k - 1].target);
    }
  }

  lemma PutBack(w: World, next: Id, a: Address, v: Target)
    requires Quiet(w, next)
    ensures Put(Put(w, a, v), a, At(w, a)) == w
  {
  }

  /** Destroying the row's hook takes the whole world back to before that row. */
  lemma PopRow(w: World, next: Id, a: Address)
    requires Quiet(w, next)
    ensures var l := Put(w, a, Installed(At(w, a), next));
            && next in At(l, a).saved
            && Put(l, a, Destroyed(At(l, a), next, false)) == w
            && Put(l, a, Destroyed(At(l, a), next, true)) == l
  {
    QuietAt(w, next, a);
    InstalledShape(At(w, a), next);
    DestroyUndoesInstall(At(w, a), next);
    PutBack(w, next, a, Installed(At(w, a), next));
  }

  /** The hook a row left behind, if any. */
  function HookAt(w: World, table: seq<Row>, next: Id, k: nat): (h: Hook)
    requires k < |table|
  {
    if Succeeds(At(Layered(w, table, next, k), table[k].target), table[k])
    then Some(table[k].target, next + k) else None
  }

  /** A target carries a hook after the first k rows exactly when it did before or one of them put one there. */
  lemma {:induction false} OccupiedMeans(w: World, table: seq<Row>, next: Id, k: nat, a: Address)
    requires k <= |table| && Quiet(w, next)
    ensures At(Layered(w, table, next, k), a).order != [] <==>
            At(w, a).order != [] || exists j :: 0 <= j < k && table[j].target == a && HookAt(w, table, next, j).Some?
  {
    if k > 0 {
      OccupiedMeans(w, table, next, k - 1, a);
      LayeredQuiet(w, table, next, k - 1);
      InstalledShape(At(Layered(w, table, next, k - 1), table[k - 1].target), next + k - 1);
    }
  }

  /**
   A row gets a hook exactly when its install goes through and it does not refuse a target that is hooked, whether
   from before the call or by an earlier row.
   */
  lemma HookAtMeans(w: World, table: seq<Row>, next: Id, k: nat)
    requires k < |table| && Quiet(w, next)
    ensures HookAt(w, table, next, k).Some? <==>
            && (table[k].fate.Installs? || table[k].fate.ThrowsAfter?)
            && !(&& table[k].refuseIfHooked
                 && (|| At(w, table[k].target).order != []
                     || exists j :: 0 <= j < k && table[j].target == table[k].target
                                    && HookAt(w, table, next, j).Some?))
    ensures HookAt(w, table, next, k).Some? ==> HookAt(w, table, next, k) == Some(table[k].target, next + k)
  {
    OccupiedMeans(w, table, next, k, table[k].target);
  }

  /** The ids of the hooks the first k rows put on a target, oldest first. */
  function HookIds(w: World, table: seq<Row>, next: Id, k: nat, a: Address): (ids: seq<Id>)
    requires k <= |table|
  {
    if k == 0 then []
    else
      var rest := HookIds(w, table, next, k - 1, a);
      if HookAt(w, table, next, k - 1) == Some(a, next + k - 1) then rest + [next + k - 1] else rest
  }

  /** A target with some new hooks on top of the old ones: it leads to the last of them. */
  ghost predicate OnTop(v: Target, u: Target, ids: seq<Id>)
  {
    && v.order == u.order + ids && v.pending == []
    && v.head == (if ids == [] then u.head else Layer(ids[|ids| - 1]))
    && forall id :: id in v.saved <==> id in u.saved || id in ids
  }

  lemma OneMoreOnTop(v: Target, u: Target, ids: seq<Id>, id: Id)
    requires OnTop(v, u, ids) && Settled(v, id)
    ensures OnTop(Installed(v, id), u, ids + [id])
  {
    InstalledShape(v, id);
    assert u.order + ids + [id] == u.order + (ids + [id]);
  }

  lemma PutLeavesOthers(w: World, a: Address, v: Target, b: Address)
    requires v != Untouched
    ensures At(Put(w, a, v), b) == if a == b then v else At(w, b)
  {
  }

  lemma RowOnTop(l: World, target: Address, id: Id, a: Address, u: Target, ids: seq<Id>)
    requires Quiet(l, id) && OnTop(At(l, a), u, ids)
    ensures OnTop(At(Put(l, target, Installed(At(l, target), id)), a), u, if target == a then ids + [id] else ids)
  {
    var v := At(l, target);
    QuietAt(l, id, target);
    InstalledShape(v, id);
    PutLeavesOthers(l, target, Installed(v, id), a);
    if target == a {
      OneMoreOnTop(v, u, ids, id);
    }
  }

  lemma LayeredNext(w: World, table: seq<Row>, next: Id, k: nat, a: Address)
    requires k < |table|
    ensures var l, target := Layered(w, table, next, k), table[k].target;
            && Layered(w, table, next, k + 1) ==
               (if HookAt(w, table, next, k).Some? then Put(l, target, Installed(At(l, target), next + k)) else l)
            && HookIds(w, table, next, k + 1, a) ==
               HookIds(w, table, next, k, a) + if HookAt(w, table, next, k).Some? && target == a then [next + k] else []
  {
  }

  /** After k rows each target has its old hooks and then the new ones, and leads to the last of them. */
  lemma {:induction false} LayeredMeans(w: World, table: seq<Row>, next: Id, k: nat, a: Address)
    requires k <= |table| && Quiet(w, next)
    ensures OnTop(At(Layered(w, table, next, k), a), At(w, a), HookIds(w, table, next, k, a))
  {
    if k == 0 {
      QuietAt(w, next, a);
    } else {
      var l, ids := Layered(w, table, next, k - 1), HookIds(w, table, next, k - 1, a);
      LayeredMeans(w, table, next, k - 1, a);
      LayeredQuiet(w, table, next, k - 1);
      LayeredNext(w, table, next, k - 1, a);
      RowOnTop(l, table[k - 1].target, next + k - 1, a, At(w, a), ids);
      assert ids + [] == ids;
    }
  }

  method InstallRow(w: World, id: Id, row: Row) returns (r: World, hook: Hook)
    requires Quiet(w, id)
    ensures Succeeds(At(w, row.target), row) ==>
              r == Put(w, row.target, Installed(At(w, row.target), id)) && hook == Some(row.target, id)
    ensures !Succeeds(At(w, row.target), row) ==> r == w && hook == None
  {
    var v := At(w, row.target);
    r := Put(w, row.target, Attempt(v, id, row));
    hook := if Succeeds(v, row) then Some(row.target, id) else None;
    if !Succeeds(v, row) {
      QuietAt(w, id, row.target);
      FailedAttemptChangesNothing(v, id, row);
    }
  }

  /** Popping the last row takes the world back to the rows before it; a row without a hook changed nothing. */
  lemma PopLast(w: World, table: seq<Row>, next: Id, k: nat, hook: Hook)
    requires Quiet(w, next) && k < |table| && hook == HookAt(w, table, next, k)
    ensures var l := Layered(w, table, next, k + 1);
            if hook.None? then l == Layered(w, table, next, k)
            else && hook.id in At(l, hook.target).saved
                 && Put(l, hook.target, Destroyed(At(l, hook.target), hook.id, false)) == Layered(w, table, next, k)
  {
    LayeredQuiet(w, table, next, k);
    PopRow(Layered(w, table, next, k), next + k, table[k].target);
  }

  /** Pop the hooks from the back, destroying each. */
  method RollBack(ghost w: World, ghost table: seq<Row>, ghost next: Id, current: World, hooks: seq<Hook>,
                  loaderLock: bool) returns (r: World)
    requires Quiet(w, next) && |hooks| <= |table|
    requires forall k :: 0 <= k < |hooks| ==> hooks[k] == HookAt(w, table, next, k)
    requires current == Layered(w, table, next, |hooks|)
    ensures r == if loaderLock then current else w
  {
    r := current;
    var rows := hooks;
    while rows != []
      invariant |rows| <= |hooks| && rows == hooks[..|rows|]
      invariant r == if loaderLock then current else Layered(w, table, next, |rows|)
      decreases |rows|
    {
      var last := rows[|rows| - 1];
      PopLast(w, table, next, |rows| - 1, last);
      if last.Some? && !loaderLock {
        r := Put(r, last.target, Destroyed(At(r, last.target), last.id, loaderLock));
      }
      rows := rows[..|rows| - 1];
    }
  }

  /** The next row of a table, if copying its request does not throw. */
  method NextRow(ghost w: World, ghost table: seq<Row>, next: Id, ghost i: nat, current: World, row: Row, id: Id)
    returns (r: World, hook: Hook)
    requires Quiet(w, next) && i < |table| && row == table[i] && id == next + i
    requires current == Layered(w, table, next, i)
    ensures r == Layered(w, table, next, i + 1) && hook == HookAt(w, table, next, i)
  {
    r, hook := current, None;
    if !row.fate.ThrowsBefore? {
      LayeredQuiet(w, table, next, i);
      r, hook := InstallRow(current, id, row);
    }
  }

  /** Nothing threw among these rows, and every mandatory one has its hook. */
  predicate AllThrough(table: seq<Row>, hooks: seq<Hook>)
    requires |hooks| <= |table|
  {
    forall k :: 0 <= k < |hooks| ==>
      && !table[k].fate.ThrowsBefore? && !table[k].fate.ThrowsAfter?
      && (table[k].mandatory ==> hooks[k].Some?)
  }

  ghost predicate HooksAre(w: World, table: seq<Row>, next: Id, hooks: seq<Hook>)
  {
    |hooks| <= |table| && forall k :: 0 <= k < |hooks| ==> hooks[k] == HookAt(w, table, next, k)
  }

  /** The rows before k went through, and row k threw or was mandatory and got no hook. */
  ghost predicate FailsAt(w: World, table: seq<Row>, next: Id, k: nat)
  {
    && k < |table|
    && (|| table[k].fate.ThrowsBefore? || table[k].fate.ThrowsAfter?
        || (table[k].mandatory && HookAt(w, table, next, k).None?))
    && forall j :: 0 <= j < k ==>
         && !table[j].fate.ThrowsBefore? && !table[j].fate.ThrowsAfter?
         && (table[j].mandatory ==> HookAt(w, table, next, j).Some?)
  }

  /**
   Every row goes through, or the table fails at the first row that throws or is mandatory and gets no hook. Then,
   off the loader lock, every target is exactly what it was before the call; under it every installed row stays.
   */
  method InstallTable(w: World, table: seq<Row>, next: Id, loaderLock: bool) returns (r: World, outcome: Outcome)
    requires Quiet(w, next)
    ensures outcome.Done? ==>
              && |outcome.hooks| == |table| && HooksAre(w, table, next, outcome.hooks)
              && r == Layered(w, table, next, |table|)
    ensures outcome.Done? ==> forall k :: 0 <= k < |table| ==>
              && !table[k].fate.ThrowsBefore? && !table[k].fate.ThrowsAfter?
              && (table[k].mandatory ==> outcome.hooks[k].Some?)
    ensures outcome.Failed? ==>
              exists k: nat ::
                FailsAt(w, table, next, k) && r == if loaderLock then Layered(w, table, next, k + 1) else w
  {
    r := w;
    var hooks: seq<Hook> := [];
    var i := 0;
    while i < |table|
      invariant 0 <= i <= |table| && |hooks| == i && r == Layered(w, table, next, i)
      invariant HooksAre(w, table, next, hooks) && AllThrough(table, hooks)
    {
      var hook;
      r, hook := NextRow(w, table, next, i, r, table[i], next + i);
      hooks := hooks + [hook];
      if table[i].fate.ThrowsBefore? || table[i].fate.ThrowsAfter? || (table[i].mandatory && hook.None?) {
        assert FailsAt(w, table, next, i);
        r := RollBack(w, table, next, r, hooks, loaderLock);
        return r, Failed;
      }
      i := i + 1;
    }
    outcome := Done(hooks);
  }
}
