/**
 N-of-M corroboration: independence atoms, the agreement test on 64-bit values, and the vote.
 */
module Quorum {
  import opened MachineInts
  import opened Ascii
  import opened Evidence
  import opened Permutations
  import Fnv

  // ---------------------------------------------------------------------------------------
  // Independence atoms
  // ---------------------------------------------------------------------------------------

  /** What a rung or a flat anchor can land on: a pattern's site, a type, a literal, an export, or a fixed value. */
  datatype Place =
    | PatternAt(bytes: Bytes, mask: Bytes, offset: u64, walkBack: i64)
    | RipAt(bytes: Bytes, mask: Bytes, offset: u64, displacementAt: i64, instructionLength: u64)
    | TypeNamed(mangled: Bytes)
    | Literal(text: Bytes, encoding: Encoding)
    | Fixed(value: i64)
    | ExportOf(exportModule: Bytes, exportName: Bytes)

  function PlaceItems(p: Place): (r: seq<Item>)
  {
    match p
    case PatternAt(bytes, mask, offset, walkBack) =>
      [Byte(1), Run(bytes), Run(mask), Word(offset), Signed(walkBack)]
    case RipAt(bytes, mask, offset, at, length) =>
      [Byte(2), Run(bytes), Run(mask), Word(offset), Signed(at), Word(length)]
    case TypeNamed(mangled) => [Byte(3), Run(mangled)]
    case Literal(text, encoding) => [Byte(4), Run(text), Byte(encoding.Code())]
    case Fixed(value) => [Byte(5), Signed(value)]
    case ExportOf(mod, name) => [Byte(7), Run(mod), Run(name)]
  }

  function Atom(p: Place): (r: u64)
  {
    Fnv.Fold(Fnv.OFFSET_BASIS, Stream(PlaceItems(p)))
  }

  /** Scan facets and the anchor-kind wrapper are left out. */
  function RungPlace(c: Candidate): (p: Place)
  {
    match c
    case Direct(bytes, mask, offset, walkBack) => PatternAt(bytes, mask, offset, walkBack)
    case RipRelative(bytes, mask, offset, at, length) => RipAt(bytes, mask, offset, at, length)
    case RttiVtable(mangled) => TypeNamed(mangled)
    case StringRung(text, encoding, _) => Literal(text, encoding)
  }

  function RungAtom(c: Candidate): (r: u64)
  {
    Atom(RungPlace(c))
  }

  function OperandAtom(c: Candidate, kind: OperandKind, index: u8, width: u8): (r: u64)
  {
    Fnv.Step(Fnv.Step(Fnv.Step(RungAtom(c), kind.Code()), index), width)
  }

  /** One atom per rung, in ladder order. */
  function PerRung(site: seq<Candidate>, atom: Candidate -> u64): (r: seq<u64>)
  {
    if site == [] then [] else [atom(site[0])] + PerRung(site[1..], atom)
  }

  /** The operand a code-operand anchor decodes at each of its rungs. */
  function Selector(kind: OperandKind, index: u8, width: u8): (f: Candidate -> u64)
  {
    (c: Candidate) => OperandAtom(c, kind, index, width)
  }

  function OperandAtoms(site: seq<Candidate>, kind: OperandKind, index: u8, width: u8): (r: seq<u64>)
  {
    PerRung(site, Selector(kind, index, width))
  }

  /** The kind-tagged atom of an anchor with no resolvable rung. */
  function EmptyAtom(a: Anchor): (r: u64)
  {
    Fnv.Step(Fnv.Step(Fnv.OFFSET_BASIS, 6), a.KindCode())
  }

  /** The atoms a kind contributes before the empty-set guard. */
  function SiteAtoms(a: Anchor): (r: seq<u64>)
  {
    match a
    case VtableIdentity(mangled) => [Atom(TypeNamed(mangled))]
    case StringXref(text, encoding, _) => [Atom(Literal(text, encoding))]
    case ExportName(mod, name) => [Atom(ExportOf(LowerBytes(mod), name))]
    case Manual(value) => [Atom(Fixed(value))]
    case RipGlobal(site, _) => PerRung(site, RungAtom)
    case CodeOperand(site, kind, index, width) => OperandAtoms(site, kind, index, width)
    case CallArgHome => []
    case Quorum => []
    case Unset => []
  }

  /** Never empty, so two anchors without a resolvable rung still compare as dependent. */
  function Atoms(a: Anchor): (r: seq<u64>)
    ensures r != []
  {
    if SiteAtoms(a) == [] then [EmptyAtom(a)] else SiteAtoms(a)
  }

  /** The loop that gathers an anchor's atoms rung by rung. */
  method CollectAtoms(a: Anchor) returns (atoms: seq<u64>)
    ensures atoms == Atoms(a)
  {
    if a.RipGlobal? {
      atoms := GatherRungs(a.site, RungAtom);
    } else if a.CodeOperand? {
      atoms := GatherOperands(a.site, a.operandKind, a.operandIndex, a.byteWidth);
    } else {
      atoms := SiteAtoms(a);
    }
    if |atoms| == 0 {
      atoms := [EmptyAtom(a)];
    }
  }

  method GatherRungs(site: seq<Candidate>, atom: Candidate -> u64) returns (atoms: seq<u64>)
    ensures atoms == PerRung(site, atom)
  {
    atoms := [];
    for i := 0 to |site|
      invariant atoms + PerRung(site[i..], atom) == PerRung(site, atom)
    {
      assert site[i..][0] == site[i] && site[i..][1..] == site[i + 1..];
      atoms := atoms + [atom(site[i])];
    }
  }

  method GatherOperands(site: seq<Candidate>, kind: OperandKind, index: u8, width: u8) returns (atoms: seq<u64>)
    ensures atoms == OperandAtoms(site, kind, index, width)
  {
    atoms := GatherRungs(site, Selector(kind, index, width));
  }

  /** True when two atom lists share a value: the quadratic scan of the independence gate. */
  method SharesAtom(x: seq<u64>, y: seq<u64>) returns (shares: bool)
    ensures shares <==> !Disjoint(x, y)
  {
    for i := 0 to |x|
      invariant forall k, l :: 0 <= k < i && 0 <= l < |y| ==> x[k] != y[l]
    {
      for j := 0 to |y|
        invariant forall l :: 0 <= l < j ==> x[i] != y[l]
      {
        if x[i] == y[j] {
          return true;
        }
      }
    }
    return false;
  }

  predicate Disjoint(x: seq<u64>, y: seq<u64>)
  {
    forall i, j :: 0 <= i < |x| && 0 <= j < |y| ==> x[i] != y[j]
  }

  lemma {:induction false} RungAtomHeld(site: seq<Candidate>, atom: Candidate -> u64, k: nat)
    requires k < |site|
    ensures atom(site[k]) in PerRung(site, atom)
  {
    if k > 0 {
      RungAtomHeld(site[1..], atom, k - 1);
    }
  }

  // Atoms fold exactly what determines a site.

  lemma PlaceTag(p: Place)
    ensures |Stream(PlaceItems(p))| > 0 && Stream(PlaceItems(p))[0] == PlaceItems(p)[0].b
  {
    var items := PlaceItems(p);
    assert items == [items[0]] + items[1..];
    StreamFirst(items[0], items[1..]);
  }

  /** Two places fold the same bytes exactly when they are the same place. */
  lemma PlacesUnambiguous(x: Place, y: Place)
    ensures Stream(PlaceItems(x)) == Stream(PlaceItems(y)) <==> x == y
  {
    if Stream(PlaceItems(x)) == Stream(PlaceItems(y)) {
      PlaceTag(x);
      PlaceTag(y);
      assert Stream(PlaceItems(x)) + [] == Stream(PlaceItems(y)) + [];
      StreamUnambiguous(PlaceItems(x), PlaceItems(y), [], []);
      SameItemsSamePlace(x, y);
    }
  }

  lemma SameItemsSamePlace(x: Place, y: Place)
    requires PlaceItems(x) == PlaceItems(y)
    ensures x == y
  {
    var a, b := PlaceItems(x), PlaceItems(y);
    assert |a| == |b| && forall i :: 0 <= i < |a| ==> a[i] == b[i];
  }

  /** Two rungs fold the same atom bytes exactly when at most their scan facets differ. */
  lemma RungsFoldAlike(c: Candidate, d: Candidate)
    ensures Stream(PlaceItems(RungPlace(c))) == Stream(PlaceItems(RungPlace(d))) <==>
            c == d || (c.StringRung? && d.StringRung? && c.text == d.text && c.encoding == d.encoding)
  {
    PlacesUnambiguous(RungPlace(c), RungPlace(d));
  }

  lemma {:induction false} PerRungAt(site: seq<Candidate>, atom: Candidate -> u64, k: nat)
    requires k < |site|
    ensures |PerRung(site, atom)| == |site| && PerRung(site, atom)[k] == atom(site[k])
  {
    if |site| > 1 {
      PerRungAt(site[1..], atom, if k > 0 then k - 1 else 0);
    }
  }

  lemma OperandAtomsAt(site: seq<Candidate>, kind: OperandKind, index: u8, width: u8, k: nat)
    requires k < |site|
    ensures var atoms := OperandAtoms(site, kind, index, width);
            && |atoms| == |site|
            && atoms[k] == Fnv.Fold(Atom(RungPlace(site[k])),
                                    [if kind.MemoryDisplacement? then 1 else 0, index, width])
  {
    Fnv.FoldThree(RungAtom(site[k]), kind.Code(), index, width);
    PerRungAt(site, Selector(kind, index, width), k);
  }

  /** A flat anchor has the atom of its one place; a ladder has one for every rung, with the operand selected there. */
  lemma AtomsMean(a: Anchor)
    ensures a.VtableIdentity? ==> Atoms(a) == [Atom(TypeNamed(a.mangled))]
    ensures a.StringXref? ==> Atoms(a) == [Atom(Literal(a.text, a.encoding))]
    ensures a.ExportName? ==> Atoms(a) == [Atom(ExportOf(LowerBytes(a.exportModule), a.exportName))]
    ensures a.Manual? ==> Atoms(a) == [Atom(Fixed(a.manualValue))]
    ensures (a.RipGlobal? || a.CodeOperand?) && a.site != [] ==> |Atoms(a)| == |a.site|
    ensures a.RipGlobal? ==> forall k :: 0 <= k < |a.site| ==> Atoms(a)[k] == Atom(RungPlace(a.site[k]))
    ensures a.CodeOperand? ==>
              forall k :: 0 <= k < |a.site| ==>
                Atoms(a)[k] == Fnv.Fold(Atom(RungPlace(a.site[k])),
                                        [if a.operandKind.MemoryDisplacement? then 1 else 0, a.operandIndex,
                                         a.byteWidth])
  {
    if a.RipGlobal? && a.site != [] {
      forall k | 0 <= k < |a.site|
        ensures |SiteAtoms(a)| == |a.site| && SiteAtoms(a)[k] == Atom(RungPlace(a.site[k]))
      {
        PerRungAt(a.site, RungAtom, k);
      }
    } else if a.CodeOperand? && a.site != [] {
      forall k | 0 <= k < |a.site|
        ensures |SiteAtoms(a)| == |a.site|
        ensures SiteAtoms(a)[k] == Fnv.Fold(Atom(RungPlace(a.site[k])),
                                            [if a.operandKind.MemoryDisplacement? then 1 else 0, a.operandIndex,
                                             a.byteWidth])
      {
        OperandAtomsAt(a.site, a.operandKind, a.operandIndex, a.byteWidth, k);
      }
    }
  }

  lemma NoRungAtom(a: Anchor)
    requires a.CallArgHome? || a.Quorum? || a.Unset? || ((a.RipGlobal? || a.CodeOperand?) && a.site == [])
    ensures Atoms(a) == [Fnv.Fold(Fnv.OFFSET_BASIS, [6, a.KindCode()])]
  {
    var h := Fnv.Step(Fnv.OFFSET_BASIS, 6);
    assert [6, a.KindCode()][1..] == [a.KindCode()] && [a.KindCode()][1..] == [];
    assert Fnv.Fold(h, [a.KindCode()]) == Fnv.Step(h, a.KindCode());
  }

  lemma TagsDecide(h: u64, tag: u8, j: u8, k: u8)
    ensures Fnv.Fold(h, [tag, j]) == Fnv.Fold(h, [tag, k]) <==> j == k
  {
    if Fnv.Fold(h, [tag, j]) == Fnv.Fold(h, [tag, k]) {
      Fnv.ShortRunsInjective(h, [tag, j], [tag, k]);
      assert [tag, j][1] == [tag, k][1];
    }
  }

  lemma OneEach(x: u64, y: u64)
    ensures Disjoint([x], [y]) <==> x != y
  {
    assert [x][0] == x && [y][0] == y;
  }

  /** Anchors without a rung are dependent exactly when they are of one kind. */
  lemma NoRungsCompareByKind(a: Anchor, b: Anchor)
    requires a.CallArgHome? || a.Quorum? || a.Unset? || ((a.RipGlobal? || a.CodeOperand?) && a.site == [])
    requires b.CallArgHome? || b.Quorum? || b.Unset? || ((b.RipGlobal? || b.CodeOperand?) && b.site == [])
    ensures !Disjoint(Atoms(a), Atoms(b)) <==> a.KindCode() == b.KindCode()
  {
    NoRungAtom(a);
    NoRungAtom(b);
    OneEach(Atoms(a)[0], Atoms(b)[0]);
    TagsDecide(Fnv.OFFSET_BASIS, 6, a.KindCode(), b.KindCode());
  }

  /** Two ladders sharing any rung are dependent, wherever the rung sits in either of them. */
  lemma SharedRungIsDependent(a: Ladder, b: Ladder, p: Pages, q: Pages, i: nat, j: nat)
    requires i < |a| && j < |b| && a[i] == b[j]
    ensures !Disjoint(Atoms(RipGlobal(a, p)), Atoms(RipGlobal(b, q)))
  {
    RungAtomHeld(a, RungAtom, i);
    RungAtomHeld(b, RungAtom, j);
  }

  lemma OperandAtomHeld(site: seq<Candidate>, kind: OperandKind, index: u8, width: u8, k: nat)
    requires k < |site|
    ensures OperandAtom(site[k], kind, index, width) in OperandAtoms(site, kind, index, width)
  {
    RungAtomHeld(site, Selector(kind, index, width), k);
  }

  /** Two operand anchors that select the same operand of a shared rung are dependent. */
  lemma SharedOperandIsDependent(a: Ladder, b: Ladder, kind: OperandKind, index: u8, width: u8, i: nat, j: nat)
    requires i < |a| && j < |b| && a[i] == b[j]
    ensures !Disjoint(Atoms(CodeOperand(a, kind, index, width)), Atoms(CodeOperand(b, kind, index, width)))
  {
    OperandAtomHeld(a, kind, index, width, i);
    OperandAtomHeld(b, kind, index, width, j);
  }

  /** On one rung the selectors decide: an atom is shared exactly when kind, index and width are all the same. */
  lemma OperandSelectorsDecide(c: Candidate, kind: OperandKind, index: u8, width: u8,
                               otherKind: OperandKind, otherIndex: u8, otherWidth: u8)
    ensures OperandAtom(c, kind, index, width) == OperandAtom(c, otherKind, otherIndex, otherWidth) <==>
            kind == otherKind && index == otherIndex && width == otherWidth
  {
    var x, y := [kind.Code(), index, width], [otherKind.Code(), otherIndex, otherWidth];
    var h := RungAtom(c);
    Fnv.FoldThree(h, x[0], x[1], x[2]);
    Fnv.FoldThree(h, y[0], y[1], y[2]);
    if OperandAtom(c, kind, index, width) == OperandAtom(c, otherKind, otherIndex, otherWidth) {
      Fnv.ShortRunsInjective(h, x, y);
      assert x[0] == y[0] && x[1] == y[1] && x[2] == y[2];
    }
  }

  /** A flat string anchor and a ladder holding the same literal are dependent, whatever their facets. */
  lemma WrapperAndFacetsDoNotMatter(text: Bytes, encoding: Encoding, f: Facets, g: Facets, site: Ladder, p: Pages,
                                    i: nat)
    requires i < |site| && site[i] == StringRung(text, encoding, g)
    ensures !Disjoint(Atoms(StringXref(text, encoding, f)), Atoms(RipGlobal(site, p)))
  {
    RungAtomHeld(site, RungAtom, i);
    assert Atoms(StringXref(text, encoding, f))[0] == RungAtom(site[i]);
  }

  /** Two spellings of one module name cannot double-vote for one export. */
  lemma ModuleCaseDoesNotMatter(m: Bytes, n: Bytes, name: Bytes)
    requires LowerBytes(m) == LowerBytes(n)
    ensures !Disjoint(Atoms(ExportName(m, name)), Atoms(ExportName(n, name)))
  {
    assert Atoms(ExportName(m, name))[0] == Atoms(ExportName(n, name))[0];
  }

  // ---------------------------------------------------------------------------------------
  // Agreement of two values
  // ---------------------------------------------------------------------------------------

  datatype Match = ExactValue | WithinTolerance

  function Distance(a: int, b: int): (r: nat)
  {
    if a < b then b - a else a - b
  }

  /** The fail-closed agreement test, with the gap computed by unsigned 64-bit subtraction. */
  predicate Agree(first: i64, second: i64, policy: Match, tolerance: i64)
  {
    if policy.ExactValue? then first == second
    else if tolerance < 0 then false
    else
      var lo, hi := if first < second then first else second, if first < second then second else first;
      Wrap64(Wrap64(hi) - Wrap64(lo)) <= Wrap64(tolerance)
  }

  /** The unsigned gap is the true distance for every pair of signed 64-bit values. */
  lemma AgreeIsDistance(first: i64, second: i64, policy: Match, tolerance: i64)
    ensures Agree(first, second, policy, tolerance)
       <==> if policy.ExactValue? then first == second else tolerance >= 0 && Distance(first, second) <= tolerance
  {
  }

  // ---------------------------------------------------------------------------------------
  // The vote
  // ---------------------------------------------------------------------------------------

  datatype Outcome = Resolved(value: i64) | Failed | Unsupported | NotIndependent

  /** A member by the identity of its anchor object, or a null member. */
  datatype Member = Null | Ref(id: nat, anchor: Anchor)

  datatype Quorum = Quorum(members: seq<Member>, threshold: nat, policy: Match, tolerance: i64)

  /** Independence of two members, for any way of telling their atoms. */
  predicate IndependentBy(atoms: Anchor -> seq<u64>, a: Member, b: Member)
  {
    && a.Ref? && b.Ref?
    && a.id != b.id
    && !(a.anchor.Manual? && b.anchor.Manual?)
    && Disjoint(atoms(a.anchor), atoms(b.anchor))
  }

  predicate Independent(a: Member, b: Member)
  {
    IndependentBy(Atoms, a, b)
  }

  predicate PairwiseIndependent(members: seq<Member>)
  {
    forall i, j :: 0 <= i < j < |members| ==> Independent(members[i], members[j])
  }

  function Needed(q: Quorum): (r: nat)
  {
    if q.threshold == 0 then |q.members| else q.threshold
  }

  /** Enough members, none null or nested, and a threshold between two and all of them. */
  predicate WellFormed(q: Quorum)
  {
    && |q.members| >= 2
    && (forall m :: m in q.members ==> m.Ref? && !m.anchor.Quorum?)
    && 2 <= Needed(q) <= |q.members|
  }

  /** The vote a member casts: its resolved value, or nothing. */
  function Vote(o: Outcome): (r: seq<i64>)
  {
    if o.Resolved? then [o.value] else []
  }

  function Votes(members: seq<Member>, resolve: Member -> Outcome): (r: seq<i64>)
  {
    Collect((m: Member) => Vote(resolve(m)), members)
  }

  function Agreeing(center: i64, votes: seq<i64>, policy: Match, tolerance: i64): (r: nat)
    ensures r <= |votes|
  {
    if votes == [] then 0
    else (if Agree(center, votes[0], policy, tolerance) then 1 else 0) + Agreeing(center, votes[1..], policy, tolerance)
  }

  predicate Qualifies(center: i64, votes: seq<i64>, q: Quorum)
  {
    Agreeing(center, votes, q.policy, q.tolerance) >= Needed(q)
  }

  /** The first vote from index `from` on whose cluster is large enough, committed through the validator. */
  function FirstCenter(votes: seq<i64>, from: nat, q: Quorum, accepts: i64 -> bool): (r: Outcome)
    requires from <= |votes|
    decreases |votes| - from
  {
    if from == |votes| then Failed
    else if Qualifies(votes[from], votes, q) then Commit(votes[from], accepts)
    else FirstCenter(votes, from + 1, q, accepts)
  }

  function Commit(value: i64, accepts: i64 -> bool): (r: Outcome)
  {
    if accepts(value) then Resolved(value) else Failed
  }

  function Decide(q: Quorum, resolve: Member -> Outcome, accepts: i64 -> bool): (r: Outcome)
  {
    if !WellFormed(q) then Failed
    else if !PairwiseIndependent(q.members) then NotIndependent
    else FirstCenter(Votes(q.members, resolve), 0, q, accepts)
  }

  method CountAgreeing(center: i64, votes: seq<i64>, policy: Match, tolerance: i64) returns (agree: nat)
    ensures agree == Agreeing(center, votes, policy, tolerance)
  {
    agree := 0;
    for i := 0 to |votes|
      invariant agree + Agreeing(center, votes[i..], policy, tolerance) == Agreeing(center, votes, policy, tolerance)
    {
      assert votes[i..][0] == votes[i] && votes[i..][1..] == votes[i + 1..];
      if Agree(center, votes[i], policy, tolerance) {
        agree := agree + 1;
      }
    }
  }

  /** Two members are independent evidence: not one object, not two literals, and no shared atom. */
  method CheckPair(a: Member, b: Member, ghost atoms: Anchor -> seq<u64>) returns (ok: bool)
    requires forall x {:trigger Atoms(x)} :: atoms(x) == Atoms(x)
    requires a.Ref? && b.Ref?
    ensures ok == IndependentBy(atoms, a, b)
  {
    if a.id == b.id || (a.anchor.Manual? && b.anchor.Manual?) {
      return false;
    }
    var x := CollectAtoms(a.anchor);
    var y := CollectAtoms(b.anchor);
    var shares := SharesAtom(x, y);
    ok := !shares;
  }

  /** Every pair, by a nested scan that stops at the first dependent one. */
  method CheckPairs(members: seq<Member>, ghost atoms: Anchor -> seq<u64>) returns (ok: bool)
    requires forall x {:trigger Atoms(x)} :: atoms(x) == Atoms(x)
    requires forall m :: m in members ==> m.Ref?
    ensures ok <==> forall i, j :: 0 <= i < j < |members| ==> IndependentBy(atoms, members[i], members[j])
  {
    for i := 0 to |members|
      invariant forall k, j :: 0 <= k < i && k < j < |members| ==> IndependentBy(atoms, members[k], members[j])
    {
      for j := i + 1 to |members|
        invariant forall k :: i < k < j ==> IndependentBy(atoms, members[i], members[k])
      {
        var independent := CheckPair(members[i], members[j], atoms);
        if !independent {
          return false;
        }
      }
    }
    return true;
  }

  method CollectVotes(members: seq<Member>, resolve: Member -> Outcome) returns (votes: seq<i64>)
    ensures votes == Votes(members, resolve)
  {
    ghost var f := (m: Member) => Vote(resolve(m));
    votes := [];
    for i := 0 to |members|
      invariant votes == Collect(f, members[..i])
    {
      assert members[..i + 1] == members[..i] + [members[i]];
      CollectConcat(f, members[..i], [members[i]]);
      CollectOne(f, members[i]);
      var resolved := resolve(members[i]);
      if resolved.Resolved? {
        votes := votes + [resolved.value];
      }
    }
    assert members[..|members|] == members;
  }

  /** The quorum case of anchor resolution, in the order the checks run. */
  method ResolveQuorum(q: Quorum, resolve: Member -> Outcome, accepts: i64 -> bool) returns (r: Outcome)
    ensures r == Decide(q, resolve, accepts)
  {
    if |q.members| < 2 {
      return Failed;
    }
    if exists m :: m in q.members && (m.Null? || m.anchor.Quorum?) {
      return Failed;
    }
    if Needed(q) < 2 || Needed(q) > |q.members| {
      return Failed;
    }
    var independent := CheckPairs(q.members, Atoms);
    if !independent {
      return NotIndependent;
    }
    var votes := CollectVotes(q.members, resolve);
    for i := 0 to |votes|
      invariant FirstCenter(votes, i, q, accepts) == FirstCenter(votes, 0, q, accepts)
    {
      var agree := CountAgreeing(votes[i], votes, q.policy, q.tolerance);
      if agree >= Needed(q) {
        return Commit(votes[i], accepts);
      }
    }
    return Failed;
  }

  // ---------------------------------------------------------------------------------------
  // What a resolved quorum guarantees
  // ---------------------------------------------------------------------------------------

  /** The members whose own resolution agrees with v. */
  ghost function Supporters(members: seq<Member>, resolve: Member -> Outcome, v: i64, q: Quorum): (r: set<int>)
  {
    set i | 0 <= i < |members| && Supports(resolve(members[i]), v, q)
  }

  predicate Supports(o: Outcome, v: i64, q: Quorum)
  {
    o.Resolved? && Agree(v, o.value, q.policy, q.tolerance)
  }

  lemma {:induction false} AgreeingConcat(c: i64, s: seq<i64>, t: seq<i64>, policy: Match, tolerance: i64)
    ensures Agreeing(c, s + t, policy, tolerance)
            == Agreeing(c, s, policy, tolerance) + Agreeing(c, t, policy, tolerance)
  {
    if s == [] {
      assert s + t == t;
    } else {
      assert (s + t)[0] == s[0] && (s + t)[1..] == s[1..] + t;
      AgreeingConcat(c, s[1..], t, policy, tolerance);
    }
  }

  lemma AgreeingOne(c: i64, o: Outcome, q: Quorum)
    ensures Agreeing(c, Vote(o), q.policy, q.tolerance) == if Supports(o, c, q) then 1 else 0
  {
    if o.Resolved? {
      assert Vote(o)[1..] == [];
    }
  }

  lemma AgreeingNext(front: seq<Member>, last: Member, resolve: Member -> Outcome, v: i64, q: Quorum)
    ensures Agreeing(v, Votes(front + [last], resolve), q.policy, q.tolerance) ==
            Agreeing(v, Votes(front, resolve), q.policy, q.tolerance) + if Supports(resolve(last), v, q) then 1 else 0
  {
    var f := (m: Member) => Vote(resolve(m));
    CollectConcat(f, front, [last]);
    CollectOne(f, last);
    AgreeingConcat(v, Votes(front, resolve), Vote(resolve(last)), q.policy, q.tolerance);
    AgreeingOne(v, resolve(last), q);
  }

  lemma SupportersNext(front: seq<Member>, last: Member, resolve: Member -> Outcome, v: i64, q: Quorum)
    ensures |Supporters(front + [last], resolve, v, q)| ==
            |Supporters(front, resolve, v, q)| + if Supports(resolve(last), v, q) then 1 else 0
  {
    var s, t := Supporters(front + [last], resolve, v, q), Supporters(front, resolve, v, q);
    assert s == t + if Supports(resolve(last), v, q) then {|front|} else {};
  }

  lemma {:induction false} SupportersAreVotes(members: seq<Member>, resolve: Member -> Outcome, v: i64, q: Quorum)
    ensures |Supporters(members, resolve, v, q)| == Agreeing(v, Votes(members, resolve), q.policy, q.tolerance)
    decreases |members|
  {
    if members != [] {
      var front, last := members[..|members| - 1], members[|members| - 1];
      assert members == front + [last];
      AgreeingNext(front, last, resolve, v, q);
      SupportersNext(front, last, resolve, v, q);
      SupportersAreVotes(front, resolve, v, q);
    }
  }

  lemma {:induction false} FirstCenterQualifies(votes: seq<i64>, from: nat, q: Quorum, accepts: i64 -> bool)
    requires from <= |votes|
    ensures FirstCenter(votes, from, q, accepts).Resolved? || FirstCenter(votes, from, q, accepts).Failed?
    ensures FirstCenter(votes, from, q, accepts).Resolved? ==>
              exists i :: from <= i < |votes| && Qualifies(votes[i], votes, q) && accepts(votes[i])
                          && FirstCenter(votes, from, q, accepts) == Resolved(votes[i])
    ensures (exists i :: from <= i < |votes| && Qualifies(votes[i], votes, q)) ==>
              exists i :: from <= i < |votes| && Qualifies(votes[i], votes, q)
                          && FirstCenter(votes, from, q, accepts) == Commit(votes[i], accepts)
    ensures !(exists i :: from <= i < |votes| && Qualifies(votes[i], votes, q))
            ==> FirstCenter(votes, from, q, accepts) == Failed
    decreases |votes| - from
  {
    if from < |votes| && !Qualifies(votes[from], votes, q) {
      FirstCenterQualifies(votes, from + 1, q, accepts);
    }
  }

  /**
   A quorum resolves to v only if at least N >= 2 distinct, pairwise independent members resolved
   to values agreeing with v, and the quorum's own validator accepted v.
   */
  lemma ResolvedIsCorroborated(q: Quorum, resolve: Member -> Outcome, accepts: i64 -> bool)
    requires Decide(q, resolve, accepts).Resolved?
    ensures var v := Decide(q, resolve, accepts).value;
            var s := Supporters(q.members, resolve, v, q);
            && |s| >= (if q.threshold == 0 then |q.members| else q.threshold) >= 2
            && accepts(v)
            && (forall i, j :: i in s && j in s && i != j ==>
                  q.members[i].Ref? && q.members[j].Ref? && q.members[i].id != q.members[j].id
                  && Disjoint(Atoms(q.members[i].anchor), Atoms(q.members[j].anchor)))
  {
    var v, votes := Decide(q, resolve, accepts).value, Votes(q.members, resolve);
    FirstCenterQualifies(votes, 0, q, accepts);
    SupportersAreVotes(q.members, resolve, v, q);
    var s := Supporters(q.members, resolve, v, q);
    forall i, j | i in s && j in s && i != j
      ensures q.members[i].Ref? && q.members[j].Ref? && q.members[i].id != q.members[j].id
      ensures Disjoint(Atoms(q.members[i].anchor), Atoms(q.members[j].anchor))
    {
      var lo, hi := if i < j then i else j, if i < j then j else i;
      assert Independent(q.members[lo], q.members[hi]);
    }
  }

  /** Too few members, a null or nested one, or a threshold out of range fails, whatever the members resolve to. */
  lemma MalformedFails(q: Quorum, resolve: Member -> Outcome, accepts: i64 -> bool)
    requires || |q.members| < 2
             || (exists i :: 0 <= i < |q.members| && (q.members[i].Null? || q.members[i].anchor.Quorum?))
             || q.threshold == 1 || q.threshold > |q.members|
    ensures Decide(q, resolve, accepts) == Failed
  {
    if exists i :: 0 <= i < |q.members| && (q.members[i].Null? || q.members[i].anchor.Quorum?) {
      var i :| 0 <= i < |q.members| && (q.members[i].Null? || q.members[i].anchor.Quorum?);
      assert q.members[i] in q.members;
    }
  }

  /** The members and the threshold are in order. */
  predicate Declared(q: Quorum)
  {
    && |q.members| >= 2 && q.threshold != 1 && q.threshold <= |q.members|
    && forall i :: 0 <= i < |q.members| ==> q.members[i].Ref? && !q.members[i].anchor.Quorum?
  }

  /** One object twice, two manual values, or one site twice is refused before any vote. */
  lemma DependentPairIsRefused(q: Quorum, resolve: Member -> Outcome, accepts: i64 -> bool, i: nat, j: nat)
    requires Declared(q) && i < j < |q.members|
    requires var a, b := q.members[i], q.members[j];
             || a.id == b.id || (a.anchor.Manual? && b.anchor.Manual?)
             || exists x :: x in Atoms(a.anchor) && x in Atoms(b.anchor)
    ensures Decide(q, resolve, accepts) == NotIndependent
  {
    assert WellFormed(q);
    assert !Independent(q.members[i], q.members[j]);
  }

  /** The i-th member resolved, and as many members as the threshold asks for agree with it. */
  ghost predicate Backed(q: Quorum, resolve: Member -> Outcome, i: nat)
    requires i < |q.members|
  {
    && resolve(q.members[i]).Resolved?
    && |Supporters(q.members, resolve, resolve(q.members[i]).value, q)| >=
       if q.threshold == 0 then |q.members| else q.threshold
  }

  /** The votes of the first k members come before those of the others. */
  lemma VotesSplit(members: seq<Member>, resolve: Member -> Outcome, k: nat)
    requires k < |members|
    ensures Votes(members[..k + 1], resolve) == Votes(members[..k], resolve) + Vote(resolve(members[k]))
    ensures Votes(members, resolve) == Votes(members[..k + 1], resolve) + Votes(members[k + 1..], resolve)
  {
    var f := (m: Member) => Vote(resolve(m));
    assert members[..k + 1] == members[..k] + [members[k]] && members == members[..k + 1] + members[k + 1..];
    CollectConcat(f, members[..k], [members[k]]);
    CollectOne(f, members[k]);
    CollectConcat(f, members[..k + 1], members[k + 1..]);
  }

  /** The search over votes, seen member by member: a backed member commits, any other is passed over. */
  lemma CenterStep(q: Quorum, resolve: Member -> Outcome, accepts: i64 -> bool, k: nat)
    requires k < |q.members|
    ensures var votes := Votes(q.members, resolve);
            var p, next := |Votes(q.members[..k], resolve)|, |Votes(q.members[..k + 1], resolve)|;
            && p <= next <= |votes|
            && FirstCenter(votes, p, q, accepts) ==
               if Backed(q, resolve, k) then Commit(resolve(q.members[k]).value, accepts)
               else FirstCenter(votes, next, q, accepts)
  {
    VotesSplit(q.members, resolve, k);
    if resolve(q.members[k]).Resolved? {
      var v, p := resolve(q.members[k]).value, |Votes(q.members[..k], resolve)|;
      assert Votes(q.members, resolve)[p] == v;
      SupportersAreVotes(q.members, resolve, v, q);
    }
  }

  /** From the k-th member on, the first backed one decides. */
  lemma {:induction false} FirstBackedDecides(q: Quorum, resolve: Member -> Outcome, accepts: i64 -> bool, k: nat)
    requires k <= |q.members|
    ensures |Votes(q.members[..k], resolve)| <= |Votes(q.members, resolve)|
    ensures var r := FirstCenter(Votes(q.members, resolve), |Votes(q.members[..k], resolve)|, q, accepts);
            && (forall i :: k <= i < |q.members| && Backed(q, resolve, i)
                            && (forall j :: k <= j < i ==> !Backed(q, resolve, j))
                            ==> r == Commit(resolve(q.members[i]).value, accepts))
            && ((forall i :: k <= i < |q.members| ==> !Backed(q, resolve, i)) ==> r == Failed)
    decreases |q.members| - k
  {
    if k == |q.members| {
      assert q.members[..k] == q.members;
    } else {
      CenterStep(q, resolve, accepts, k);
      FirstBackedDecides(q, resolve, accepts, k + 1);
    }
  }

  lemma NoSharedAtom(x: seq<u64>, y: seq<u64>)
    requires forall a :: a in x ==> a !in y
    ensures Disjoint(x, y)
  {
    forall i, j | 0 <= i < |x| && 0 <= j < |y| ensures x[i] != y[j] {
      assert x[i] in x && y[j] in y;
    }
  }

  /**
   An independent quorum resolves exactly to the value of its first member that enough members agree with, if the
   quorum's validator accepts it; it fails if there is no such member or the value is not accepted.
   */
  lemma ResolvesToFirstBacked(q: Quorum, resolve: Member -> Outcome, accepts: i64 -> bool)
    requires Declared(q)
    requires forall i, j :: 0 <= i < j < |q.members| ==>
               && q.members[i].id != q.members[j].id
               && !(q.members[i].anchor.Manual? && q.members[j].anchor.Manual?)
               && forall x :: x in Atoms(q.members[i].anchor) ==> x !in Atoms(q.members[j].anchor)
    ensures forall i :: 0 <= i < |q.members| && Backed(q, resolve, i)
                        && (forall j :: 0 <= j < i ==> !Backed(q, resolve, j))
              ==> Decide(q, resolve, accepts) ==
                  if accepts(resolve(q.members[i]).value) then Resolved(resolve(q.members[i]).value) else Failed
    ensures (forall i :: 0 <= i < |q.members| ==> !Backed(q, resolve, i)) ==> Decide(q, resolve, accepts) == Failed
  {
    assert WellFormed(q);
    forall i, j | 0 <= i < j < |q.members| ensures Independent(q.members[i], q.members[j]) {
      NoSharedAtom(Atoms(q.members[i].anchor), Atoms(q.members[j].anchor));
    }
    assert q.members[..0] == [] && Votes([], resolve) == [];
    FirstBackedDecides(q, resolve, accepts, 0);
  }

  // ---------------------------------------------------------------------------------------
  // Order of the members
  // ---------------------------------------------------------------------------------------

  lemma {:induction false} AgreeingPermutes(c: i64, s: seq<i64>, t: seq<i64>, policy: Match, tolerance: i64)
    requires multiset(s) == multiset(t)
    ensures Agreeing(c, s, policy, tolerance) == Agreeing(c, t, policy, tolerance)
    decreases |s|
  {
    if s == [] {
      EmptyFromMultiset(t);
    } else {
      var k := IndexOf(t, s[0]);
      WithoutMultiset(s, 0);
      WithoutMultiset(t, k);
      CancelOne(multiset(Without(s, 0)), multiset(Without(t, k)), s[0]);
      AgreeingWithout(c, s, 0, policy, tolerance);
      AgreeingWithout(c, t, k, policy, tolerance);
      AgreeingPermutes(c, Without(s, 0), Without(t, k), policy, tolerance);
    }
  }

  lemma AgreeingWithout(c: i64, s: seq<i64>, k: nat, policy: Match, tolerance: i64)
    requires k < |s|
    ensures Agreeing(c, s, policy, tolerance)
         == Agreeing(c, Without(s, k), policy, tolerance) + (if Agree(c, s[k], policy, tolerance) then 1 else 0)
  {
    SplitAround(s, k);
    AgreeingConcat(c, s[..k] + [s[k]], s[k + 1..], policy, tolerance);
    AgreeingConcat(c, s[..k], [s[k]], policy, tolerance);
    AgreeingConcat(c, s[..k], s[k + 1..], policy, tolerance);
    assert [s[k]][1..] == [];
  }

  lemma IndependentSymmetric(a: Member, b: Member)
    ensures Independent(a, b) == Independent(b, a)
    ensures !Independent(a, a)
  {
  }

  /** In a pairwise independent list, equal members sit at equal places. */
  lemma IndependentDistinct(m: seq<Member>, i: nat, j: nat)
    requires PairwiseIndependent(m) && i < |m| && j < |m|
    ensures i != j ==> Independent(m[i], m[j])
    ensures i != j ==> m[i] != m[j]
  {
    if i < j {
      IndependentSymmetric(m[i], m[j]);
    } else if j < i {
      IndependentSymmetric(m[j], m[i]);
    }
  }

  lemma CountOnce<T>(s: seq<T>, i: nat, j: nat)
    requires i < j < |s| && s[i] == s[j]
    ensures multiset(s)[s[i]] >= 2
  {
    assert s == s[..i] + [s[i]] + s[i + 1..j] + [s[j]] + s[j + 1..];
  }

  lemma {:induction false} DistinctCounts<T>(s: seq<T>, x: T)
    requires forall i, j :: 0 <= i < j < |s| ==> s[i] != s[j]
    ensures multiset(s)[x] <= 1
    decreases |s|
  {
    if s != [] {
      var n := |s| - 1;
      assert s == s[..n] + [s[n]];
      DistinctCounts(s[..n], x);
    }
  }

  lemma IndependenceOrderFree(m: seq<Member>, n: seq<Member>)
    requires multiset(m) == multiset(n) && PairwiseIndependent(m)
    ensures PairwiseIndependent(n)
  {
    assert forall i, j :: 0 <= i < j < |m| ==> m[i] != m[j] by {
      forall i, j | 0 <= i < j < |m| ensures m[i] != m[j] {
        IndependentDistinct(m, i, j);
      }
    }
    forall i, j | 0 <= i < j < |n| ensures Independent(n[i], n[j]) {
      assert n[i] in multiset(m) && n[j] in multiset(m);
      var k, l := IndexOf(m, n[i]), IndexOf(m, n[j]);
      if k == l {
        CountOnce(n, i, j);
        DistinctCounts(m, n[i]);
      }
      IndependentDistinct(m, k, l);
    }
  }

  predicate Reordered(q: Quorum, p: Quorum)
  {
    multiset(q.members) == multiset(p.members) && p == q.(members := p.members)
  }

  lemma SameSize(q: Quorum, p: Quorum)
    requires Reordered(q, p)
    ensures |q.members| == |p.members| && Needed(q) == Needed(p)
  {
    assert |multiset(q.members)| == |multiset(p.members)|;
  }

  lemma WellFormedOrderFree(q: Quorum, p: Quorum)
    requires Reordered(q, p)
    ensures WellFormed(q) == WellFormed(p)
  {
    SameSize(q, p);
    assert forall m :: m in q.members <==> m in multiset(q.members);
    assert forall m :: m in p.members <==> m in multiset(p.members);
  }

  lemma QualifiesOrderFree(q: Quorum, p: Quorum, resolve: Member -> Outcome, c: i64)
    requires Reordered(q, p)
    ensures multiset(Votes(q.members, resolve)) == multiset(Votes(p.members, resolve))
    ensures Qualifies(c, Votes(q.members, resolve), q) == Qualifies(c, Votes(p.members, resolve), p)
  {
    SameSize(q, p);
    CollectPermutes((m: Member) => Vote(resolve(m)), q.members, p.members);
    AgreeingPermutes(c, Votes(q.members, resolve), Votes(p.members, resolve), q.policy, q.tolerance);
  }

  /** Every value that could be the corroborated one commits to the same outcome. */
  ghost predicate CentersAgree(q: Quorum, resolve: Member -> Outcome, accepts: i64 -> bool)
  {
    forall a, b :: a in Votes(q.members, resolve) && b in Votes(q.members, resolve)
                   && Qualifies(a, Votes(q.members, resolve), q) && Qualifies(b, Votes(q.members, resolve), q)
                   ==> Commit(a, accepts) == Commit(b, accepts)
  }

  /** If all qualifying centers agree, every order of the members decides alike. */
  lemma AgreeingCentersFixOutcome(q: Quorum, p: Quorum, resolve: Member -> Outcome, accepts: i64 -> bool)
    requires Reordered(q, p) && CentersAgree(q, resolve, accepts)
    ensures Decide(q, resolve, accepts) == Decide(p, resolve, accepts)
  {
    WellFormedOrderFree(q, p);
    if WellFormed(q) {
      if PairwiseIndependent(q.members) {
        IndependenceOrderFree(q.members, p.members);
        SameDecision(q, p, resolve, accepts);
      } else if PairwiseIndependent(p.members) {
        IndependenceOrderFree(p.members, q.members);
      }
    }
  }

  lemma SameDecision(q: Quorum, p: Quorum, resolve: Member -> Outcome, accepts: i64 -> bool)
    requires Reordered(q, p) && CentersAgree(q, resolve, accepts)
    ensures FirstCenter(Votes(q.members, resolve), 0, q, accepts)
            == FirstCenter(Votes(p.members, resolve), 0, p, accepts)
  {
    var v, w := Votes(q.members, resolve), Votes(p.members, resolve);
    FirstCenterQualifies(v, 0, q, accepts);
    FirstCenterQualifies(w, 0, p, accepts);
    if i :| 0 <= i < |v| && Qualifies(v[i], v, q) {
      QualifiesOrderFree(q, p, resolve, v[i]);
      assert v[i] in multiset(w);
      var k := IndexOf(w, v[i]);
      assert Qualifies(w[k], w, p);
    }
    if i :| 0 <= i < |w| && Qualifies(w[i], w, p) {
      QualifiesOrderFree(q, p, resolve, w[i]);
      assert w[i] in multiset(v);
      var k := IndexOf(v, w[i]);
      assert Qualifies(v[k], v, q);
      SameCommit(q, p, resolve, accepts);
    }
  }

  lemma SameCommit(q: Quorum, p: Quorum, resolve: Member -> Outcome, accepts: i64 -> bool)
    requires Reordered(q, p) && CentersAgree(q, resolve, accepts)
    ensures forall i, k :: 0 <= i < |Votes(q.members, resolve)| && 0 <= k < |Votes(p.members, resolve)|
                           && Qualifies(Votes(q.members, resolve)[i], Votes(q.members, resolve), q)
                           && Qualifies(Votes(p.members, resolve)[k], Votes(p.members, resolve), p)
                           ==> Commit(Votes(q.members, resolve)[i], accepts) ==
                               Commit(Votes(p.members, resolve)[k], accepts)
  {
    var v, w := Votes(q.members, resolve), Votes(p.members, resolve);
    forall i, k | 0 <= i < |v| && 0 <= k < |w| && Qualifies(v[i], v, q) && Qualifies(w[k], w, p)
      ensures Commit(v[i], accepts) == Commit(w[k], accepts)
    {
      QualifiesOrderFree(q, p, resolve, w[k]);
      assert w[k] in multiset(v);
    }
  }

  /** The order in which member k comes first. */
  function MovedFirst(q: Quorum, k: nat): (r: Quorum)
    requires k < |q.members|
  {
    q.(members := [q.members[k]] + Without(q.members, k))
  }

  lemma MovedFirstReorders(q: Quorum, k: nat)
    requires k < |q.members|
    ensures Reordered(q, MovedFirst(q, k))
  {
    WithoutMultiset(q.members, k);
  }

  lemma FirstVoteWins(q: Quorum, k: nat, resolve: Member -> Outcome, accepts: i64 -> bool)
    requires k < |q.members| && resolve(q.members[k]).Resolved?
    requires WellFormed(q) && PairwiseIndependent(q.members)
    requires Qualifies(resolve(q.members[k]).value, Votes(q.members, resolve), q)
    ensures Decide(MovedFirst(q, k), resolve, accepts) == Commit(resolve(q.members[k]).value, accepts)
  {
    var p, f := MovedFirst(q, k), (m: Member) => Vote(resolve(m));
    MovedFirstReorders(q, k);
    WellFormedOrderFree(q, p);
    IndependenceOrderFree(q.members, p.members);
    QualifiesOrderFree(q, p, resolve, resolve(q.members[k]).value);
    CollectConcat(f, [q.members[k]], Without(q.members, k));
    CollectOne(f, q.members[k]);
    assert Votes(p.members, resolve)[0] == resolve(q.members[k]).value;
  }

  lemma {:induction false} VoteHasMember(members: seq<Member>, resolve: Member -> Outcome, v: i64)
    requires v in Votes(members, resolve)
    ensures exists k :: 0 <= k < |members| && resolve(members[k]) == Resolved(v)
    decreases |members|
  {
    if members != [] {
      if v in Votes(members[1..], resolve) {
        VoteHasMember(members[1..], resolve, v);
        var k :| 0 <= k < |members| - 1 && resolve(members[1..][k]) == Resolved(v);
        assert resolve(members[k + 1]) == Resolved(v);
      } else {
        assert resolve(members[0]) == Resolved(v);
      }
    }
  }

  /**
   A well-formed, independent quorum decides the same way in every member order exactly when all
   its qualifying centers commit to one outcome; otherwise two orders exist that decide differently.
   */
  lemma OrderMattersExactlyWhen(q: Quorum, resolve: Member -> Outcome, accepts: i64 -> bool)
    requires WellFormed(q) && PairwiseIndependent(q.members)
    ensures (forall p :: Reordered(q, p) ==> Decide(p, resolve, accepts) == Decide(q, resolve, accepts))
       <==> CentersAgree(q, resolve, accepts)
  {
    if CentersAgree(q, resolve, accepts) {
      forall p | Reordered(q, p) ensures Decide(p, resolve, accepts) == Decide(q, resolve, accepts) {
        AgreeingCentersFixOutcome(q, p, resolve, accepts);
      }
    } else {
      var votes := Votes(q.members, resolve);
      var a, b :| a in votes && b in votes && Qualifies(a, votes, q) && Qualifies(b, votes, q)
                  && Commit(a, accepts) != Commit(b, accepts);
      VoteHasMember(q.members, resolve, a);
      VoteHasMember(q.members, resolve, b);
      var i :| 0 <= i < |q.members| && resolve(q.members[i]) == Resolved(a);
      var j :| 0 <= j < |q.members| && resolve(q.members[j]) == Resolved(b);
      FirstVoteWins(q, i, resolve, accepts);
      FirstVoteWins(q, j, resolve, accepts);
      MovedFirstReorders(q, i);
      MovedFirstReorders(q, j);
    }
  }

  // Four independent vtable anchors that vote 1, 1, 2, 2, in two orders.

  function VtableMember(k: u8): (m: Member)
  {
    Ref(k, VtableIdentity([k]))
  }

  function HalfAndHalf(m: Member): (o: Outcome)
  {
    Resolved(if m.Ref? && m.id <= 2 then 1 else 2)
  }

  /** Two of the four must agree exactly. */
  function TwoOf(a: u8, b: u8, c: u8, d: u8): (q: Quorum)
  {
    Quorum.Quorum([VtableMember(a), VtableMember(b), VtableMember(c), VtableMember(d)], 2, ExactValue, 0)
  }

  lemma VtableMembersIndependent(j: u8, k: u8)
    requires j != k
    ensures Independent(VtableMember(j), VtableMember(k))
  {
    var x, y := Stream([Byte(3), Run([j])]), Stream([Byte(3), Run([k])]);
    var head := [3] + Fnv.LittleEndian(1, 8);
    VtableStream(j);
    VtableStream(k);
    assert Fnv.DifferOnlyAt(head + [j], head + [k], 9);
    Fnv.OneByteEditChangesHash(Fnv.OFFSET_BASIS, x, y, 9);
    assert Atoms(VtableIdentity([j])) == [Atom(TypeNamed([j]))];
    assert Atoms(VtableIdentity([k])) == [Atom(TypeNamed([k]))];
  }

  lemma VtableStream(j: u8)
    ensures Stream([Byte(3), Run([j])]) == [3] + Fnv.LittleEndian(1, 8) + [j]
  {
    var items := [Byte(3), Run([j])];
    assert items[1..] == [Run([j])] && items[1..][1..] == [];
    assert Stream(items[1..]) == Fnv.LittleEndian(1, 8) + [j] + Stream([]);
  }

  lemma VotesOfFour(a: Member, b: Member, c: Member, d: Member, resolve: Member -> Outcome)
    requires resolve(a).Resolved? && resolve(b).Resolved? && resolve(c).Resolved? && resolve(d).Resolved?
    ensures Votes([a, b, c, d], resolve) == [resolve(a).value, resolve(b).value, resolve(c).value, resolve(d).value]
  {
    var f := (m: Member) => Vote(resolve(m));
    assert [a, b, c, d] == [a] + ([b] + ([c] + [d]));
    CollectConcat(f, [a], [b] + ([c] + [d]));
    CollectConcat(f, [b], [c] + [d]);
    CollectConcat(f, [c], [d]);
    CollectOne(f, a);
    CollectOne(f, b);
    CollectOne(f, c);
    CollectOne(f, d);
  }

  lemma TwoOfFour(x: i64, y: i64)
    requires x != y
    ensures Agreeing(x, [x, x, y, y], ExactValue, 0) == 2
  {
    assert [x, x, y, y] == [x] + ([x] + ([y] + [y]));
    AgreeingConcat(x, [x], [x] + ([y] + [y]), ExactValue, 0);
    AgreeingConcat(x, [x], [y] + [y], ExactValue, 0);
    AgreeingConcat(x, [y], [y], ExactValue, 0);
    assert Agreeing(x, [x], ExactValue, 0) == 1 && Agreeing(x, [y], ExactValue, 0) == 0;
  }

  lemma FirstPairWins(a: u8, b: u8, c: u8, d: u8, x: i64, y: i64, accepts: i64 -> bool)
    requires a != b && a != c && a != d && b != c && b != d && c != d && x != y && accepts(x)
    requires HalfAndHalf(VtableMember(a)) == HalfAndHalf(VtableMember(b)) == Resolved(x)
    requires HalfAndHalf(VtableMember(c)) == HalfAndHalf(VtableMember(d)) == Resolved(y)
    ensures WellFormed(TwoOf(a, b, c, d)) && PairwiseIndependent(TwoOf(a, b, c, d).members)
    ensures Decide(TwoOf(a, b, c, d), HalfAndHalf, accepts) == Resolved(x)
  {
    var q := TwoOf(a, b, c, d);
    var ids := [a, b, c, d];
    forall i, j | 0 <= i < j < 4 ensures Independent(q.members[i], q.members[j]) {
      VtableMembersIndependent(ids[i], ids[j]);
    }
    VotesOfFour(VtableMember(a), VtableMember(b), VtableMember(c), VtableMember(d), HalfAndHalf);
    TwoOfFour(x, y);
  }

  lemma PairsSwapped(a: u8, b: u8, c: u8, d: u8)
    ensures Reordered(TwoOf(a, b, c, d), TwoOf(c, d, a, b))
  {
    var x, y := [VtableMember(a), VtableMember(b)], [VtableMember(c), VtableMember(d)];
    assert TwoOf(a, b, c, d).members == x + y && TwoOf(c, d, a, b).members == y + x;
  }

  /** One well-formed quorum of independent members that decides differently in two orders. */
  lemma OrderCanDecide(accepts: i64 -> bool) returns (q: Quorum, p: Quorum)
    requires accepts(1) && accepts(2)
    ensures q == TwoOf(1, 2, 3, 4) && p == TwoOf(3, 4, 1, 2)
    ensures WellFormed(q) && PairwiseIndependent(q.members) && Reordered(q, p)
    ensures Decide(q, HalfAndHalf, accepts) == Resolved(1)
    ensures Decide(p, HalfAndHalf, accepts) == Resolved(2)
  {
    var a: u8, b: u8, c: u8, d: u8 := 1, 2, 3, 4;
    q, p := TwoOf(a, b, c, d), TwoOf(c, d, a, b);
    FirstPairWins(a, b, c, d, 1, 2, accepts);
    FirstPairWins(c, d, a, b, 2, 1, accepts);
    PairsSwapped(a, b, c, d);
  }

  /** Two clusters that together outnumber the votes share a vote. */
  lemma {:induction false} ClustersOverlap(a: i64, b: i64, votes: seq<i64>, policy: Match, tolerance: i64)
    requires Agreeing(a, votes, policy, tolerance) + Agreeing(b, votes, policy, tolerance) > |votes|
    ensures exists i ::
              0 <= i < |votes| && Agree(a, votes[i], policy, tolerance) && Agree(b, votes[i], policy, tolerance)
    decreases |votes|
  {
    if votes != [] {
      if Agree(a, votes[0], policy, tolerance) && Agree(b, votes[0], policy, tolerance) {
      } else {
        ClustersOverlap(a, b, votes[1..], policy, tolerance);
        var i :| 0 <= i < |votes| - 1 && Agree(a, votes[1..][i], policy, tolerance)
                 && Agree(b, votes[1..][i], policy, tolerance);
        assert Agree(a, votes[i + 1], policy, tolerance);
      }
    }
  }

  lemma {:induction false} FewVotes(members: seq<Member>, resolve: Member -> Outcome)
    ensures |Votes(members, resolve)| <= |members|
    decreases |members|
  {
    if members != [] {
      FewVotes(members[1..], resolve);
    }
  }

  /** Under a strict majority, two qualifying centers are equal, or within twice the tolerance. */
  lemma MajorityCentersAreClose(q: Quorum, resolve: Member -> Outcome, a: i64, b: i64)
    requires 2 * Needed(q) > |q.members|
    requires Qualifies(a, Votes(q.members, resolve), q) && Qualifies(b, Votes(q.members, resolve), q)
    ensures if q.policy.ExactValue? then a == b else q.tolerance >= 0 && Distance(a, b) <= 2 * q.tolerance
  {
    var votes := Votes(q.members, resolve);
    FewVotes(q.members, resolve);
    ClustersOverlap(a, b, votes, q.policy, q.tolerance);
    var i :| 0 <= i < |votes| && Agree(a, votes[i], q.policy, q.tolerance) && Agree(b, votes[i], q.policy, q.tolerance);
    CloseThroughCommonVote(a, b, votes[i], q.policy, q.tolerance);
  }

  lemma CloseThroughCommonVote(a: i64, b: i64, v: i64, policy: Match, tolerance: i64)
    requires Agree(a, v, policy, tolerance) && Agree(b, v, policy, tolerance)
    ensures if policy.ExactValue? then a == b else tolerance >= 0 && Distance(a, b) <= 2 * tolerance
  {
    AgreeIsDistance(a, v, policy, tolerance);
    AgreeIsDistance(b, v, policy, tolerance);
  }

  /** A strict-majority exact quorum: same status and value in every member order. */
  lemma MajorityExactIsOrderFree(q: Quorum, p: Quorum, resolve: Member -> Outcome, accepts: i64 -> bool)
    requires Reordered(q, p) && q.policy.ExactValue? && 2 * Needed(q) > |q.members|
    ensures Decide(q, resolve, accepts) == Decide(p, resolve, accepts)
  {
    forall a, b | a in Votes(q.members, resolve) && b in Votes(q.members, resolve)
                  && Qualifies(a, Votes(q.members, resolve), q) && Qualifies(b, Votes(q.members, resolve), q)
      ensures a == b
    {
      MajorityCentersAreClose(q, resolve, a, b);
    }
    AgreeingCentersFixOutcome(q, p, resolve, accepts);
  }

  /** A strict-majority tolerance quorum: any two orders that resolve are within twice the tolerance. */
  lemma MajorityToleranceIsBounded(q: Quorum, p: Quorum, resolve: Member -> Outcome, accepts: i64 -> bool)
    requires Reordered(q, p) && q.policy.WithinTolerance? && 2 * Needed(q) > |q.members|
    requires Decide(q, resolve, accepts).Resolved? && Decide(p, resolve, accepts).Resolved?
    ensures Distance(Decide(q, resolve, accepts).value, Decide(p, resolve, accepts).value) <= 2 * q.tolerance
  {
    FirstCenterQualifies(Votes(q.members, resolve), 0, q, accepts);
    FirstCenterQualifies(Votes(p.members, resolve), 0, p, accepts);
    var a, b := Decide(q, resolve, accepts).value, Decide(p, resolve, accepts).value;
    QualifiesOrderFree(q, p, resolve, b);
    MajorityCentersAreClose(q, resolve, a, b);
  }
}
