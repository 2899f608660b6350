/**
 The drift fingerprint of a quorum: its members' evidence values folded in ascending order, found by
 repeated selection instead of a sort.
 */
module Fingerprint {
  import opened MachineInts
  import opened Evidence
  import opened Permutations
  import Fnv

  // ---------------------------------------------------------------------------------------
  // Quorum fingerprint
  // ---------------------------------------------------------------------------------------

  /** A quorum member reference; a null member still contributes a fixed sentinel. */
  datatype Member = Null | Sub(anchor: Anchor)

  type Members = s: seq<Member> | |s| < TWO_64

  const NULL_SUB_ANCHOR: u64 := 0
  const QUORUM_KIND: u8 := 6

  function MemberEvidence(m: Member): (r: u64)
  {
    if m.Null? then NULL_SUB_ANCHOR else EvidenceHash(m.anchor)
  }

  function OneEvidence(m: Member): (r: seq<u64>)
  {
    [MemberEvidence(m)]
  }

  function EvidenceValues(members: seq<Member>): (r: seq<u64>)
  {
    Collect(OneEvidence, members)
  }

  predicate EvidenceOf<M>(members: seq<M>, evidence: M -> u64, ev: seq<u64>)
  {
    |ev| == |members| && forall i :: 0 <= i < |members| ==> ev[i] == evidence(members[i])
  }

  lemma {:induction false} EvidenceValuesAt(members: seq<Member>)
    ensures EvidenceOf(members, MemberEvidence, EvidenceValues(members))
    decreases |members|
  {
    if members != [] {
      EvidenceValuesAt(members[1..]);
    }
  }

  /** Each word, low byte first, one after the other. */
  function Words(values: seq<u64>): (r: seq<u8>)
  {
    if values == [] then [] else Fnv.LittleEndian(values[0], 8) + Words(values[1..])
  }

  lemma {:induction false} WordsConcat(s: seq<u64>, t: seq<u64>)
    ensures Words(s + t) == Words(s) + Words(t)
    decreases |s|
  {
    if s == [] {
      assert s + t == t;
    } else {
      assert (s + t)[0] == s[0] && (s + t)[1..] == s[1..] + t;
      WordsConcat(s[1..], t);
    }
  }

  function EffectiveThreshold(count: u64, threshold: u64): (r: u64)
  {
    if threshold == 0 then count else threshold
  }

  /** The quorum's own contract fields, folded after the members. */
  function PolicyBytes(count: u64, threshold: u64, matchCode: u8, tolerance: i64): (r: seq<u8>)
  {
    Fnv.LittleEndian(EffectiveThreshold(count, threshold), 8) + [matchCode] + Fnv.SignedBytes(tolerance)
  }

  /** What the fingerprint of a quorum covers: its members' evidence, sorted, and its policy. */
  function QuorumBytes(members: Members, threshold: u64, matchCode: u8, tolerance: i64): (r: seq<u8>)
  {
    [QUORUM_KIND] + Fnv.LittleEndian(|members|, 8)
    + Words(Ascending(EvidenceValues(members)))
    + PolicyBytes(|members|, threshold, matchCode, tolerance)
  }

  function QuorumHash(members: Members, threshold: u64, matchCode: u8, tolerance: i64): (r: u64)
  {
    Fnv.Fold(Fnv.OFFSET_BASIS, QuorumBytes(members, threshold, matchCode, tolerance))
  }

  lemma {:induction false} WordsUnambiguous(s: seq<u64>, t: seq<u64>)
    requires |s| == |t| && Words(s) == Words(t)
    ensures s == t
    decreases |s|
  {
    if s != [] {
      SplitConcat(Fnv.LittleEndian(s[0], 8), Words(s[1..]), Fnv.LittleEndian(t[0], 8), Words(t[1..]));
      WordUnambiguous(s[0], t[0]);
      WordsUnambiguous(s[1..], t[1..]);
      assert s == [s[0]] + s[1..] && t == [t[0]] + t[1..];
    }
  }

  lemma {:induction false} WordsLength(s: seq<u64>)
    ensures |Words(s)| == 8 * |s|
    decreases |s|
  {
    if s != [] {
      WordsLength(s[1..]);
    }
  }

  lemma PolicyUnambiguous(count: u64, t: u64, u: u64, x: u8, y: u8, a: i64, b: i64)
    requires PolicyBytes(count, t, x, a) == PolicyBytes(count, u, y, b)
    ensures (if t == 0 then count else t) == (if u == 0 then count else u) && x == y && a == b
  {
    var p, q := EffectiveThreshold(count, t), EffectiveThreshold(count, u);
    SplitConcat(Fnv.LittleEndian(p, 8) + [x], Fnv.SignedBytes(a), Fnv.LittleEndian(q, 8) + [y], Fnv.SignedBytes(b));
    SplitConcat(Fnv.LittleEndian(p, 8), [x], Fnv.LittleEndian(q, 8), [y]);
    WordUnambiguous(p, q);
    WordUnambiguous(Wrap64(a), Wrap64(b));
    SignedUnambiguous(a, b);
    assert [x][0] == [y][0];
  }

  lemma SortedAlike(x: seq<u64>, y: seq<u64>)
    ensures Ascending(x) == Ascending(y) <==> multiset(x) == multiset(y)
  {
    AscendingSorts(x);
    AscendingSorts(y);
    if multiset(x) == multiset(y) {
      SortedIsUnique(Ascending(x), Ascending(y));
    }
  }

  lemma SameParts(m: Members, n: Members, t: u64, u: u64, x: u8, y: u8, a: i64, b: i64)
    requires QuorumBytes(m, t, x, a) == QuorumBytes(n, u, y, b)
    ensures |m| == |n| && Words(Ascending(EvidenceValues(m))) == Words(Ascending(EvidenceValues(n)))
    ensures PolicyBytes(|m|, t, x, a) == PolicyBytes(|n|, u, y, b)
  {
    var v, w := Words(Ascending(EvidenceValues(m))), Words(Ascending(EvidenceValues(n)));
    var p, q := PolicyBytes(|m|, t, x, a), PolicyBytes(|n|, u, y, b);
    var k, l := [QUORUM_KIND] + Fnv.LittleEndian(|m|, 8), [QUORUM_KIND] + Fnv.LittleEndian(|n|, 8);
    Reassociate(k, v, p);
    Reassociate(l, w, q);
    SplitConcat(k, v + p, l, w + q);
    SplitConcat([QUORUM_KIND], Fnv.LittleEndian(|m|, 8), [QUORUM_KIND], Fnv.LittleEndian(|n|, 8));
    WordUnambiguous(|m|, |n|);
    EvidenceLength(m);
    EvidenceLength(n);
    SplitConcat(v, p, w, q);
  }

  lemma EvidenceLength(members: Members)
    ensures |Ascending(EvidenceValues(members))| == |members|
    ensures |Words(Ascending(EvidenceValues(members)))| == 8 * |members|
  {
    EvidenceValuesAt(members);
    AscendingSorts(EvidenceValues(members));
    WordsLength(Ascending(EvidenceValues(members)));
    assert |multiset(EvidenceValues(members))| == |multiset(Ascending(EvidenceValues(members)))|;
  }

  /**
   Two quorums fold the same bytes exactly when they have as many members, with the same evidence in any order, ask for
   the same number of votes, and agree on the match policy and the tolerance.
   */
  lemma QuorumUnambiguous(m: Members, n: Members, t: u64, u: u64, x: u8, y: u8, a: i64, b: i64)
    ensures QuorumBytes(m, t, x, a) == QuorumBytes(n, u, y, b) <==>
            && |m| == |n| && multiset(EvidenceValues(m)) == multiset(EvidenceValues(n))
            && (if t == 0 then |m| else t) == (if u == 0 then |n| else u)
            && x == y && a == b
  {
    SortedAlike(EvidenceValues(m), EvidenceValues(n));
    if QuorumBytes(m, t, x, a) == QuorumBytes(n, u, y, b) {
      SameParts(m, n, t, u, x, y, a, b);
      PolicyUnambiguous(|m|, t, u, x, y, a, b);
      EvidenceLength(m);
      EvidenceLength(n);
      WordsUnambiguous(Ascending(EvidenceValues(m)), Ascending(EvidenceValues(n)));
    }
  }

  /** Reordering the members of a quorum never changes its fingerprint. */
  lemma QuorumHashOrderFree(m: Members, n: Members, threshold: u64, matchCode: u8, tolerance: i64)
    requires multiset(m) == multiset(n)
    ensures QuorumHash(m, threshold, matchCode, tolerance) == QuorumHash(n, threshold, matchCode, tolerance)
  {
    CollectPermutes(OneEvidence, m, n);
    AscendingSorts(EvidenceValues(m));
    AscendingSorts(EvidenceValues(n));
    SortedIsUnique(Ascending(EvidenceValues(m)), Ascending(EvidenceValues(n)));
    assert |multiset(m)| == |multiset(n)|;
  }

  /** In a sorted sequence the copies of a value first met at `e` are exactly the next ones. */
  lemma RunOfEqual(s: seq<u64>, e: nat)
    requires Sorted(s) && e < |s|
    requires forall i :: 0 <= i < e ==> s[i] < s[e]
    ensures 0 < multiset(s)[s[e]] <= |s| - e
    ensures forall i :: e <= i < e + multiset(s)[s[e]] ==> s[i] == s[e]
    ensures forall i :: e + multiset(s)[s[e]] <= i < |s| ==> s[i] > s[e]
  {
    var v, f := s[e], e;
    assert v !in s[..e];
    while f < |s| && s[f] == v
      invariant e <= f <= |s|
      invariant forall i :: e <= i < f ==> s[i] == v
      invariant multiset(s[..f])[v] == f - e
    {
      CountNext(s, f, v);
      f := f + 1;
    }
    assert v !in s[f..];
    assert s == s[..f] + s[f..];
  }

  /** The next evidence value above everything already emitted, if any is left. */
  method NextEvidence<M>(members: seq<M>, evidence: M -> u64, ghost ev: seq<u64>, havePrevious: bool, previous: u64)
    returns (found: bool, next: u64)
    requires EvidenceOf(members, evidence, ev)
    ensures found <==> exists j :: 0 <= j < |ev| && Left(ev[j], havePrevious, previous)
    ensures found ==> next in ev && Left(next, havePrevious, previous)
    ensures found ==> forall j :: 0 <= j < |ev| && Left(ev[j], havePrevious, previous) ==> next <= ev[j]
  {
    found, next := false, 0;
    for i := 0 to |members|
      invariant found <==> exists j :: 0 <= j < i && Left(ev[j], havePrevious, previous)
      invariant found ==> next in ev && Left(next, havePrevious, previous)
      invariant found ==> forall j :: 0 <= j < i && Left(ev[j], havePrevious, previous) ==> next <= ev[j]
    {
      var value := evidence(members[i]);
      if havePrevious && value <= previous {
        continue;
      }
      assert Left(ev[i], havePrevious, previous);
      if !found || value < next {
        next := value;
        found := true;
      }
    }
  }

  /** Still to be emitted: nothing was emitted yet, or the value is above the last one emitted. */
  predicate Left(value: u64, havePrevious: bool, previous: u64)
  {
    !havePrevious || value > previous
  }

  method CountEvidence<M>(members: seq<M>, evidence: M -> u64, ghost ev: seq<u64>, value: u64) returns (count: nat)
    requires EvidenceOf(members, evidence, ev)
    ensures count == multiset(ev)[value]
  {
    count := 0;
    for i := 0 to |members|
      invariant count == multiset(ev[..i])[value]
    {
      CountNext(ev, i, value);
      if evidence(members[i]) == value {
        count := count + 1;
      }
    }
    assert ev[..|members|] == ev;
  }

  function Repeated(value: u64, count: nat): (r: seq<u64>)
    ensures |r| == count && forall i :: 0 <= i < count ==> r[i] == value
  {
    seq(count, i => value)
  }

  lemma FoldLast(hash: u64, values: seq<u64>, value: u64)
    ensures Fnv.Fold(hash, Words(values + [value]))
            == Fnv.Fold(Fnv.Fold(hash, Words(values)), Fnv.LittleEndian(value, 8))
  {
    WordsConcat(values, [value]);
    assert [value][1..] == [];
    assert Words([value]) == Fnv.LittleEndian(value, 8);
    Fnv.FoldConcat(hash, Words(values), Fnv.LittleEndian(value, 8));
  }

  method FoldRepeated(hash: u64, value: u64, count: nat) returns (r: u64)
    ensures r == Fnv.Fold(hash, Words(Repeated(value, count)))
  {
    r := hash;
    for i := 0 to count
      invariant r == Fnv.Fold(hash, Words(Repeated(value, i)))
    {
      FoldLast(hash, Repeated(value, i), value);
      assert Repeated(value, i + 1) == Repeated(value, i) + [value];
      r := Fnv.FoldInt(r, value, 8);
    }
  }

  /** Where the emission loop stands: exactly the values up to the last one emitted are folded. */
  predicate Emitted(sorted: seq<u64>, emitted: nat, havePrevious: bool, previous: u64)
  {
    && emitted <= |sorted|
    && (havePrevious <==> emitted > 0)
    && forall i :: 0 <= i < |sorted| ==> (i < emitted <==> !Left(sorted[i], havePrevious, previous))
  }

  /** While members remain, the smallest value left is the first one of the sorted evidence not yet folded. */
  lemma NextIsFirstLeft(ev: seq<u64>, emitted: nat, havePrevious: bool, previous: u64, next: u64)
    requires Emitted(Ascending(ev), emitted, havePrevious, previous) && emitted < |Ascending(ev)|
    requires next in ev && Left(next, havePrevious, previous)
    requires forall j :: 0 <= j < |ev| && Left(ev[j], havePrevious, previous) ==> next <= ev[j]
    ensures next == Ascending(ev)[emitted]
    ensures forall i :: 0 <= i < emitted ==> Ascending(ev)[i] < next
  {
    var sorted := Ascending(ev);
    AscendingSorts(ev);
    var j := IndexOf(ev, sorted[emitted]);
    var k := IndexOf(sorted, next);
    assert emitted <= k;
  }

  lemma SomethingLeft(ev: seq<u64>, emitted: nat, havePrevious: bool, previous: u64)
    requires Emitted(Ascending(ev), emitted, havePrevious, previous) && emitted < |Ascending(ev)|
    ensures exists j :: 0 <= j < |ev| && Left(ev[j], havePrevious, previous)
  {
    AscendingSorts(ev);
    var j := IndexOf(ev, Ascending(ev)[emitted]);
    assert Left(ev[j], havePrevious, previous);
  }

  /** One pass folds the run of duplicates of the next value and leaves the larger values. */
  lemma PassFolds(ev: seq<u64>, emitted: nat, havePrevious: bool, previous: u64, next: u64)
    requires Emitted(Ascending(ev), emitted, havePrevious, previous) && emitted < |Ascending(ev)|
    requires next == Ascending(ev)[emitted]
    requires forall i :: 0 <= i < emitted ==> Ascending(ev)[i] < next
    ensures 0 < multiset(ev)[next] <= |Ascending(ev)| - emitted
    ensures Emitted(Ascending(ev), emitted + multiset(ev)[next], true, next)
    ensures Ascending(ev)[..emitted + multiset(ev)[next]]
            == Ascending(ev)[..emitted] + Repeated(next, multiset(ev)[next])
  {
    AscendingSorts(ev);
    RunOfEqual(Ascending(ev), emitted);
  }

  /**
   The allocation-free loop: each pass finds the next larger evidence value and folds all its
   duplicates. It ends with every member folded, as if the evidence had been sorted first.
   */
  method QuorumFingerprint(members: Members, threshold: u64, matchCode: u8, tolerance: i64)
    returns (hash: u64)
    ensures hash == QuorumHash(members, threshold, matchCode, tolerance)
  {
    hash := Fnv.Step(Fnv.OFFSET_BASIS, QUORUM_KIND);
    hash := Fnv.FoldInt(hash, |members|, 8);
    EvidenceValuesAt(members);
    hash := FoldMembers(members, MemberEvidence, EvidenceValues(members), hash);
    hash := Fnv.FoldInt(hash, EffectiveThreshold(|members|, threshold), 8);
    hash := Fnv.Step(hash, matchCode);
    hash := Fnv.FoldInt(hash, Wrap64(tolerance), 8);
    FoldPieces(members, threshold, matchCode, tolerance);
  }

  method FoldMembers<M>(members: seq<M>, evidence: M -> u64, ghost ev: seq<u64>, start: u64) returns (hash: u64)
    requires EvidenceOf(members, evidence, ev)
    ensures hash == Fnv.Fold(start, Words(Ascending(ev)))
  {
    AscendingSorts(ev);
    hash := start;
    var previous: u64, havePrevious, emitted := 0, false, 0;
    while emitted < |members|
      invariant Emitted(Ascending(ev), emitted, havePrevious, previous)
      invariant hash == Fnv.Fold(start, Words(Ascending(ev)[..emitted]))
    {
      var found, next := NextEvidence(members, evidence, ev, havePrevious, previous);
      SomethingLeft(ev, emitted, havePrevious, previous);
      if !found {
        break;
      }
      NextIsFirstLeft(ev, emitted, havePrevious, previous, next);
      PassFolds(ev, emitted, havePrevious, previous, next);
      var duplicates := CountEvidence(members, evidence, ev, next);
      hash := FoldRepeated(hash, next, duplicates);
      FoldMore(start, Ascending(ev)[..emitted], Repeated(next, duplicates));
      previous, havePrevious, emitted := next, true, emitted + duplicates;
    }
    assert Ascending(ev)[..emitted] == Ascending(ev);
  }

  lemma FoldMore(start: u64, done: seq<u64>, more: seq<u64>)
    ensures Fnv.Fold(start, Words(done + more)) == Fnv.Fold(Fnv.Fold(start, Words(done)), Words(more))
  {
    WordsConcat(done, more);
    Fnv.FoldConcat(start, Words(done), Words(more));
  }

  lemma FoldPieces(members: Members, threshold: u64, matchCode: u8, tolerance: i64)
    ensures QuorumHash(members, threshold, matchCode, tolerance)
         == Fnv.Fold(Fnv.Step(Fnv.Fold(Fnv.Fold(Fnv.Fold(Fnv.Step(Fnv.OFFSET_BASIS, QUORUM_KIND),
                                                         Fnv.LittleEndian(|members|, 8)),
                                                Words(Ascending(EvidenceValues(members)))),
                                       Fnv.LittleEndian(EffectiveThreshold(|members|, threshold), 8)),
                              matchCode),
                     Fnv.SignedBytes(tolerance))
  {
    var kind, count := [QUORUM_KIND], Fnv.LittleEndian(|members|, 8);
    var words := Words(Ascending(EvidenceValues(members)));
    var limit := Fnv.LittleEndian(EffectiveThreshold(|members|, threshold), 8);
    var gap := Fnv.SignedBytes(tolerance);
    Fnv.FoldConcat(Fnv.OFFSET_BASIS, kind + count + words, limit + [matchCode] + gap);
    Fnv.FoldConcat(Fnv.OFFSET_BASIS, kind + count, words);
    Fnv.FoldConcat(Fnv.OFFSET_BASIS, kind, count);
    FoldOne(Fnv.OFFSET_BASIS, QUORUM_KIND);
    var h := Fnv.Fold(Fnv.OFFSET_BASIS, kind + count + words);
    Fnv.FoldConcat(h, limit + [matchCode], gap);
    Fnv.FoldConcat(h, limit, [matchCode]);
    FoldOne(Fnv.Fold(h, limit), matchCode);
  }

  lemma FoldOne(h: u64, b: u8)
    ensures Fnv.Fold(h, [b]) == Fnv.Step(h, b)
  {
    assert [b][1..] == [];
  }
}
