/**
 The signature contract: locate evidence plus the binding a consumer reads it with, the captured
 baseline that detects an edit to either, and the gate that decides which signatures to trust.
 */
module DriftGate {
  import opened MachineInts
  import opened Evidence
  import Fingerprint
  import Fnv

  datatype BindingKind = Address | PointerChain | MidHookRegister | VmtMethod {
    function Code(): (r: u8) {
      match this case Address => 0 case PointerChain => 1 case MidHookRegister => 2 case VmtMethod => 3
    }
  }

  type Offsets = s: seq<i64> | |s| < TWO_64

  datatype Binding = Binding(
    kind: BindingKind,
    offsets: Offsets,
    valueWidth: u8,
    readRegister: u8,
    xmmIndex: u8,
    vmtIndex: u64)

  function OffsetBytes(offsets: seq<i64>): (r: seq<u8>)
    ensures |r| == 8 * |offsets|
  {
    if offsets == [] then [] else Fnv.SignedBytes(offsets[0]) + OffsetBytes(offsets[1..])
  }

  /** Everything before the three single-byte fields. */
  function HeadBytes(b: Binding): (r: seq<u8>)
    ensures |r| == 9 + 8 * |b.offsets|
  {
    [b.kind.Code()] + Fnv.LittleEndian(|b.offsets|, 8) + OffsetBytes(b.offsets)
  }

  /** Every field of the binding, active or not, so that any edit to it reaches the stream. */
  function BindingBytes(b: Binding): (r: seq<u8>)
    ensures |r| == 20 + 8 * |b.offsets|
  {
    HeadBytes(b) + [b.valueWidth, b.readRegister, b.xmmIndex] + Fnv.LittleEndian(b.vmtIndex, 8)
  }

  datatype Signature = Signature(name: Bytes, anchor: Anchor, binding: Binding, expected: u64)

  function ContractBytes(sig: Signature): (r: seq<u8>)
  {
    EvidenceBytes(sig.anchor) + BindingBytes(sig.binding)
  }

  /** The fingerprint of a signature: its binding folded onto its anchor's fingerprint. */
  function CurrentFingerprint(sig: Signature): (r: u64)
  {
    Fnv.Fold(EvidenceHash(sig.anchor), BindingBytes(sig.binding))
  }

  lemma FingerprintFoldsContract(sig: Signature)
    ensures CurrentFingerprint(sig) == Fnv.Fold(Fnv.OFFSET_BASIS, ContractBytes(sig))
  {
    Fnv.FoldConcat(Fnv.OFFSET_BASIS, EvidenceBytes(sig.anchor), BindingBytes(sig.binding));
  }

  /** The field-by-field loop computes the fold of the binding's bytes. */
  method FoldBinding(hash: u64, b: Binding) returns (r: u64)
    ensures r == Fnv.Fold(hash, BindingBytes(b))
  {
    r := Fnv.Step(hash, b.kind.Code());
    Fingerprint.FoldOne(hash, b.kind.Code());
    r := Fnv.FoldInt(r, |b.offsets|, 8);
    ghost var start := r;
    for i := 0 to |b.offsets|
      invariant r == Fnv.Fold(start, OffsetBytes(b.offsets[..i]))
    {
      r := Fnv.FoldInt(r, Wrap64(b.offsets[i]), 8);
      OffsetsSnoc(b.offsets[..i], b.offsets[i]);
      assert b.offsets[..i + 1] == b.offsets[..i] + [b.offsets[i]];
      Fnv.FoldConcat(start, OffsetBytes(b.offsets[..i]), Fnv.SignedBytes(b.offsets[i]));
    }
    assert b.offsets[..|b.offsets|] == b.offsets;
    r := Fnv.Step(r, b.valueWidth);
    r := Fnv.Step(r, b.readRegister);
    r := Fnv.Step(r, b.xmmIndex);
    r := Fnv.FoldInt(r, b.vmtIndex, 8);
    BindingPieces(hash, b);
  }

  lemma {:induction false} OffsetsSnoc(offsets: seq<i64>, last: i64)
    ensures OffsetBytes(offsets + [last]) == OffsetBytes(offsets) + Fnv.SignedBytes(last)
  {
    if offsets == [] {
      assert [last][1..] == [] && offsets + [last] == [last];
    } else {
      assert (offsets + [last])[0] == offsets[0] && (offsets + [last])[1..] == offsets[1..] + [last];
      OffsetsSnoc(offsets[1..], last);
    }
  }

  lemma BindingPieces(hash: u64, b: Binding)
    ensures Fnv.Fold(hash, BindingBytes(b))
         == Fnv.Fold(Fnv.Step(Fnv.Step(Fnv.Step(
              Fnv.Fold(Fnv.Fold(Fnv.Fold(hash, [b.kind.Code()]), Fnv.LittleEndian(|b.offsets|, 8)),
                       OffsetBytes(b.offsets)),
              b.valueWidth), b.readRegister), b.xmmIndex), Fnv.LittleEndian(b.vmtIndex, 8))
  {
    var mid := [b.valueWidth, b.readRegister, b.xmmIndex];
    Fnv.FoldConcat(hash, HeadBytes(b) + mid, Fnv.LittleEndian(b.vmtIndex, 8));
    Fnv.FoldConcat(hash, HeadBytes(b), mid);
    Fnv.FoldConcat(hash, [b.kind.Code()] + Fnv.LittleEndian(|b.offsets|, 8), OffsetBytes(b.offsets));
    Fnv.FoldConcat(hash, [b.kind.Code()], Fnv.LittleEndian(|b.offsets|, 8));
    Fnv.FoldThree(Fnv.Fold(hash, HeadBytes(b)), b.valueWidth, b.readRegister, b.xmmIndex);
  }

  // ---------------------------------------------------------------------------------------
  // No edit hides: the contract stream determines the whole contract
  // ---------------------------------------------------------------------------------------

  lemma {:induction false} OffsetsUnambiguous(x: seq<i64>, y: seq<i64>)
    requires |x| == |y| && OffsetBytes(x) == OffsetBytes(y)
    ensures x == y
  {
    if x != [] {
      SplitConcat(Fnv.SignedBytes(x[0]), OffsetBytes(x[1..]), Fnv.SignedBytes(y[0]), OffsetBytes(y[1..]));
      WordUnambiguous(Wrap64(x[0]), Wrap64(y[0]));
      SignedUnambiguous(x[0], y[0]);
      OffsetsUnambiguous(x[1..], y[1..]);
      assert x == [x[0]] + x[1..] && y == [y[0]] + y[1..];
    }
  }

  lemma HeadUnambiguous(x: Binding, y: Binding)
    requires HeadBytes(x) == HeadBytes(y)
    ensures x.kind == y.kind && x.offsets == y.offsets
  {
    var cx, cy := Fnv.LittleEndian(|x.offsets|, 8), Fnv.LittleEndian(|y.offsets|, 8);
    SplitConcat([x.kind.Code()] + cx, OffsetBytes(x.offsets), [y.kind.Code()] + cy, OffsetBytes(y.offsets));
    SplitConcat([x.kind.Code()], cx, [y.kind.Code()], cy);
    assert [x.kind.Code()][0] == [y.kind.Code()][0];
    OffsetsUnambiguous(x.offsets, y.offsets);
  }

  lemma BindingUnambiguous(x: Binding, y: Binding)
    requires BindingBytes(x) == BindingBytes(y)
    ensures x == y
  {
    var mx, my := [x.valueWidth, x.readRegister, x.xmmIndex], [y.valueWidth, y.readRegister, y.xmmIndex];
    SplitConcat(HeadBytes(x) + mx, Fnv.LittleEndian(x.vmtIndex, 8), HeadBytes(y) + my, Fnv.LittleEndian(y.vmtIndex, 8));
    SplitConcat(HeadBytes(x), mx, HeadBytes(y), my);
    assert mx[0] == my[0] && mx[1] == my[1] && mx[2] == my[2];
    WordUnambiguous(x.vmtIndex, y.vmtIndex);
    HeadUnambiguous(x, y);
  }

  lemma BindingLength(b: Binding)
    ensures |BindingBytes(b)| % 8 == 4
  {
    assert |BindingBytes(b)| == 4 + 8 * (2 + |b.offsets|);
  }

  /** Evidence and binding never run into one another: the stream determines both. */
  lemma ContractUnambiguous(s: Signature, t: Signature)
    ensures ContractBytes(s) == ContractBytes(t) <==> s.anchor == t.anchor && s.binding == t.binding
  {
    if ContractBytes(s) == ContractBytes(t) {
      BindingLength(s.binding);
      BindingLength(t.binding);
      EvidencePrefix(s.anchor, t.anchor, BindingBytes(s.binding), BindingBytes(t.binding));
      BindingUnambiguous(s.binding, t.binding);
    }
  }

  // ---------------------------------------------------------------------------------------
  // The drift verdict
  // ---------------------------------------------------------------------------------------

  datatype FingerprintState = NoBaseline | Match | Drifted

  function State(sig: Signature): (r: FingerprintState)
  {
    if sig.expected == 0 then NoBaseline
    else if CurrentFingerprint(sig) == sig.expected then Match
    else Drifted
  }

  /** A signature whose baseline was captured from its present contract. */
  function Recaptured(sig: Signature): (r: Signature)
  {
    sig.(expected := CurrentFingerprint(sig))
  }

  /** After a capture, a one-byte edit anywhere in the contract is Drifted unless the capture was 0. */
  lemma OneByteEditDrifts(captured: Signature, edited: Signature, at: nat)
    requires captured == Recaptured(captured) && edited.expected == captured.expected
    requires Fnv.DifferOnlyAt(ContractBytes(captured), ContractBytes(edited), at)
    ensures State(edited) == (if captured.expected == 0 then NoBaseline else Drifted)
    ensures captured.expected != 0 ==> State(captured) == Match
  {
    FingerprintFoldsContract(captured);
    FingerprintFoldsContract(edited);
    Fnv.OneByteEditChangesHash(Fnv.OFFSET_BASIS, ContractBytes(captured), ContractBytes(edited), at);
  }

  /** Any edit within four adjacent bytes of a captured contract is seen: it drifts unless nothing changed. */
  lemma LocalEditDrifts(captured: Signature, edited: Signature, at: nat)
    requires captured == Recaptured(captured) && captured.expected != 0 && edited.expected == captured.expected
    requires Fnv.AlikeOutsideFour(ContractBytes(captured), ContractBytes(edited), at)
    ensures State(edited) ==
            if edited.anchor == captured.anchor && edited.binding == captured.binding then Match else Drifted
  {
    FingerprintFoldsContract(captured);
    FingerprintFoldsContract(edited);
    Fnv.FourByteEditChangesHash(Fnv.OFFSET_BASIS, ContractBytes(captured), ContractBytes(edited), at);
    ContractUnambiguous(captured, edited);
  }

  /** Replacing one byte between a fixed head and a fixed tail is a one-byte edit. */
  lemma EditBetween(captured: Signature, edited: Signature, p: seq<u8>, x: u8, y: u8, q: seq<u8>)
    requires captured == Recaptured(captured) && captured.expected != 0
    requires edited.expected == captured.expected && x != y
    requires ContractBytes(captured) == p + [x] + q
    requires ContractBytes(edited) == p + [y] + q
    ensures State(edited) == Drifted
  {
    OneByteEditDrifts(captured, edited, |p|);
  }

  /** Evidence and binding bytes with a chosen binding byte singled out. */
  lemma ContractAround(sig: Signature)
    ensures ContractBytes(sig) == EvidenceBytes(sig.anchor) + [sig.binding.kind.Code()]
      + (Fnv.LittleEndian(|sig.binding.offsets|, 8) + OffsetBytes(sig.binding.offsets)
         + [sig.binding.valueWidth, sig.binding.readRegister, sig.binding.xmmIndex]
         + Fnv.LittleEndian(sig.binding.vmtIndex, 8))
    ensures ContractBytes(sig) == EvidenceBytes(sig.anchor) + HeadBytes(sig.binding) + [sig.binding.valueWidth]
      + ([sig.binding.readRegister, sig.binding.xmmIndex] + Fnv.LittleEndian(sig.binding.vmtIndex, 8))
    ensures ContractBytes(sig) == (EvidenceBytes(sig.anchor) + HeadBytes(sig.binding) + [sig.binding.valueWidth])
      + [sig.binding.readRegister] + ([sig.binding.xmmIndex] + Fnv.LittleEndian(sig.binding.vmtIndex, 8))
    ensures ContractBytes(sig) == (EvidenceBytes(sig.anchor) + HeadBytes(sig.binding)
      + [sig.binding.valueWidth, sig.binding.readRegister]) + [sig.binding.xmmIndex]
        + Fnv.LittleEndian(sig.binding.vmtIndex, 8)
  {
    var b := sig.binding;
    Regroup(EvidenceBytes(sig.anchor), b.kind.Code(), Fnv.LittleEndian(|b.offsets|, 8), OffsetBytes(b.offsets),
            b.valueWidth, b.readRegister, b.xmmIndex, Fnv.LittleEndian(b.vmtIndex, 8));
  }

  lemma Regroup(e: seq<u8>, k: u8, c: seq<u8>, o: seq<u8>, w: u8, r: u8, x: u8, t: seq<u8>)
    ensures e + ([k] + c + o + [w, r, x] + t) == e + [k] + (c + o + [w, r, x] + t)
    ensures e + ([k] + c + o + [w, r, x] + t) == e + ([k] + c + o) + [w] + ([r, x] + t)
    ensures e + ([k] + c + o + [w, r, x] + t) == (e + ([k] + c + o) + [w]) + [r] + ([x] + t)
    ensures e + ([k] + c + o + [w, r, x] + t) == (e + ([k] + c + o) + [w, r]) + [x] + t
  {
  }

  /** Editing exactly one byte-wide binding field after a non-zero capture is always Drifted. */
  lemma ByteFieldEditDrifts(captured: Signature, edited: Binding)
    requires captured == Recaptured(captured) && captured.expected != 0
    requires var b := captured.binding;
             || (edited.kind != b.kind && edited == b.(kind := edited.kind))
             || (edited.valueWidth != b.valueWidth && edited == b.(valueWidth := edited.valueWidth))
             || (edited.readRegister != b.readRegister && edited == b.(readRegister := edited.readRegister))
             || (edited.xmmIndex != b.xmmIndex && edited == b.(xmmIndex := edited.xmmIndex))
    ensures State(captured.(binding := edited)) == Drifted
  {
    var b, e := captured.binding, EvidenceBytes(captured.anchor);
    var now := captured.(binding := edited);
    var tail := Fnv.LittleEndian(b.vmtIndex, 8);
    ContractAround(captured);
    ContractAround(now);
    if edited.kind != b.kind {
      EditBetween(captured, now, e, b.kind.Code(), edited.kind.Code(),
                  Fnv.LittleEndian(|b.offsets|, 8) + OffsetBytes(b.offsets)
                    + [b.valueWidth, b.readRegister, b.xmmIndex] + tail);
    } else if edited.valueWidth != b.valueWidth {
      EditBetween(captured, now, e + HeadBytes(b), b.valueWidth, edited.valueWidth,
                  [b.readRegister, b.xmmIndex] + tail);
    } else if edited.readRegister != b.readRegister {
      EditBetween(captured, now, e + HeadBytes(b) + [b.valueWidth], b.readRegister, edited.readRegister,
                  [b.xmmIndex] + tail);
    } else {
      EditBetween(captured, now, e + HeadBytes(b) + [b.valueWidth, b.readRegister], b.xmmIndex, edited.xmmIndex, tail);
    }
  }

  // ---------------------------------------------------------------------------------------
  // The trust gate
  // ---------------------------------------------------------------------------------------

  datatype Status = Unresolved | Resolved | Failed | Unsupported | QuorumNotIndependent

  datatype Located = Located(status: Status, value: i64)

  datatype Policy = Policy(rejectDrift: bool, rejectUnset: bool, minResolvedFraction: real)

  datatype Trusted = Trusted(name: Bytes, kind: u8, address: u64, binding: Binding)
  datatype Rejected = Rejected(name: Bytes, status: Status, fingerprint: FingerprintState)

  /** What a signature must meet on its own to be trusted. */
  predicate Passes(state: FingerprintState, located: Located, policy: Policy)
  {
    && located.status.Resolved?
    && !(policy.rejectDrift && state.Drifted?)
    && !(policy.rejectUnset && state.NoBaseline?)
  }

  function Entry(sig: Signature, located: Located): (r: Trusted)
  {
    Trusted(sig.name, sig.anchor.KindCode(), Wrap64(located.value), sig.binding)
  }

  function Denial(sig: Signature, located: Located, state: FingerprintState): (r: Rejected)
  {
    Rejected(sig.name, located.status, state)
  }

  /** The whole-manifest floor, clamped into [0, 1]. */
  function Floor(policy: Policy): (r: real)
    ensures 0.0 <= r <= 1.0
  {
    var f := policy.minResolvedFraction;
    if f < 0.0 then 0.0 else if f > 1.0 then 1.0 else f
  }

  /** The entries of the signatures that pass, in manifest order. */
  function Passing(sigs: seq<Signature>, report: seq<Located>, state: Signature -> FingerprintState,
                   policy: Policy): (r: seq<Trusted>)
    requires |sigs| == |report|
    ensures |r| <= |sigs|
    decreases |sigs|
  {
    if sigs == [] then []
    else
      var n := |sigs| - 1;
      var rest := Passing(sigs[..n], report[..n], state, policy);
      if Passes(state(sigs[n]), report[n], policy) then rest + [Entry(sigs[n], report[n])] else rest
  }

  predicate FloorMet(trusted: nat, total: nat, policy: Policy)
  {
    total == 0 || Floor(policy) == 0.0 || trusted as real / total as real >= Floor(policy)
  }

  /** The denials of the signatures that pass, or of those that do not, in manifest order. */
  function Denials(sigs: seq<Signature>, report: seq<Located>, state: Signature -> FingerprintState, policy: Policy,
                   passing: bool): (r: seq<Rejected>)
    requires |sigs| == |report|
    decreases |sigs|
  {
    if sigs == [] then []
    else
      var n := |sigs| - 1;
      var rest := Denials(sigs[..n], report[..n], state, policy, passing);
      if Passes(state(sigs[n]), report[n], policy) == passing
      then rest + [Denial(sigs[n], report[n], state(sigs[n]))] else rest
  }

  /** What the gate should answer: passing entries if the floor is met, and a denial of every other signature. */
  ghost predicate Gated(sigs: seq<Signature>, report: seq<Located>, state: Signature -> FingerprintState,
                        policy: Policy, trusted: seq<Trusted>, rejected: seq<Rejected>)
    requires |sigs| == |report|
  {
    var passing := Passing(sigs, report, state, policy);
    var denied := Denials(sigs, report, state, policy, false);
    if FloorMet(|passing|, |sigs|, policy) then trusted == passing && rejected == denied
    else trusted == [] && rejected == denied + Denials(sigs, report, state, policy, true)
  }

  /** The gate over a manifest: per-signature checks first, then the whole-manifest floor. */
  method ResolveAndGate(sigs: seq<Signature>, report: seq<Located>, policy: Policy)
    returns (trusted: seq<Trusted>, rejected: seq<Rejected>)
    requires |report| == |sigs|
    ensures Gated(sigs, report, State, policy, trusted, rejected)
  {
    trusted, rejected := GateWith(sigs, report, State, policy);
  }

  method GateWith(sigs: seq<Signature>, report: seq<Located>, state: Signature -> FingerprintState, policy: Policy)
    returns (trusted: seq<Trusted>, rejected: seq<Rejected>)
    requires |report| == |sigs|
    ensures Gated(sigs, report, state, policy, trusted, rejected)
  {
    var fingerprints: seq<FingerprintState>;
    trusted, rejected, fingerprints := CheckEach(sigs, report, state, policy);
    var floor := Floor(policy);
    if |sigs| > 0 && floor > 0.0 && |trusted| as real / |sigs| as real < floor {
      ghost var denied := rejected;
      ghost var demoted := Denials(sigs, report, state, policy, true);
      for i := 0 to |trusted|
        invariant rejected == denied + demoted[..i]
      {
        assert demoted[..i + 1] == demoted[..i] + [demoted[i]];
        rejected := rejected + [Rejected(trusted[i].name, Resolved, fingerprints[i])];
      }
      assert demoted[..|trusted|] == demoted;
      trusted := [];
    }
  }

  /** The fingerprints kept beside the trusted entries are enough to deny each of them later. */
  predicate Deniable(trusted: seq<Trusted>, fingerprints: seq<FingerprintState>, denials: seq<Rejected>)
  {
    && |trusted| == |fingerprints| == |denials|
    && forall i :: 0 <= i < |denials| ==> denials[i] == Rejected(trusted[i].name, Resolved, fingerprints[i])
  }

  method CheckEach(sigs: seq<Signature>, report: seq<Located>, state: Signature -> FingerprintState, policy: Policy)
    returns (trusted: seq<Trusted>, rejected: seq<Rejected>, fingerprints: seq<FingerprintState>)
    requires |report| == |sigs|
    ensures trusted == Passing(sigs, report, state, policy)
    ensures rejected == Denials(sigs, report, state, policy, false)
    ensures Deniable(trusted, fingerprints, Denials(sigs, report, state, policy, true))
  {
    trusted, rejected, fingerprints := [], [], [];
    for i := 0 to |sigs|
      invariant trusted == Passing(sigs[..i], report[..i], state, policy)
      invariant rejected == Denials(sigs[..i], report[..i], state, policy, false)
      invariant Deniable(trusted, fingerprints, Denials(sigs[..i], report[..i], state, policy, true))
    {
      assert sigs[..i + 1][..i] == sigs[..i] && report[..i + 1][..i] == report[..i];
      var fingerprint := state(sigs[i]);
      if report[i].status != Resolved {
        rejected := rejected + [Rejected(sigs[i].name, report[i].status, fingerprint)];
      } else if policy.rejectDrift && fingerprint == Drifted {
        rejected := rejected + [Rejected(sigs[i].name, Resolved, Drifted)];
      } else if policy.rejectUnset && fingerprint == NoBaseline {
        rejected := rejected + [Rejected(sigs[i].name, Resolved, NoBaseline)];
      } else {
        trusted := trusted + [Entry(sigs[i], report[i])];
        fingerprints := fingerprints + [fingerprint];
      }
    }
    assert sigs[..|sigs|] == sigs && report[..|sigs|] == report;
  }

  function TrustedNames(entries: seq<Trusted>): (r: seq<Bytes>)
  {
    if entries == [] then [] else TrustedNames(entries[..|entries| - 1]) + [entries[|entries| - 1].name]
  }

  function RejectedNames(denials: seq<Rejected>): (r: seq<Bytes>)
  {
    if denials == [] then [] else RejectedNames(denials[..|denials| - 1]) + [denials[|denials| - 1].name]
  }

  function SignatureNames(sigs: seq<Signature>): (r: seq<Bytes>)
  {
    if sigs == [] then [] else SignatureNames(sigs[..|sigs| - 1]) + [sigs[|sigs| - 1].name]
  }

  /** Every signature ends up in exactly one of the two lists, as often as the manifest names it. */
  lemma GateLosesNothing(sigs: seq<Signature>, report: seq<Located>, state: Signature -> FingerprintState,
                         policy: Policy, trusted: seq<Trusted>, rejected: seq<Rejected>)
    requires |sigs| == |report| && Gated(sigs, report, state, policy, trusted, rejected)
    ensures multiset(TrustedNames(trusted)) + multiset(RejectedNames(rejected)) == multiset(SignatureNames(sigs))
    ensures |trusted| + |rejected| == |sigs|
  {
    DenialsCount(sigs, report, state, policy);
    NamesSplit(sigs, report, state, policy);
    RejectedNamesConcat(Denials(sigs, report, state, policy, false), Denials(sigs, report, state, policy, true));
  }

  lemma {:induction false} RejectedNamesConcat(a: seq<Rejected>, b: seq<Rejected>)
    ensures RejectedNames(a + b) == RejectedNames(a) + RejectedNames(b)
    decreases |b|
  {
    if b == [] {
      assert a + b == a;
    } else {
      var n := |b| - 1;
      assert (a + b)[..|a + b| - 1] == a + b[..n];
      RejectedNamesConcat(a, b[..n]);
    }
  }

  /** Passing entries and their denials carry the same names; with the other denials they make up all names. */
  lemma {:induction false} NamesSplit(sigs: seq<Signature>, report: seq<Located>, state: Signature -> FingerprintState,
                                      policy: Policy)
    requires |sigs| == |report|
    ensures RejectedNames(Denials(sigs, report, state, policy, true))
            == TrustedNames(Passing(sigs, report, state, policy))
    ensures multiset(TrustedNames(Passing(sigs, report, state, policy)))
          + multiset(RejectedNames(Denials(sigs, report, state, policy, false))) == multiset(SignatureNames(sigs))
    decreases |sigs|
  {
    if sigs != [] {
      var n := |sigs| - 1;
      NamesSplit(sigs[..n], report[..n], state, policy);
    }
  }

  lemma {:induction false} DenialsCount(sigs: seq<Signature>, report: seq<Located>,
                                        state: Signature -> FingerprintState, policy: Policy)
    requires |sigs| == |report|
    ensures |Denials(sigs, report, state, policy, true)| == |Passing(sigs, report, state, policy)|
    ensures |Denials(sigs, report, state, policy, true)| + |Denials(sigs, report, state, policy, false)| == |sigs|
    decreases |sigs|
  {
    if sigs != [] {
      var n := |sigs| - 1;
      DenialsCount(sigs[..n], report[..n], state, policy);
    }
  }

  /** Whatever the gate trusts is the entry of some signature that passed every check. */
  lemma {:induction false} TrustedPassed(sigs: seq<Signature>, report: seq<Located>,
                                         state: Signature -> FingerprintState, policy: Policy, e: Trusted)
    requires |sigs| == |report| && e in Passing(sigs, report, state, policy)
    ensures exists i :: 0 <= i < |sigs| && Passes(state(sigs[i]), report[i], policy) && e == Entry(sigs[i], report[i])
    decreases |sigs|
  {
    var n := |sigs| - 1;
    if e in Passing(sigs[..n], report[..n], state, policy) {
      TrustedPassed(sigs[..n], report[..n], state, policy, e);
      var i :| 0 <= i < n && Passes(state(sigs[..n][i]), report[..n][i], policy)
               && e == Entry(sigs[..n][i], report[..n][i]);
      assert Passes(state(sigs[i]), report[i], policy);
    } else {
      assert Passes(state(sigs[n]), report[n], policy);
    }
  }

  /** And every signature that passes has its entry. */
  lemma {:induction false} PassingIsListed(sigs: seq<Signature>, report: seq<Located>,
                                           state: Signature -> FingerprintState, policy: Policy, i: nat)
    requires |sigs| == |report| && i < |sigs| && Passes(state(sigs[i]), report[i], policy)
    ensures Entry(sigs[i], report[i]) in Passing(sigs, report, state, policy)
    decreases |sigs|
  {
    var n := |sigs| - 1;
    if i < n {
      PassingIsListed(sigs[..n], report[..n], state, policy, i);
    }
  }

  /** Which signatures pass. */
  function PassingIndices(sigs: seq<Signature>, report: seq<Located>, state: Signature -> FingerprintState,
                          policy: Policy): (r: set<int>)
    requires |sigs| == |report|
  {
    set i | 0 <= i < |sigs| && Passes(state(sigs[i]), report[i], policy)
  }

  lemma {:induction false} PassingCount(sigs: seq<Signature>, report: seq<Located>,
                                        state: Signature -> FingerprintState, policy: Policy)
    requires |sigs| == |report|
    ensures |Passing(sigs, report, state, policy)| == |PassingIndices(sigs, report, state, policy)|
    decreases |sigs|
  {
    if sigs != [] {
      var n := |sigs| - 1;
      var before := PassingIndices(sigs[..n], report[..n], state, policy);
      PassingCount(sigs[..n], report[..n], state, policy);
      assert PassingIndices(sigs, report, state, policy) ==
             if Passes(state(sigs[n]), report[n], policy) then before + {n} else before;
    }
  }

  /** The gate trusts an entry exactly when enough signatures pass and one of them has that entry. */
  lemma TrustedIff(sigs: seq<Signature>, report: seq<Located>, state: Signature -> FingerprintState, policy: Policy,
                   trusted: seq<Trusted>, rejected: seq<Rejected>, e: Trusted)
    requires |sigs| == |report| && Gated(sigs, report, state, policy, trusted, rejected)
    ensures e in trusted <==>
            && FloorMet(|PassingIndices(sigs, report, state, policy)|, |sigs|, policy)
            && exists i :: i in PassingIndices(sigs, report, state, policy) && e == Entry(sigs[i], report[i])
  {
    PassingCount(sigs, report, state, policy);
    if e in trusted {
      TrustedPassed(sigs, report, state, policy, e);
      var i :| 0 <= i < |sigs| && Passes(state(sigs[i]), report[i], policy) && e == Entry(sigs[i], report[i]);
      assert i in PassingIndices(sigs, report, state, policy);
    }
    forall i | i in PassingIndices(sigs, report, state, policy)
      ensures Entry(sigs[i], report[i]) in Passing(sigs, report, state, policy)
    {
      PassingIsListed(sigs, report, state, policy, i);
    }
  }

  /** A signature that may be trusted: located, and its baseline neither missed nor missing where that is rejected. */
  predicate Meets(sig: Signature, located: Located, policy: Policy)
  {
    && located.status == Resolved
    && (policy.rejectDrift ==> sig.expected == 0 || sig.expected == CurrentFingerprint(sig))
    && (policy.rejectUnset ==> sig.expected != 0)
  }

  /** The share of signatures that must be trusted: none below 0, all above 1. */
  predicate Enough(passing: nat, total: nat, fraction: real)
  {
    total == 0 || fraction <= 0.0 || passing as real >= (if fraction > 1.0 then 1.0 else fraction) * total as real
  }

  lemma ShareAtLeast(p: real, n: real, g: real)
    requires n > 0.0
    ensures p / n >= g <==> p >= g * n
  {
    var share := p / n;
    assert p == share * n;
    assert (share - g) * n == p - g * n;
  }

  lemma EnoughMeans(passing: nat, total: nat, policy: Policy)
    ensures FloorMet(passing, total, policy) <==> Enough(passing, total, policy.minResolvedFraction)
  {
    var f := policy.minResolvedFraction;
    if total > 0 && f > 0.0 {
      ShareAtLeast(passing as real, total as real, if f > 1.0 then 1.0 else f);
    }
  }

  /**
   The whole gate in the terms of the signatures: an entry is trusted exactly when it names a signature that meets the
   policy, with its kind, its address and its binding, and enough signatures do.
   */
  lemma TrustedExactly(sigs: seq<Signature>, report: seq<Located>, policy: Policy, trusted: seq<Trusted>,
                       rejected: seq<Rejected>, e: Trusted)
    requires |sigs| == |report| && Gated(sigs, report, State, policy, trusted, rejected)
    ensures var meeting := set i | 0 <= i < |sigs| && Meets(sigs[i], report[i], policy);
            e in trusted <==>
            && Enough(|meeting|, |sigs|, policy.minResolvedFraction)
            && exists i :: && i in meeting
                           && e.name == sigs[i].name && e.kind == sigs[i].anchor.KindCode()
                           && e.binding == sigs[i].binding
                           && e.address == report[i].value + if report[i].value < 0 then TWO_64 else 0
  {
    TrustedIff(sigs, report, State, policy, trusted, rejected, e);
    var meeting := set i | 0 <= i < |sigs| && Meets(sigs[i], report[i], policy);
    forall i | 0 <= i < |sigs|
      ensures Meets(sigs[i], report[i], policy) <==> Passes(State(sigs[i]), report[i], policy)
    {
    }
    assert meeting == PassingIndices(sigs, report, State, policy);
    EnoughMeans(|meeting|, |sigs|, policy);
    forall i | 0 <= i < |sigs|
      ensures e == Entry(sigs[i], report[i]) <==>
              && e.name == sigs[i].name && e.kind == sigs[i].anchor.KindCode() && e.binding == sigs[i].binding
              && e.address == report[i].value + if report[i].value < 0 then TWO_64 else 0
    {
    }
  }

  /** A denial of the i-th signature that passes, or that does not. */
  predicate DenialAt(sigs: seq<Signature>, report: seq<Located>, state: Signature -> FingerprintState, policy: Policy,
                     passing: bool, i: int, e: Rejected)
    requires |sigs| == |report|
  {
    && 0 <= i < |sigs| && Passes(state(sigs[i]), report[i], policy) == passing
    && e == Denial(sigs[i], report[i], state(sigs[i]))
  }

  lemma {:induction false} DenialsHold(sigs: seq<Signature>, report: seq<Located>,
                                       state: Signature -> FingerprintState, policy: Policy, passing: bool,
                                       e: Rejected)
    requires |sigs| == |report|
    ensures e in Denials(sigs, report, state, policy, passing) <==>
            exists i :: DenialAt(sigs, report, state, policy, passing, i, e)
    decreases |sigs|
  {
    if sigs != [] {
      var n := |sigs| - 1;
      DenialsHold(sigs[..n], report[..n], state, policy, passing, e);
      forall i | 0 <= i < n
        ensures DenialAt(sigs, report, state, policy, passing, i, e) <==>
                DenialAt(sigs[..n], report[..n], state, policy, passing, i, e)
      {
      }
      if DenialAt(sigs, report, state, policy, passing, n, e) {
        assert e in Denials(sigs, report, state, policy, passing);
      }
    }
  }

  /** What is rejected, with its own status and baseline state: whatever does not meet the policy, or everything. */
  lemma RejectedExactly(sigs: seq<Signature>, report: seq<Located>, policy: Policy, trusted: seq<Trusted>,
                        rejected: seq<Rejected>, e: Rejected)
    requires |sigs| == |report| && Gated(sigs, report, State, policy, trusted, rejected)
    ensures var meeting := set i | 0 <= i < |sigs| && Meets(sigs[i], report[i], policy);
            e in rejected <==>
            exists i :: && 0 <= i < |sigs| && e.name == sigs[i].name && e.status == report[i].status
                        && e.fingerprint == (if sigs[i].expected == 0 then NoBaseline
                                             else if sigs[i].expected == CurrentFingerprint(sigs[i]) then Match
                                             else Drifted)
                        && (i !in meeting || !Enough(|meeting|, |sigs|, policy.minResolvedFraction))
  {
    var meeting := set i | 0 <= i < |sigs| && Meets(sigs[i], report[i], policy);
    MeetingIsPassing(sigs, report, policy, meeting);
    DenialsHold(sigs, report, State, policy, false, e);
    DenialsHold(sigs, report, State, policy, true, e);
    var floor := Enough(|meeting|, |sigs|, policy.minResolvedFraction);
    if e in rejected {
      var i :| DenialAt(sigs, report, State, policy, false, i, e)
               || (!floor && DenialAt(sigs, report, State, policy, true, i, e));
      assert 0 <= i < |sigs| && e.name == sigs[i].name;
    }
    forall i | 0 <= i < |sigs| && e == Denial(sigs[i], report[i], State(sigs[i])) && (i !in meeting || !floor)
      ensures e in rejected
    {
      assert DenialAt(sigs, report, State, policy, i in meeting, i, e);
    }
  }

  lemma MeetingIsPassing(sigs: seq<Signature>, report: seq<Located>, policy: Policy, meeting: set<int>)
    requires |sigs| == |report| && meeting == set i | 0 <= i < |sigs| && Meets(sigs[i], report[i], policy)
    ensures forall i :: 0 <= i < |sigs| ==> (i in meeting <==> Passes(State(sigs[i]), report[i], policy))
    ensures FloorMet(|Passing(sigs, report, State, policy)|, |sigs|, policy) <==>
            Enough(|meeting|, |sigs|, policy.minResolvedFraction)
  {
    forall i | 0 <= i < |sigs|
      ensures Meets(sigs[i], report[i], policy) <==> Passes(State(sigs[i]), report[i], policy)
    {
    }
    assert meeting == PassingIndices(sigs, report, State, policy);
    PassingCount(sigs, report, State, policy);
    EnoughMeans(|meeting|, |sigs|, policy);
  }

  /** Every signature has an entry exactly when every signature passes. */
  lemma {:induction false} AllPass(sigs: seq<Signature>, report: seq<Located>, state: Signature -> FingerprintState,
                                   policy: Policy)
    requires |sigs| == |report|
    ensures |Passing(sigs, report, state, policy)| == |sigs|
       <==> forall i :: 0 <= i < |sigs| ==> Passes(state(sigs[i]), report[i], policy)
    decreases |sigs|
  {
    if sigs != [] {
      var n := |sigs| - 1;
      AllPass(sigs[..n], report[..n], state, policy);
      assert forall i :: 0 <= i < n ==> sigs[..n][i] == sigs[i] && report[..n][i] == report[i];
    }
  }

  lemma FullFloor(passed: nat, total: nat, policy: Policy)
    requires passed <= total && 0 < total && policy.minResolvedFraction >= 1.0
    ensures FloorMet(passed, total, policy) <==> passed == total
  {
    var p, n := passed as real, total as real;
    assert p / n >= 1.0 <==> p >= n;
  }

  /** Under a full floor the gate is all or nothing: one failing signature disables every one. */
  lemma StrictGateIsAllOrNothing(sigs: seq<Signature>, report: seq<Located>, state: Signature -> FingerprintState,
                                 policy: Policy)
    requires |sigs| == |report| && sigs != [] && policy.minResolvedFraction >= 1.0
    ensures FloorMet(|Passing(sigs, report, state, policy)|, |sigs|, policy)
       <==> forall i :: 0 <= i < |sigs| ==> Passes(state(sigs[i]), report[i], policy)
  {
    AllPass(sigs, report, state, policy);
    FullFloor(|Passing(sigs, report, state, policy)|, |sigs|, policy);
  }

  /** A signature that fails a check is denied, whatever the floor does to the others. */
  lemma {:induction false} FailingIsDenied(sigs: seq<Signature>, report: seq<Located>,
                                           state: Signature -> FingerprintState, policy: Policy, i: nat)
    requires |sigs| == |report| && i < |sigs| && !Passes(state(sigs[i]), report[i], policy)
    ensures Denial(sigs[i], report[i], state(sigs[i])) in Denials(sigs, report, state, policy, false)
    decreases |sigs|
  {
    var n := |sigs| - 1;
    if i < n {
      FailingIsDenied(sigs[..n], report[..n], state, policy, i);
    }
  }

  /** The whole gate denies an edited signature that was not re-captured, as drifted, while drift is rejected. */
  lemma EditedSignatureNotTrusted(captured: Signature, at: nat, sigs: seq<Signature>, i: nat, report: seq<Located>,
                                  policy: Policy, trusted: seq<Trusted>, rejected: seq<Rejected>)
    requires |sigs| == |report| && i < |sigs| && policy.rejectDrift
    requires captured == Recaptured(captured) && captured.expected != 0 && sigs[i].expected == captured.expected
    requires Fnv.DifferOnlyAt(ContractBytes(captured), ContractBytes(sigs[i]), at)
    requires Gated(sigs, report, State, policy, trusted, rejected)
    ensures !Passes(State(sigs[i]), report[i], policy)
    ensures Rejected(sigs[i].name, report[i].status, Drifted) in rejected
  {
    OneByteEditDrifts(captured, sigs[i], at);
    FailingIsDenied(sigs, report, State, policy, i);
  }
}
