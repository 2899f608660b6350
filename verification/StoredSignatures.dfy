/**
 A captured signature through the store: compiling a record into a signature, and whether the signature is
 still what was captured once its record has been written and read back.
 */
module StoredSignatures {
  import opened MachineInts
  import opened Options
  import opened Evidence
  import opened DriftGate
  import opened ManifestTokens
  import opened ManifestRecords
  import opened ManifestStore
  import opened ManifestRoundTrip
  import Fnv

  datatype Pattern = Pattern(bytes: Bytes, mask: Bytes, offset: u64)

  /** How text becomes bytes, and how a pattern is compiled; a pattern may be malformed. */
  datatype Texts = Texts(bytes: string -> Bytes, pattern: string -> Option<Pattern>)

  /** compile_rung. */
  function CompileRung(t: Texts, s: Spec): (c: Option<Candidate>)
  {
    match s.mode
    case ByPattern =>
      var p := t.pattern(s.pattern);
      if p.None? then None else Some(Direct(p.value.bytes, p.value.mask, p.value.offset, s.walkBack))
    case ByRip =>
      var p := t.pattern(s.pattern);
      if p.None? || !ValidLayout(s.displacementAt, s.instructionLength) then None
      else
        Some(RipRelative(p.value.bytes, p.value.mask, p.value.offset, s.displacementAt, s.instructionLength))
    case ByRtti => Some(RttiVtable(t.bytes(s.mangled)))
    case ByString => Some(StringRung(t.bytes(s.text), s.encoding, Facets(s.target, s.terminated, s.broad)))
  }

  /** The ladder, up to the first rung that does not compile. */
  function CompileLadder(t: Texts, ladder: seq<Spec>): (r: Option<seq<Candidate>>)
    ensures r.Some? ==> |r.value| == |ladder|
  {
    if ladder == [] then Some([])
    else
      var n := |ladder| - 1;
      var rest, last := CompileLadder(t, ladder[..n]), CompileRung(t, ladder[n]);
      if rest.None? || last.None? then None else Some(rest.value + [last.value])
  }

  function LadderOf(t: Texts, ladder: seq<Spec>): (r: Option<Ladder>)
  {
    var compiled := CompileLadder(t, ladder);
    if ladder == [] || compiled.None? || |compiled.value| >= TWO_64 then None
    else
      var site: Ladder := compiled.value;
      Some(site)
  }

  /** The anchor a record declares, unless its evidence is missing or does not compile. */
  function AnchorOf(t: Texts, r: Record): (a: Option<Anchor>)
  {
    match r.kind
    case KindVtable => if r.mangled == "" then None else Some(VtableIdentity(t.bytes(r.mangled)))
    case KindRip =>
      var site := LadderOf(t, r.ladder);
      if site.None? then None else Some(RipGlobal(site.value, r.pages))
    case KindOperand =>
      var site := LadderOf(t, r.ladder);
      if site.None? then None else Some(CodeOperand(site.value, r.operandKind, r.operandIndex, r.byteWidth))
    case KindString =>
      if r.xrefText == "" then None
      else Some(StringXref(t.bytes(r.xrefText), r.xrefEncoding, Facets(r.xrefReturns, r.xrefTerminated, r.xrefBroad)))
    case KindExport => if r.exportName == "" then None else Some(ExportName(t.bytes(r.owner), t.bytes(r.exportName)))
    case KindManual => Some(Manual(r.manual))
    case _ => None
  }

  /** Signature::compile, for a record whose text the document can carry. */
  function Compile(t: Texts, r: Record): (s: Option<Signature>)
  {
    var anchor := AnchorOf(t, r);
    if !GoodName(r.name) || anchor.None? then None
    else Some(Signature(t.bytes(r.name), anchor.value, r.binding, r.fingerprint))
  }

  // What compiles, and to what.

  /** A candidate is what a rung asks for. */
  predicate RungCompiles(t: Texts, s: Spec, c: Candidate)
  {
    match c
    case Direct(bytes, mask, offset, walkBack) =>
      s.mode.ByPattern? && t.pattern(s.pattern) == Some(Pattern(bytes, mask, offset)) && walkBack == s.walkBack
    case RipRelative(bytes, mask, offset, at, length) =>
      && s.mode.ByRip? && t.pattern(s.pattern) == Some(Pattern(bytes, mask, offset))
      && at == s.displacementAt && length == s.instructionLength && 0 <= at && at + 4 <= length <= 15
    case RttiVtable(mangled) => s.mode.ByRtti? && mangled == t.bytes(s.mangled)
    case StringRung(text, encoding, facets) =>
      && s.mode.ByString? && text == t.bytes(s.text) && encoding == s.encoding
      && facets.returnMode == s.target && facets.requireTerminator == s.terminated && facets.broadMatch == s.broad
  }

  lemma RungCompilesIff(t: Texts, s: Spec, c: Candidate)
    ensures CompileRung(t, s) == Some(c) <==> RungCompiles(t, s, c)
  {
  }

  predicate AllCompile(t: Texts, ladder: seq<Spec>, site: seq<Candidate>)
  {
    |ladder| == |site| && forall i :: 0 <= i < |ladder| ==> RungCompiles(t, ladder[i], site[i])
  }

  lemma {:induction false} LadderCompilesIff(t: Texts, ladder: seq<Spec>, site: seq<Candidate>)
    ensures CompileLadder(t, ladder) == Some(site) <==> AllCompile(t, ladder, site)
    decreases |ladder|
  {
    if ladder != [] && site != [] {
      var n, k := |ladder| - 1, |site| - 1;
      LadderCompilesIff(t, ladder[..n], site[..k]);
      RungCompilesIff(t, ladder[n], site[k]);
      assert site == site[..k] + [site[k]];
    }
  }

  /** An anchor is what a record declares: the evidence its kind needs is there, and compiles. */
  predicate Declares(t: Texts, r: Record, a: Anchor)
  {
    match a
    case VtableIdentity(mangled) => r.kind.KindVtable? && r.mangled != "" && mangled == t.bytes(r.mangled)
    case RipGlobal(site, pages) =>
      r.kind.KindRip? && r.ladder != [] && AllCompile(t, r.ladder, site) && pages == r.pages
    case CodeOperand(site, kind, index, width) =>
      && r.kind.KindOperand? && r.ladder != [] && AllCompile(t, r.ladder, site)
      && kind == r.operandKind && index == r.operandIndex && width == r.byteWidth
    case StringXref(text, encoding, facets) =>
      && r.kind.KindString? && r.xrefText != "" && text == t.bytes(r.xrefText) && encoding == r.xrefEncoding
      && facets.returnMode == r.xrefReturns && facets.requireTerminator == r.xrefTerminated
      && facets.broadMatch == r.xrefBroad
    case ExportName(mod, name) =>
      r.kind.KindExport? && r.exportName != "" && mod == t.bytes(r.owner) && name == t.bytes(r.exportName)
    case Manual(value) => r.kind.KindManual? && value == r.manual
    case _ => false
  }

  lemma LadderOfIff(t: Texts, ladder: seq<Spec>, site: Ladder)
    ensures LadderOf(t, ladder) == Some(site) <==> ladder != [] && AllCompile(t, ladder, site)
  {
    LadderCompilesIff(t, ladder, site);
  }

  lemma AnchorOfIff(t: Texts, r: Record, a: Anchor)
    ensures AnchorOf(t, r) == Some(a) <==> Declares(t, r, a)
  {
    if a.RipGlobal? || a.CodeOperand? {
      LadderOfIff(t, r.ladder, a.site);
    }
  }

  /**
   A record compiles exactly to the signature with its label, binding and baseline and the anchor it declares; without a
   usable label or the evidence its kind needs it does not compile.
   */
  lemma CompilesIff(t: Texts, r: Record, sig: Signature)
    ensures Compile(t, r) == Some(sig) <==>
            && r.name != "" && GoodName(r.name) && Declares(t, r, sig.anchor)
            && sig.name == t.bytes(r.name) && sig.binding == r.binding && sig.expected == r.fingerprint
  {
    AnchorOfIff(t, r, sig.anchor);
  }

  // Evidence survives the store.

  lemma RungCompilesAlike(t: Texts, s: Spec)
    ensures CompileRung(t, NormalSpec(s)) == CompileRung(t, s)
  {
  }

  lemma {:induction false} LadderCompilesAlike(t: Texts, ladder: seq<Spec>)
    ensures CompileLadder(t, NormalLadder(ladder)) == CompileLadder(t, ladder)
    decreases |ladder|
  {
    if ladder != [] {
      var n := |ladder| - 1;
      assert NormalLadder(ladder)[..n] == NormalLadder(ladder[..n]);
      LadderCompilesAlike(t, ladder[..n]);
      RungCompilesAlike(t, ladder[n]);
    }
  }

  lemma NormalKeeps(r: Record)
    ensures var n := Normal(r);
            && n.name == r.name && n.kind == r.kind && n.owner == r.owner && n.fingerprint == r.fingerprint
            && n.binding == NormalBinding(r.binding) && n.ladder == NormalLadder(r.ladder)
  {
  }

  /** Two records agree in the fields their kind uses as evidence, ladders aside. */
  predicate SameEvidence(r: Record, n: Record)
  {
    && n.kind == r.kind && n.owner == r.owner
    && (r.kind.KindVtable? ==> n.mangled == r.mangled)
    && (r.kind.KindRip? ==> n.pages == r.pages)
    && (r.kind.KindOperand? ==>
          n.operandKind == r.operandKind && n.operandIndex == r.operandIndex && n.byteWidth == r.byteWidth)
    && (r.kind.KindString? ==>
          && n.xrefText == r.xrefText && n.xrefEncoding == r.xrefEncoding && n.xrefReturns == r.xrefReturns
          && n.xrefTerminated == r.xrefTerminated && n.xrefBroad == r.xrefBroad)
    && (r.kind.KindExport? ==> n.exportName == r.exportName)
    && (r.kind.KindManual? ==> n.manual == r.manual)
  }

  lemma NormalSameEvidence(r: Record)
    ensures SameEvidence(r, NormalFields(r))
  {
  }

  lemma SameAnchor(t: Texts, r: Record, n: Record)
    requires SameEvidence(r, n) && LadderOf(t, n.ladder) == LadderOf(t, r.ladder)
    ensures AnchorOf(t, n) == AnchorOf(t, r)
  {
  }

  lemma SameLadder(t: Texts, ladder: seq<Spec>)
    ensures LadderOf(t, NormalLadder(ladder)) == LadderOf(t, ladder)
  {
    LadderCompilesAlike(t, ladder);
  }

  lemma AnchorSurvives(t: Texts, r: Record)
    ensures AnchorOf(t, Normal(r)) == AnchorOf(t, r)
  {
    NormalKeeps(r);
    NormalSameEvidence(r);
    SameLadder(t, r.ladder);
    SameAnchor(t, r, Normal(r));
  }

  /** Whatever fields a record leaves unused, the record read back compiles to the same evidence and baseline. */
  lemma OnlyTheBindingChanges(t: Texts, r: Record)
    ensures Compile(t, Normal(r)) ==
            if Compile(t, r).None? then None
            else Some(Compile(t, r).value.(binding := NormalBinding(r.binding)))
  {
    NormalKeeps(r);
    AnchorSurvives(t, r);
  }

  /** What the store gives back for the i-th record, compiled. */
  function Reloaded(t: Texts, m: Manifest, i: nat): (s: Option<Signature>)
    requires i < |m.records|
    requires WellFormed(Serialized(Ini, m))
  {
    var p := ParsedStore(Ini, Serialized(Ini, m));
    if p.Parsed? && i < |p.manifest.records| then Compile(t, p.manifest.records[i]) else None
  }

  lemma ReloadedIs(t: Texts, m: Manifest, i: nat)
    requires DistinctRecords(m.records) && forall k :: 0 <= k < |m.records| ==> Serialisable(m.records[k])
    requires i < |m.records| && Compile(t, m.records[i]).Some?
    ensures WellFormed(Serialized(Ini, m))
    ensures Reloaded(t, m, i) ==
            Some(Compile(t, m.records[i]).value.(binding := NormalBinding(m.records[i].binding)))
  {
    RoundTrip(m);
    OnlyTheBindingChanges(t, m.records[i]);
  }

  /** With the binding's unused fields at their defaults, a signature keeps its fingerprint state through the store. */
  lemma StateSurvivesStore(t: Texts, m: Manifest, i: nat)
    requires DistinctRecords(m.records) && forall k :: 0 <= k < |m.records| ==> Serialisable(m.records[k])
    requires i < |m.records| && Compile(t, m.records[i]).Some?
    requires NormalBinding(m.records[i].binding) == m.records[i].binding
    ensures WellFormed(Serialized(Ini, m))
    ensures Reloaded(t, m, i) == Compile(t, m.records[i])
  {
    ReloadedIs(t, m, i);
  }

  /** Whatever the binding loses on the way lies within four adjacent bytes of its stream. */
  predicate LossIsLocal(b: Binding)
  {
    exists at :: 0 <= at <= |BindingBytes(b)| && LossIsWithin(b, at)
  }

  predicate LossIsWithin(b: Binding, at: nat)
  {
    Fnv.AlikeOutsideFour(BindingBytes(b), BindingBytes(NormalBinding(b)), at)
  }

  lemma LocalLossIsSeen(hash: u64, b: Binding)
    requires LossIsLocal(b)
    ensures Fnv.Fold(hash, BindingBytes(NormalBinding(b))) == Fnv.Fold(hash, BindingBytes(b)) <==> NormalBinding(b) == b
  {
    var at :| 0 <= at <= |BindingBytes(b)| && LossIsWithin(b, at);
    Fnv.FourByteEditChangesHash(hash, BindingBytes(b), BindingBytes(NormalBinding(b)), at);
    if BindingBytes(b) == BindingBytes(NormalBinding(b)) {
      BindingUnambiguous(b, NormalBinding(b));
    }
  }

  /** The width, the register, the xmm index and the low byte of the method index are such neighbours. */
  lemma LowFieldsAreLocal(b: Binding)
    requires NormalBinding(b).offsets == b.offsets && NormalBinding(b).vmtIndex / 256 == b.vmtIndex / 256
    ensures LossIsLocal(b)
  {
    SameHead(b);
    SameHigh(b.vmtIndex, NormalBinding(b).vmtIndex);
    assert LossIsWithin(b, |HeadBytes(b)|);
  }

  lemma SameHead(b: Binding)
    requires NormalBinding(b).offsets == b.offsets
    ensures HeadBytes(NormalBinding(b)) == HeadBytes(b)
  {
  }

  lemma SameHigh(x: u64, y: u64)
    requires x / 256 == y / 256
    ensures Fnv.LittleEndian(x, 8)[1..] == Fnv.LittleEndian(y, 8)[1..]
  {
  }

  /** A captured signature whose loss is local is a match exactly when it loses nothing, and drifted otherwise. */
  lemma MatchSurvivesStoreIff(t: Texts, m: Manifest, i: nat)
    requires DistinctRecords(m.records) && forall k :: 0 <= k < |m.records| ==> Serialisable(m.records[k])
    requires i < |m.records| && Compile(t, m.records[i]).Some?
    requires State(Compile(t, m.records[i]).value) == Match
    requires LossIsLocal(m.records[i].binding)
    ensures WellFormed(Serialized(Ini, m)) && Reloaded(t, m, i).Some?
    ensures State(Reloaded(t, m, i).value) == Match <==> NormalBinding(m.records[i].binding) == m.records[i].binding
    ensures State(Reloaded(t, m, i).value) != Match ==> State(Reloaded(t, m, i).value) == Drifted
  {
    ReloadedIs(t, m, i);
    LocalLossIsSeen(EvidenceHash(Compile(t, m.records[i]).value.anchor), m.records[i].binding);
  }

  // A pinned value whose address binding carries a value width it does not use.

  function Wide(width: u8): (b: Binding)
  {
    PlainBinding.(valueWidth := width)
  }

  function PinnedSignature(t: Texts, name: string, width: u8): (s: Signature)
  {
    Signature(t.bytes(name), Manual(0), Wide(width), 0)
  }

  /** A record captured with that width. */
  function PinnedRecord(t: Texts, name: string, width: u8): (r: Record)
  {
    BlankRecord(name, KindManual).(binding := Wide(width),
                                   fingerprint := CurrentFingerprint(PinnedSignature(t, name, width)))
  }

  lemma WidthsDiffer(t: Texts, name: string, a: u8, b: u8)
    requires a != b
    ensures CurrentFingerprint(PinnedSignature(t, name, a)) != CurrentFingerprint(PinnedSignature(t, name, b))
  {
    var at := |HeadBytes(Wide(a))|;
    var x, y := BindingBytes(Wide(a)), BindingBytes(Wide(b));
    assert Fnv.DifferOnlyAt(x, y, at);
    Fnv.OneByteEditChangesHash(EvidenceHash(Manual(0)), x, y, at);
  }

  lemma PinnedIsCaptured(t: Texts, name: string, width: u8)
    requires GoodName(name) && CurrentFingerprint(PinnedSignature(t, name, width)) != 0
    ensures Serialisable(PinnedRecord(t, name, width)) && Compile(t, PinnedRecord(t, name, width)).Some?
    ensures State(Compile(t, PinnedRecord(t, name, width)).value) == Match
    ensures PinnedRecord(t, name, width).binding == Wide(width) && NormalBinding(Wide(width)) == PlainBinding
  {
  }

  /** The record is a match when captured and drifted when read back. */
  predicate DriftsInStore(t: Texts, m: Manifest)
    requires |m.records| > 0 && WellFormed(Serialized(Ini, m))
  {
    && Compile(t, m.records[0]).Some? && State(Compile(t, m.records[0]).value) == Match
    && Reloaded(t, m, 0).Some? && State(Reloaded(t, m, 0).value) == Drifted
  }

  lemma PinnedDrifts(t: Texts, name: string, revision: u32, width: u8)
    requires GoodName(name) && CurrentFingerprint(PinnedSignature(t, name, width)) != 0 && width != 8
    ensures var m := Manifest(revision, [PinnedRecord(t, name, width)]);
            WellFormed(Serialized(Ini, m)) && DriftsInStore(t, m)
  {
    PinnedIsCaptured(t, name, width);
    LowFieldsAreLocal(Wide(width));
    MatchSurvivesStoreIff(t, Manifest(revision, [PinnedRecord(t, name, width)]), 0);
  }

  /** A captured match that reads back as drifted though nothing was edited: the unused width 1 or 2 does it. */
  lemma UnusedWidthDrifts(t: Texts, name: string, revision: u32) returns (width: u8)
    requires GoodName(name)
    ensures width == 1 || width == 2
    ensures var m := Manifest(revision, [PinnedRecord(t, name, width)]);
            WellFormed(Serialized(Ini, m)) && DriftsInStore(t, m)
  {
    WidthsDiffer(t, name, 1, 2);
    width := if CurrentFingerprint(PinnedSignature(t, name, 1)) != 0 then 1 else 2;
    PinnedDrifts(t, name, revision, width);
  }
}
