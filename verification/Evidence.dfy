/**
 The address-independent evidence an anchor declares, and the byte stream its drift fingerprint folds.
 */
module Evidence {
  import opened MachineInts
  import Fnv

  // ---------------------------------------------------------------------------------------
  // Declarations
  // ---------------------------------------------------------------------------------------

  /** Text or pattern bytes; a size fits the 64-bit size field. */
  type Bytes = s: seq<u8> | |s| < TWO_64

  datatype Encoding = Utf8 | Utf16le {
    function Code(): (r: u8) { if Utf8? then 0 else 1 }
  }

  datatype XrefReturn = ReferencingInstruction | EnclosingFunction | StringPointerSlot {
    function Code(): (r: u8) {
      match this case ReferencingInstruction => 0 case EnclosingFunction => 1 case StringPointerSlot => 2
    }
  }

  datatype OperandKind = Immediate | MemoryDisplacement {
    function Code(): (r: u8) { if Immediate? then 0 else 1 }
  }

  datatype Pages = Readable | Executable {
    function Code(): (r: u8) { if Readable? then 0 else 1 }
  }

  /** The scan facets of a string reference: how the sweep runs, not which literal it finds. */
  datatype Facets = Facets(returnMode: XrefReturn, requireTerminator: bool, broadMatch: bool)

  /** One rung of a candidate ladder, with its compiled pattern bytes and mask. */
  datatype Candidate =
    | Direct(bytes: Bytes, mask: Bytes, offset: u64, walkBack: i64)
    | RipRelative(bytes: Bytes, mask: Bytes, offset: u64, displacementAt: i64, instructionLength: u64)
    | RttiVtable(mangled: Bytes)
    | StringRung(text: Bytes, encoding: Encoding, facets: Facets)

  type Ladder = s: seq<Candidate> | |s| < TWO_64

  /** What each anchor kind declares. Quorum evidence is its members' (see Fingerprint). */
  datatype Anchor =
    | VtableIdentity(mangled: Bytes)
    | RipGlobal(site: Ladder, pages: Pages)
    | CodeOperand(site: Ladder, operandKind: OperandKind, operandIndex: u8, byteWidth: u8)
    | StringXref(text: Bytes, encoding: Encoding, facets: Facets)
    | Manual(manualValue: i64)
    | CallArgHome
    | Quorum
    | ExportName(exportModule: Bytes, exportName: Bytes)
    | Unset
  {
    /** The enumerator value of the anchor's kind. */
    function KindCode(): (r: u8) {
      match this
      case VtableIdentity(_) => 0
      case RipGlobal(_, _) => 1
      case CodeOperand(_, _, _, _) => 2
      case StringXref(_, _, _) => 3
      case Manual(_) => 4
      case CallArgHome => 5
      case Quorum => 6
      case ExportName(_, _) => 7
      case Unset => 8
    }
  }

  // ---------------------------------------------------------------------------------------
  // The folded stream
  // ---------------------------------------------------------------------------------------

  /** A folded field: a byte, a 64-bit word, or a length-prefixed run of bytes. */
  datatype Item = Byte(b: u8) | Word(w: u64) | Run(data: Bytes)

  function Flag(b: bool): (r: Item) { Byte(if b then 1 else 0) }

  function Signed(v: i64): (r: Item) { Word(Wrap64(v)) }

  function ItemBytes(item: Item): (r: seq<u8>)
  {
    match item
    case Byte(b) => [b]
    case Word(w) => Fnv.LittleEndian(w, 8)
    case Run(data) => Fnv.LittleEndian(|data|, 8) + data
  }

  function Stream(items: seq<Item>): (r: seq<u8>)
  {
    if items == [] then [] else ItemBytes(items[0]) + Stream(items[1..])
  }

  function FacetItems(f: Facets): (r: seq<Item>)
  {
    [Byte(f.returnMode.Code()), Flag(f.requireTerminator), Flag(f.broadMatch)]
  }

  function CandidateItems(c: Candidate): (r: seq<Item>)
  {
    match c
    case Direct(bytes, mask, offset, walkBack) =>
      [Byte(0), Run(bytes), Run(mask), Word(offset), Signed(walkBack)]
    case RipRelative(bytes, mask, offset, at, length) =>
      [Byte(1), Run(bytes), Run(mask), Word(offset), Signed(at), Word(length)]
    case RttiVtable(mangled) =>
      [Byte(2), Run(mangled)]
    case StringRung(text, encoding, facets) =>
      [Byte(3), Run(text), Byte(encoding.Code())] + FacetItems(facets)
  }

  function CandidateBytes(c: Candidate): (r: seq<u8>)
  {
    Stream(CandidateItems(c))
  }

  function RungBytes(site: seq<Candidate>): (r: seq<u8>)
  {
    if site == [] then [] else CandidateBytes(site[0]) + RungBytes(site[1..])
  }

  function CascadeBytes(site: Ladder): (r: seq<u8>)
  {
    Fnv.LittleEndian(|site|, 8) + RungBytes(site)
  }

  /** Everything folded after the kind byte; a default page class adds nothing (legacy baselines). */
  function BodyBytes(a: Anchor): (r: seq<u8>)
  {
    match a
    case VtableIdentity(mangled) => Stream([Run(mangled)])
    case RipGlobal(site, pages) =>
      CascadeBytes(site) + (if pages.Readable? then [] else [pages.Code()])
    case CodeOperand(site, kind, index, width) => CascadeBytes(site) + [kind.Code(), index, width]
    case StringXref(text, encoding, facets) =>
      Stream([Run(text), Byte(encoding.Code())] + FacetItems(facets))
    case ExportName(mod, name) => Stream([Run(mod), Run(name)])
    case Manual(value) => Stream([Signed(value)])
    case CallArgHome => []
    case Quorum => []
    case Unset => []
  }

  function EvidenceBytes(a: Anchor): (r: seq<u8>)
  {
    [a.KindCode()] + BodyBytes(a)
  }

  function EvidenceHash(a: Anchor): (r: u64)
  {
    Fnv.Fold(Fnv.OFFSET_BASIS, EvidenceBytes(a))
  }

  // ---------------------------------------------------------------------------------------
  // The stream byte by byte, as stored baselines rely on it
  // ---------------------------------------------------------------------------------------

  /** A length-prefixed run. */
  function Prefixed(data: Bytes): (r: seq<u8>)
  {
    Fnv.LittleEndian(|data|, 8) + data
  }

  lemma StreamFirst(item: Item, rest: seq<Item>)
    ensures Stream([item] + rest) == ItemBytes(item) + Stream(rest)
  {
    assert ([item] + rest)[1..] == rest;
  }

  lemma StreamThree(a: Item, b: Item, c: Item)
    ensures Stream([a, b, c]) == ItemBytes(a) + ItemBytes(b) + ItemBytes(c)
  {
    StreamFirst(a, [b, c]);
    StreamFirst(b, [c]);
    StreamFirst(c, []);
    assert [a] + [b, c] == [a, b, c] && [b] + [c] == [b, c] && [c] + [] == [c];
  }

  lemma {:induction false} StreamConcat(x: seq<Item>, y: seq<Item>)
    ensures Stream(x + y) == Stream(x) + Stream(y)
    decreases |x|
  {
    if x == [] {
      assert x + y == y;
    } else {
      assert (x + y)[0] == x[0] && (x + y)[1..] == x[1..] + y;
      StreamConcat(x[1..], y);
    }
  }

  lemma FacetFormat(f: Facets)
    ensures Stream(FacetItems(f)) ==
            [if f.returnMode.StringPointerSlot? then 2 else if f.returnMode.EnclosingFunction? then 1 else 0,
             if f.requireTerminator then 1 else 0, if f.broadMatch then 1 else 0]
  {
    StreamThree(Byte(f.returnMode.Code()), Flag(f.requireTerminator), Flag(f.broadMatch));
  }

  lemma PatternFormat(tag: u8, bytes: Bytes, mask: Bytes, offset: u64, at: i64)
    ensures Stream([Byte(tag), Run(bytes), Run(mask), Word(offset), Signed(at)]) ==
            [tag] + Prefixed(bytes) + Prefixed(mask) + Fnv.LittleEndian(offset, 8) + Fnv.SignedBytes(at)
  {
    StreamThree(Byte(tag), Run(bytes), Run(mask));
    StreamFirst(Word(offset), [Signed(at)]);
    StreamFirst(Signed(at), []);
    assert [Word(offset)] + [Signed(at)] == [Word(offset), Signed(at)] && [Signed(at)] + [] == [Signed(at)];
    StreamConcat([Byte(tag), Run(bytes), Run(mask)], [Word(offset), Signed(at)]);
    assert [Byte(tag), Run(bytes), Run(mask)] + [Word(offset), Signed(at)] ==
           [Byte(tag), Run(bytes), Run(mask), Word(offset), Signed(at)];
  }

  lemma LiteralFormat(text: Bytes, encoding: Encoding, f: Facets)
    ensures Stream([Run(text), Byte(encoding.Code())] + FacetItems(f)) ==
            Prefixed(text) + [if encoding.Utf16le? then 1 else 0] + Stream(FacetItems(f))
  {
    StreamFirst(Run(text), [Byte(encoding.Code())]);
    StreamFirst(Byte(encoding.Code()), []);
    assert [Run(text)] + [Byte(encoding.Code())] == [Run(text), Byte(encoding.Code())];
    assert [Byte(encoding.Code())] + [] == [Byte(encoding.Code())];
    StreamConcat([Run(text), Byte(encoding.Code())], FacetItems(f));
  }

  lemma RipFormat(bytes: Bytes, mask: Bytes, offset: u64, at: i64, length: u64)
    ensures Stream([Byte(1), Run(bytes), Run(mask), Word(offset), Signed(at), Word(length)]) ==
            [1] + Prefixed(bytes) + Prefixed(mask) + Fnv.LittleEndian(offset, 8) + Fnv.SignedBytes(at)
            + Fnv.LittleEndian(length, 8)
  {
    var head := [Byte(1), Run(bytes), Run(mask), Word(offset), Signed(at)];
    PatternFormat(1, bytes, mask, offset, at);
    StreamConcat(head, [Word(length)]);
    StreamFirst(Word(length), []);
    assert [Word(length)] + [] == [Word(length)];
    assert head + [Word(length)] == [Byte(1), Run(bytes), Run(mask), Word(offset), Signed(at), Word(length)];
  }

  lemma VtableFormat(mangled: Bytes)
    ensures Stream([Byte(2), Run(mangled)]) == [2] + Prefixed(mangled)
  {
    StreamFirst(Byte(2), [Run(mangled)]);
    StreamFirst(Run(mangled), []);
    assert [Run(mangled)] + [] == [Run(mangled)] && [Byte(2)] + [Run(mangled)] == [Byte(2), Run(mangled)];
  }

  lemma StringRungFormat(text: Bytes, encoding: Encoding, facets: Facets)
    ensures Stream([Byte(3), Run(text), Byte(encoding.Code())] + FacetItems(facets)) ==
            [3] + Prefixed(text) + [if encoding.Utf16le? then 1 else 0] + Stream(FacetItems(facets))
  {
    var rest := [Run(text), Byte(encoding.Code())] + FacetItems(facets);
    StreamFirst(Byte(3), rest);
    LiteralFormat(text, encoding, facets);
    assert [Byte(3), Run(text), Byte(encoding.Code())] + FacetItems(facets) == [Byte(3)] + rest;
  }

  /** The bytes of a rung. */
  lemma CandidateFormat(c: Candidate)
    ensures CandidateBytes(c) ==
            match c
            case Direct(bytes, mask, offset, walkBack) =>
              [0] + Prefixed(bytes) + Prefixed(mask) + Fnv.LittleEndian(offset, 8) + Fnv.SignedBytes(walkBack)
            case RipRelative(bytes, mask, offset, at, length) =>
              [1] + Prefixed(bytes) + Prefixed(mask) + Fnv.LittleEndian(offset, 8) + Fnv.SignedBytes(at)
              + Fnv.LittleEndian(length, 8)
            case RttiVtable(mangled) => [2] + Prefixed(mangled)
            case StringRung(text, encoding, facets) =>
              [3] + Prefixed(text) + [if encoding.Utf16le? then 1 else 0] + Stream(FacetItems(facets))
  {
    match c
    case Direct(bytes, mask, offset, walkBack) => PatternFormat(0, bytes, mask, offset, walkBack);
    case RipRelative(bytes, mask, offset, at, length) => RipFormat(bytes, mask, offset, at, length);
    case RttiVtable(mangled) => VtableFormat(mangled);
    case StringRung(text, encoding, facets) => StringRungFormat(text, encoding, facets);
  }

  /** The bytes of an anchor; an executable page scope is one byte at the end, so older baselines are unaffected. */
  lemma EvidenceFormat(a: Anchor)
    ensures EvidenceBytes(a)[0] ==
            match a
            case VtableIdentity(_) => 0
            case RipGlobal(_, _) => 1
            case CodeOperand(_, _, _, _) => 2
            case StringXref(_, _, _) => 3
            case Manual(_) => 4
            case CallArgHome => 5
            case Quorum => 6
            case ExportName(_, _) => 7
            case Unset => 8
    ensures EvidenceBytes(a)[1..] ==
            match a
            case VtableIdentity(mangled) => Prefixed(mangled)
            case RipGlobal(site, pages) => CascadeBytes(site) + if pages.Executable? then [1] else []
            case CodeOperand(site, kind, index, width) =>
              CascadeBytes(site) + [if kind.MemoryDisplacement? then 1 else 0, index, width]
            case StringXref(text, encoding, facets) =>
              Prefixed(text) + [if encoding.Utf16le? then 1 else 0] + Stream(FacetItems(facets))
            case Manual(value) => Fnv.SignedBytes(value)
            case CallArgHome => []
            case Quorum => []
            case ExportName(mod, name) => Prefixed(mod) + Prefixed(name)
            case Unset => []
  {
    match a
    case VtableIdentity(mangled) =>
      StreamFirst(Run(mangled), []);
      assert [Run(mangled)] + [] == [Run(mangled)];
    case StringXref(text, encoding, facets) =>
      LiteralFormat(text, encoding, facets);
    case Manual(value) =>
      StreamFirst(Signed(value), []);
      assert [Signed(value)] + [] == [Signed(value)];
    case ExportName(mod, name) =>
      StreamFirst(Run(mod), [Run(name)]);
      StreamFirst(Run(name), []);
      assert [Run(mod)] + [Run(name)] == [Run(mod), Run(name)] && [Run(name)] + [] == [Run(name)];
    case _ =>
  }

  // ---------------------------------------------------------------------------------------
  // The stream is unambiguous: the length prefixes keep adjacent fields apart
  // ---------------------------------------------------------------------------------------

  predicate SameShape(x: seq<Item>, y: seq<Item>)
  {
    && |x| == |y|
    && forall i :: 0 <= i < |x| ==> x[i].Byte? == y[i].Byte? && x[i].Word? == y[i].Word?
  }

  lemma SplitConcat<T>(a: seq<T>, r: seq<T>, b: seq<T>, s: seq<T>)
    requires a + r == b + s && |a| == |b|
    ensures a == b && r == s
  {
    assert a == (a + r)[..|a|] && b == (b + s)[..|a|];
    assert r == (a + r)[|a|..] && s == (b + s)[|a|..];
  }

  lemma Reassociate<T>(a: seq<T>, b: seq<T>, c: seq<T>)
    ensures (a + b) + c == a + (b + c)
  {
  }

  lemma WordUnambiguous(x: u64, y: u64)
    requires Fnv.LittleEndian(x, 8) == Fnv.LittleEndian(y, 8)
    ensures x == y
  {
    assert Fnv.Pow256(4) == TWO_32;
    assert Fnv.Pow256(8) == TWO_64;
    Fnv.LittleEndianInjective(x, y, 8);
  }

  lemma ItemUnambiguous(x: Item, y: Item, r: seq<u8>, s: seq<u8>)
    requires x.Byte? == y.Byte? && x.Word? == y.Word?
    requires ItemBytes(x) + r == ItemBytes(y) + s
    ensures x == y && r == s
  {
    match x
    case Byte(_) =>
      SplitConcat(ItemBytes(x), r, ItemBytes(y), s);
    case Word(w) =>
      SplitConcat(ItemBytes(x), r, ItemBytes(y), s);
      WordUnambiguous(w, y.w);
    case Run(data) =>
      RunUnambiguous(data, y.data, r, s);
  }

  lemma RunUnambiguous(x: Bytes, y: Bytes, r: seq<u8>, s: seq<u8>)
    requires ItemBytes(Run(x)) + r == ItemBytes(Run(y)) + s
    ensures x == y && r == s
  {
    var px, py := Fnv.LittleEndian(|x|, 8), Fnv.LittleEndian(|y|, 8);
    Reassociate(px, x, r);
    Reassociate(py, y, s);
    SplitConcat(px, x + r, py, y + s);
    WordUnambiguous(|x|, |y|);
    SplitConcat(x, r, y, s);
  }

  lemma {:induction false} StreamUnambiguous(x: seq<Item>, y: seq<Item>, r: seq<u8>, s: seq<u8>)
    requires SameShape(x, y)
    requires Stream(x) + r == Stream(y) + s
    ensures x == y && r == s
    decreases |x|
  {
    if x != [] {
      Reassociate(ItemBytes(x[0]), Stream(x[1..]), r);
      Reassociate(ItemBytes(y[0]), Stream(y[1..]), s);
      ItemUnambiguous(x[0], y[0], Stream(x[1..]) + r, Stream(y[1..]) + s);
      StreamUnambiguous(x[1..], y[1..], r, s);
      assert x == [x[0]] + x[1..] && y == [y[0]] + y[1..];
    } else {
      assert r == [] + r && s == [] + s;
    }
  }

  lemma SignedUnambiguous(x: i64, y: i64)
    requires Wrap64(x) == Wrap64(y)
    ensures x == y
  {
  }

  lemma FirstByte(c: Candidate, r: seq<u8>)
    ensures |Stream(CandidateItems(c)) + r| > 0
    ensures (Stream(CandidateItems(c)) + r)[0] == CandidateItems(c)[0].b
  {
    assert Stream(CandidateItems(c)) == ItemBytes(CandidateItems(c)[0]) + Stream(CandidateItems(c)[1..]);
  }

  lemma CandidateUnambiguous(c: Candidate, d: Candidate, r: seq<u8>, s: seq<u8>)
    requires CandidateBytes(c) + r == CandidateBytes(d) + s
    ensures c == d && r == s
  {
    FirstByte(c, r);
    FirstByte(d, s);
    RunBody(CandidateItems(c), CandidateItems(d), r, s);
    CandidateFromItems(c, d);
  }

  lemma CandidateFromItems(c: Candidate, d: Candidate)
    requires |CandidateItems(c)| == |CandidateItems(d)|
    requires forall i :: 0 <= i < |CandidateItems(c)| ==> CandidateItems(c)[i] == CandidateItems(d)[i]
    ensures c == d
  {
    var x, y := CandidateItems(c), CandidateItems(d);
    assert x[0] == y[0] && x[1] == y[1];
    match c
    case Direct(_, _, _, walkBack) =>
      assert x[2] == y[2] && x[3] == y[3] && x[4] == y[4];
      SignedUnambiguous(walkBack, d.walkBack);
    case RipRelative(_, _, _, at, _) =>
      assert x[2] == y[2] && x[3] == y[3] && x[4] == y[4] && x[5] == y[5];
      SignedUnambiguous(at, d.displacementAt);
    case RttiVtable(_) =>
    case StringRung(_, _, _) =>
      assert x[2] == y[2] && x[3] == y[3] && x[4] == y[4] && x[5] == y[5];
  }

  lemma {:induction false} RungsUnambiguous(c: seq<Candidate>, d: seq<Candidate>, r: seq<u8>, s: seq<u8>)
    requires |c| == |d|
    requires RungBytes(c) + r == RungBytes(d) + s
    ensures c == d && r == s
    decreases |c|
  {
    if c != [] {
      Reassociate(CandidateBytes(c[0]), RungBytes(c[1..]), r);
      Reassociate(CandidateBytes(d[0]), RungBytes(d[1..]), s);
      CandidateUnambiguous(c[0], d[0], RungBytes(c[1..]) + r, RungBytes(d[1..]) + s);
      RungsUnambiguous(c[1..], d[1..], r, s);
      assert c == [c[0]] + c[1..] && d == [d[0]] + d[1..];
    } else {
      assert r == [] + r && s == [] + s;
    }
  }

  lemma CascadeUnambiguous(c: Ladder, d: Ladder, r: seq<u8>, s: seq<u8>)
    requires CascadeBytes(c) + r == CascadeBytes(d) + s
    ensures c == d && r == s
  {
    var pc, pd := Fnv.LittleEndian(|c|, 8), Fnv.LittleEndian(|d|, 8);
    Reassociate(pc, RungBytes(c), r);
    Reassociate(pd, RungBytes(d), s);
    SplitConcat(pc, RungBytes(c) + r, pd, RungBytes(d) + s);
    WordUnambiguous(|c|, |d|);
    RungsUnambiguous(c, d, r, s);
  }

  /**
   Two anchors fold the same stream only if they declare the same evidence: every field of the
   declaration reaches the fingerprint and no two fields can run into one another.
   */
  lemma EvidenceUnambiguous(a: Anchor, b: Anchor)
    ensures EvidenceBytes(a) == EvidenceBytes(b) <==> a == b
  {
    if EvidenceBytes(a) == EvidenceBytes(b) {
      assert EvidenceBytes(a) + [] == EvidenceBytes(a) && EvidenceBytes(b) + [] == EvidenceBytes(b);
      EvidencePrefix(a, b, [], []);
    }
  }

  /**
   Evidence followed by more data is still unambiguous, as long as the lengths of what follows
   agree modulo the word size: the optional page-class byte is the only unaligned ending.
   */
  lemma EvidencePrefix(a: Anchor, b: Anchor, r: seq<u8>, s: seq<u8>)
    requires EvidenceBytes(a) + r == EvidenceBytes(b) + s
    requires |r| % 8 == |s| % 8
    ensures a == b && r == s
  {
    Reassociate([a.KindCode()], BodyBytes(a), r);
    Reassociate([b.KindCode()], BodyBytes(b), s);
    SplitConcat([a.KindCode()], BodyBytes(a) + r, [b.KindCode()], BodyBytes(b) + s);
    assert [a.KindCode()][0] == [b.KindCode()][0];
    match a
    case VtableIdentity(mangled) =>
      RunBody([Run(mangled)], [Run(b.mangled)], r, s);
    case RipGlobal(_, _) =>
      RipGlobalBody(a, b, r, s);
    case CodeOperand(_, _, _, _) =>
      CodeOperandBody(a, b, r, s);
    case StringXref(_, _, _) =>
      StringXrefBody(a, b, r, s);
    case ExportName(mod, name) =>
      RunBody([Run(mod), Run(name)], [Run(b.exportModule), Run(b.exportName)], r, s);
    case Manual(value) =>
      RunBody([Signed(value)], [Signed(b.manualValue)], r, s);
      SignedUnambiguous(value, b.manualValue);
    case CallArgHome => assert r == [] + r && s == [] + s;
    case Quorum => assert r == [] + r && s == [] + s;
    case Unset => assert r == [] + r && s == [] + s;
  }

  lemma RunBody(x: seq<Item>, y: seq<Item>, r: seq<u8>, s: seq<u8>)
    requires SameShape(x, y)
    requires Stream(x) + r == Stream(y) + s
    ensures |x| == |y| && r == s
    ensures forall i :: 0 <= i < |x| ==> x[i] == y[i]
  {
    StreamUnambiguous(x, y, r, s);
  }

  lemma RipGlobalBody(a: Anchor, b: Anchor, r: seq<u8>, s: seq<u8>)
    requires a.RipGlobal? && b.RipGlobal?
    requires BodyBytes(a) + r == BodyBytes(b) + s
    requires |r| % 8 == |s| % 8
    ensures a == b && r == s
  {
    var t: seq<u8> := if a.pages.Readable? then [] else [a.pages.Code()];
    var u: seq<u8> := if b.pages.Readable? then [] else [b.pages.Code()];
    Reassociate(CascadeBytes(a.site), t, r);
    Reassociate(CascadeBytes(b.site), u, s);
    CascadeUnambiguous(a.site, b.site, t + r, u + s);
    assert |t + r| == |t| + |r| && |u + s| == |u| + |s|;
    SplitConcat(t, r, u, s);
  }

  lemma StringXrefBody(a: Anchor, b: Anchor, r: seq<u8>, s: seq<u8>)
    requires a.StringXref? && b.StringXref?
    requires BodyBytes(a) + r == BodyBytes(b) + s
    ensures a == b && r == s
  {
    var x := [Run(a.text), Byte(a.encoding.Code())] + FacetItems(a.facets);
    var y := [Run(b.text), Byte(b.encoding.Code())] + FacetItems(b.facets);
    RunBody(x, y, r, s);
    assert x[0] == y[0] && x[1] == y[1] && x[2] == y[2] && x[3] == y[3] && x[4] == y[4];
  }

  lemma CodeOperandBody(a: Anchor, b: Anchor, r: seq<u8>, s: seq<u8>)
    requires a.CodeOperand? && b.CodeOperand?
    requires BodyBytes(a) + r == BodyBytes(b) + s
    ensures a == b && r == s
  {
    var t: seq<u8> := [a.operandKind.Code(), a.operandIndex, a.byteWidth];
    var u: seq<u8> := [b.operandKind.Code(), b.operandIndex, b.byteWidth];
    Reassociate(CascadeBytes(a.site), t, r);
    Reassociate(CascadeBytes(b.site), u, s);
    CascadeUnambiguous(a.site, b.site, t + r, u + s);
    SplitConcat(t, r, u, s);
    assert t[0] == u[0] && t[1] == u[1] && t[2] == u[2];
  }
}
