/**
 The records of a manifest and the keys of their sections.

 A section is seen as a lookup from keys to typed fields; the text under each key is produced and read by
 the codec of ManifestCodec. Keys are symbols here; their spellings are fixed and distinct.
 */
module ManifestRecords {
  import opened MachineInts
  import opened Options
  import opened Evidence
  import opened DriftGate
  import opened ManifestTokens

  /** One ladder rung in text form. */
  datatype Spec = Spec(
    name: string,
    mode: Mode,
    pattern: string,
    walkBack: i64,
    displacementAt: i64,
    instructionLength: u64,
    mangled: string,
    text: string,
    encoding: Encoding,
    target: XrefReturn,
    terminated: bool,
    broad: bool)

  /** One signature record with everything a section can hold. */
  datatype Record = Record(
    name: string,
    kind: Kind,
    owner: string,
    ladder: seq<Spec>,
    mangled: string,
    operandKind: OperandKind,
    operandIndex: u8,
    byteWidth: u8,
    xrefText: string,
    xrefEncoding: Encoding,
    xrefReturns: XrefReturn,
    xrefTerminated: bool,
    xrefBroad: bool,
    manual: i64,
    binding: Binding,
    fingerprint: u64,
    pages: Pages,
    exportName: string)

  const NoXmm: u8 := 0xFF
  const PlainBinding: Binding := Binding(Address, [], 8, 0, NoXmm, 0)
  const BlankSpec: Spec := Spec("", ByPattern, "", 0, 0, 0, "", "", Utf8, ReferencingInstruction, true, false)

  function BlankRecord(name: string, kind: Kind): (r: Record)
  {
    Record(name, kind, "", [], "", Immediate, 0, 0, "", Utf8, ReferencingInstruction, true, false, 0,
           PlainBinding, 0, Readable, "")
  }

  /** What a field holds that no key sets: the string ends at its terminator, eight bytes are read, no xmm register. */
  lemma DefaultsSpelled(name: string, kind: Kind)
    ensures var r := BlankRecord(name, kind);
            && r.name == name && r.kind == kind && r.owner == r.mangled == r.xrefText == r.exportName == ""
            && r.ladder == [] && r.operandKind == Immediate && r.operandIndex == 0 && r.byteWidth == 0
            && r.xrefEncoding == Utf8 && r.xrefReturns == ReferencingInstruction && r.xrefTerminated && !r.xrefBroad
            && r.manual == 0 && r.fingerprint == 0 && r.pages == Readable
    ensures var b := BlankRecord(name, kind).binding;
            && b.kind == Address && b.offsets == [] && b.valueWidth == 8 && b.readRegister == 0
            && b.xmmIndex == 255 && b.vmtIndex == 0
    ensures BlankSpec.terminated && !BlankSpec.broad && BlankSpec.encoding == Utf8
    ensures BlankSpec.target == ReferencingInstruction
    ensures BlankSpec.walkBack == BlankSpec.displacementAt == BlankSpec.instructionLength == 0
  {
  }

  datatype Key =
    | KSchema | KRevision
    | KKind | KModule | KBinding | KOffsets | KValueWidth | KRegister | KXmm | KVmt | KFingerprint
    | KMangled | KOperandKind | KOperandIndex | KByteWidth
    | KText | KEncoding | KReturns | KTerminator | KBroad | KManual | KPages | KExport
    | KMode | KName | KPattern | KWalkBack | KDisplacement | KLength

  datatype Field =
    | FKind(kind: Kind) | FMode(mode: Mode) | FBinding(binding: BindingKind) | FOperand(operand: OperandKind)
    | FEncoding(encoding: Encoding) | FReturns(target: XrefReturn) | FPages(pages: Pages)
    | FText(text: string) | FBool(flag: bool) | FByte(byte: u8) | FRegister(register: u8)
    | FUnsigned(word: u64) | FSigned(number: i64) | FOffsets(offsets: seq<i64>)

  /** What a section has under a key. */
  datatype Lookup = Absent | Unreadable | Present(field: Field)

  type Fields = Key -> Lookup

  function Written(b: bool, f: Field): (r: Lookup)
  {
    if b then Present(f) else Absent
  }

  /** A section's text. */
  type Keys = map<Key, string>

  // Reading one key: absent keys give the default, unreadable or ill-typed ones fail.

  function TextOr(l: Lookup, default: string): (r: Option<string>)
  {
    if l.Absent? then Some(default) else if l.Present? && l.field.FText? then Some(l.field.text) else None
  }

  function FlagOr(l: Lookup, default: bool): (r: Option<bool>)
  {
    if l.Absent? then Some(default) else if l.Present? && l.field.FBool? then Some(l.field.flag) else None
  }

  function ByteOr(l: Lookup, default: u8): (r: Option<u8>)
  {
    if l.Absent? then Some(default) else if l.Present? && l.field.FByte? then Some(l.field.byte) else None
  }

  function WordOr(l: Lookup, default: u64): (r: Option<u64>)
  {
    if l.Absent? then Some(default) else if l.Present? && l.field.FUnsigned? then Some(l.field.word) else None
  }

  function NumberOr(l: Lookup, default: i64): (r: Option<i64>)
  {
    if l.Absent? then Some(default) else if l.Present? && l.field.FSigned? then Some(l.field.number) else None
  }

  function EncodingOr(l: Lookup, default: Encoding): (r: Option<Encoding>)
  {
    if l.Absent? then Some(default) else if l.Present? && l.field.FEncoding? then Some(l.field.encoding) else None
  }

  function TargetOr(l: Lookup, default: XrefReturn): (r: Option<XrefReturn>)
  {
    if l.Absent? then Some(default) else if l.Present? && l.field.FReturns? then Some(l.field.target) else None
  }

  // Rungs.

  predicate ValidLayout(displacementAt: i64, instructionLength: u64)
  {
    0 <= displacementAt <= instructionLength && instructionLength <= 15 && instructionLength - displacementAt >= 4
  }

  /** A rung the parser accepts. */
  predicate ValidSpec(s: Spec)
  {
    s.mode.ByRip? ==> ValidLayout(s.displacementAt, s.instructionLength)
  }

  /** What serialising a rung writes under each key. */
  function SpecField(s: Spec, k: Key): (l: Lookup)
  {
    match k
    case KMode => Present(FMode(s.mode))
    case KName => Written(s.name != "", FText(s.name))
    case KPattern => Written(s.mode.ByPattern? || s.mode.ByRip?, FText(s.pattern))
    case KWalkBack => Written(s.mode.ByPattern? && s.walkBack != 0, FSigned(s.walkBack))
    case KDisplacement => Written(s.mode.ByRip?, FSigned(s.displacementAt))
    case KLength => Written(s.mode.ByRip?, FUnsigned(s.instructionLength))
    case KMangled => Written(s.mode.ByRtti?, FText(s.mangled))
    case KText => Written(s.mode.ByString?, FText(s.text))
    case KEncoding => Written(s.mode.ByString?, FEncoding(s.encoding))
    case KReturns => Written(s.mode.ByString?, FReturns(s.target))
    case KTerminator => Written(s.mode.ByString?, FBool(s.terminated))
    case KBroad => Written(s.mode.ByString?, FBool(s.broad))
    case _ => Absent
  }

  function ReadPatternSpec(get: Fields, base: Spec): (r: Option<Spec>)
  {
    var pattern := TextOr(get(KPattern), "");
    var walk := NumberOr(get(KWalkBack), 0);
    var disp := NumberOr(get(KDisplacement), 0);
    var length := WordOr(get(KLength), 0);
    if get(KPattern).Absent? || pattern.None? || walk.None? || disp.None? || length.None? then None
    else if base.mode.ByRip?
            && (get(KDisplacement).Absent? || get(KLength).Absent? || !ValidLayout(disp.value, length.value)) then None
    else
      Some(base.(pattern := pattern.value, walkBack := walk.value, displacementAt := disp.value,
                 instructionLength := length.value))
  }

  function ReadRttiSpec(get: Fields, base: Spec): (r: Option<Spec>)
  {
    var mangled := TextOr(get(KMangled), "");
    if get(KMangled).Absent? || mangled.None? then None else Some(base.(mangled := mangled.value))
  }

  function ReadStringSpec(get: Fields, base: Spec): (r: Option<Spec>)
  {
    var text := TextOr(get(KText), "");
    var encoding := EncodingOr(get(KEncoding), Utf8);
    var target := TargetOr(get(KReturns), ReferencingInstruction);
    var terminated := FlagOr(get(KTerminator), true);
    var broad := FlagOr(get(KBroad), false);
    if get(KText).Absent? || text.None? || encoding.None? || target.None? || terminated.None? || broad.None? then None
    else
      Some(base.(text := text.value, encoding := encoding.value, target := target.value,
                 terminated := terminated.value, broad := broad.value))
  }

  function ReadSpec(get: Fields): (r: Option<Spec>)
  {
    var name := TextOr(get(KName), "");
    if name.None? || !get(KMode).Present? || !get(KMode).field.FMode? then None
    else
      ReadSpecBody(get, BlankSpec.(name := name.value, mode := get(KMode).field.mode))
  }

  function ReadSpecBody(get: Fields, base: Spec): (r: Option<Spec>)
  {
    match base.mode
    case ByPattern => ReadPatternSpec(get, base)
    case ByRip => ReadPatternSpec(get, base)
    case ByRtti => ReadRttiSpec(get, base)
    case ByString => ReadStringSpec(get, base)
  }

  /** The rung with the fields its mode does not use at their defaults. */
  function NormalSpec(s: Spec): (r: Spec)
  {
    var base := BlankSpec.(name := s.name, mode := s.mode);
    match s.mode
    case ByPattern => base.(pattern := s.pattern, walkBack := s.walkBack)
    case ByRip => base.(pattern := s.pattern, displacementAt := s.displacementAt,
                        instructionLength := s.instructionLength)
    case ByRtti => base.(mangled := s.mangled)
    case ByString =>
      base.(text := s.text, encoding := s.encoding, target := s.target, terminated := s.terminated, broad := s.broad)
  }

  lemma PatternPartReads(get: Fields, base: Spec, pattern: string, walk: i64)
    requires base.mode.ByPattern?
    requires get(KPattern) == Present(FText(pattern)) && get(KWalkBack) == Written(walk != 0, FSigned(walk))
    requires get(KDisplacement).Absent? && get(KLength).Absent?
    ensures ReadPatternSpec(get, base) ==
            Some(base.(pattern := pattern, walkBack := walk, displacementAt := 0, instructionLength := 0))
  {
  }

  lemma RipPartReads(get: Fields, base: Spec, pattern: string, disp: i64, length: u64)
    requires base.mode.ByRip?
    requires get(KPattern) == Present(FText(pattern)) && get(KWalkBack).Absent?
    requires get(KDisplacement) == Present(FSigned(disp)) && get(KLength) == Present(FUnsigned(length))
    ensures ReadPatternSpec(get, base) ==
            if ValidLayout(disp, length)
            then Some(base.(pattern := pattern, walkBack := 0, displacementAt := disp, instructionLength := length))
            else None
  {
  }

  lemma ReadSpecStarts(get: Fields, name: string, mode: Mode)
    requires get(KName) == Written(name != "", FText(name)) && get(KMode) == Present(FMode(mode))
    ensures ReadSpec(get) == ReadSpecBody(get, BlankSpec.(name := name, mode := mode))
  {
  }

  lemma DirectBodyReads(s: Spec, get: Fields)
    requires s.mode.ByPattern?
    requires get(KPattern) == SpecField(s, KPattern) && get(KWalkBack) == SpecField(s, KWalkBack)
    requires get(KDisplacement) == SpecField(s, KDisplacement) && get(KLength) == SpecField(s, KLength)
    ensures ReadPatternSpec(get, BlankSpec.(name := s.name, mode := s.mode)) == Some(NormalSpec(s))
  {
    PatternPartReads(get, BlankSpec.(name := s.name, mode := s.mode), s.pattern, s.walkBack);
  }

  lemma RipBodyReads(s: Spec, get: Fields)
    requires s.mode.ByRip?
    requires get(KPattern) == SpecField(s, KPattern) && get(KWalkBack) == SpecField(s, KWalkBack)
    requires get(KDisplacement) == SpecField(s, KDisplacement) && get(KLength) == SpecField(s, KLength)
    ensures ReadPatternSpec(get, BlankSpec.(name := s.name, mode := s.mode)) ==
            if ValidSpec(s) then Some(NormalSpec(s)) else None
  {
    RipPartReads(get, BlankSpec.(name := s.name, mode := s.mode), s.pattern, s.displacementAt, s.instructionLength);
  }

  /** Reading what a rung writes gives the rung back, unused fields aside, exactly when its layout is valid. */
  lemma SpecReads(s: Spec, get: Fields)
    requires forall k :: get(k) == SpecField(s, k)
    ensures ReadSpec(get) == if ValidSpec(s) then Some(NormalSpec(s)) else None
  {
    assert get(KName) == SpecField(s, KName) && get(KMode) == SpecField(s, KMode);
    ReadSpecStarts(get, s.name, s.mode);
    match s.mode
    case ByPattern => DirectBodyReads(s, get);
    case ByRip => RipBodyReads(s, get);
    case ByRtti => assert get(KMangled) == SpecField(s, KMangled);
    case ByString => StringPartReads(s, get, BlankSpec.(name := s.name, mode := s.mode));
  }

  lemma StringPartReads(s: Spec, get: Fields, base: Spec)
    requires s.mode.ByString?
    requires get(KText) == SpecField(s, KText) && get(KEncoding) == SpecField(s, KEncoding)
    requires get(KReturns) == SpecField(s, KReturns) && get(KTerminator) == SpecField(s, KTerminator)
    requires get(KBroad) == SpecField(s, KBroad)
    ensures ReadStringSpec(get, base) ==
            Some(base.(text := s.text, encoding := s.encoding, target := s.target, terminated := s.terminated,
                       broad := s.broad))
  {
  }

  // Records.

  /** What serialising a record writes under each key of its own section. */
  function RecordField(r: Record, k: Key): (l: Lookup)
  {
    var b := r.binding;
    match k
    case KKind => Present(FKind(r.kind))
    case KModule => Written(r.owner != "", FText(r.owner))
    case KBinding => Present(FBinding(b.kind))
    case KOffsets => Written(b.kind.PointerChain?, FOffsets(b.offsets))
    case KValueWidth => Written(b.kind.PointerChain?, FByte(b.valueWidth))
    case KRegister => Written(b.kind.MidHookRegister?, FRegister(RegisterOf(b.readRegister)))
    case KXmm => Written(b.kind.MidHookRegister? && b.xmmIndex != NoXmm, FByte(b.xmmIndex))
    case KVmt => Written(b.kind.VmtMethod?, FUnsigned(b.vmtIndex))
    case KFingerprint => Written(r.fingerprint != 0, FUnsigned(r.fingerprint))
    case KMangled => Written(r.kind.KindVtable?, FText(r.mangled))
    case KOperandKind => Written(r.kind.KindOperand?, FOperand(r.operandKind))
    case KOperandIndex => Written(r.kind.KindOperand?, FByte(r.operandIndex))
    case KByteWidth => Written(r.kind.KindOperand?, FByte(r.byteWidth))
    case KText => Written(r.kind.KindString?, FText(r.xrefText))
    case KEncoding => Written(r.kind.KindString?, FEncoding(r.xrefEncoding))
    case KReturns => Written(r.kind.KindString?, FReturns(r.xrefReturns))
    case KTerminator => Written(r.kind.KindString?, FBool(r.xrefTerminated))
    case KBroad => Written(r.kind.KindString?, FBool(r.xrefBroad))
    case KManual => Written(r.kind.KindManual?, FSigned(r.manual))
    case KPages => Written(r.kind.KindRip? && !r.pages.Readable?, FPages(r.pages))
    case KExport => Written(r.kind.KindExport?, FText(r.exportName))
    case _ => Absent
  }

  /** A register number past the register table is written as the first register. */
  function RegisterOf(r: u8): (n: u8)
  {
    if r < |REGISTERS| then r else 0
  }

  function ReadBinding(get: Fields): (r: Option<Binding>)
  {
    var kind := get(KBinding);
    var offsets := get(KOffsets);
    var width := ByteOr(get(KValueWidth), 8);
    var register := get(KRegister);
    var xmm := ByteOr(get(KXmm), NoXmm);
    var vmt := WordOr(get(KVmt), 0);
    if || kind.Unreadable? || (kind.Present? && !kind.field.FBinding?)
       || offsets.Unreadable? || (offsets.Present? && !(offsets.field.FOffsets? && |offsets.field.offsets| < TWO_64))
       || register.Unreadable? || (register.Present? && !register.field.FRegister?)
       || width.None? || xmm.None? || vmt.None?
    then None
    else
      Some(Binding(if kind.Present? then kind.field.binding else Address,
                   if offsets.Present? then offsets.field.offsets else [],
                   width.value,
                   if register.Present? then register.field.register else 0,
                   xmm.value, vmt.value))
  }

  function ReadOperandFields(get: Fields, base: Record): (r: Option<Record>)
  {
    var kind := get(KOperandKind);
    var index := ByteOr(get(KOperandIndex), 0);
    var width := ByteOr(get(KByteWidth), 0);
    if kind.Unreadable? || (kind.Present? && !kind.field.FOperand?) || index.None? || width.None? then None
    else
      Some(base.(operandKind := if kind.Present? then kind.field.operand else Immediate,
                 operandIndex := index.value, byteWidth := width.value))
  }

  function ReadStringFields(get: Fields, base: Record): (r: Option<Record>)
  {
    var text := TextOr(get(KText), "");
    var encoding := EncodingOr(get(KEncoding), Utf8);
    var target := TargetOr(get(KReturns), ReferencingInstruction);
    var terminated := FlagOr(get(KTerminator), true);
    var broad := FlagOr(get(KBroad), false);
    if text.None? || encoding.None? || target.None? || terminated.None? || broad.None? then None
    else
      Some(base.(xrefText := text.value, xrefEncoding := encoding.value, xrefReturns := target.value,
                 xrefTerminated := terminated.value, xrefBroad := broad.value))
  }

  /** The fields only one kind reads. */
  function ReadKindFields(get: Fields, base: Record): (r: Option<Record>)
  {
    match base.kind
    case KindVtable =>
      var mangled := TextOr(get(KMangled), "");
      if mangled.None? then None else Some(base.(mangled := mangled.value))
    case KindOperand => ReadOperandFields(get, base)
    case KindString => ReadStringFields(get, base)
    case KindManual =>
      var manual := NumberOr(get(KManual), 0);
      if get(KManual).Absent? || manual.None? then None else Some(base.(manual := manual.value))
    case KindRip =>
      var pages := get(KPages);
      if pages.Absent? then Some(base)
      else if pages.Present? && pages.field.FPages? then Some(base.(pages := pages.field.pages)) else None
    case KindExport =>
      var name := TextOr(get(KExport), "");
      if name.None? then None else Some(base.(exportName := name.value))
    case _ => Some(base)
  }

  /** One record's own section; the ladder is attached by the caller. */
  function ReadRecord(name: string, get: Fields): (r: Option<Record>)
  {
    var owner := TextOr(get(KModule), "");
    var binding := ReadBinding(get);
    var fingerprint := WordOr(get(KFingerprint), 0);
    if !get(KKind).Present? || !get(KKind).field.FKind? || owner.None? || binding.None? || fingerprint.None? then None
    else
      ReadKindFields(get, BlankRecord(name, get(KKind).field.kind).(
                       owner := owner.value, binding := binding.value, fingerprint := fingerprint.value))
  }

  function NormalBinding(b: Binding): (r: Binding)
  {
    match b.kind
    case Address => PlainBinding
    case PointerChain => PlainBinding.(kind := b.kind, offsets := b.offsets, valueWidth := b.valueWidth)
    case MidHookRegister => PlainBinding.(kind := b.kind, readRegister := RegisterOf(b.readRegister),
                                          xmmIndex := b.xmmIndex)
    case VmtMethod => PlainBinding.(kind := b.kind, vmtIndex := b.vmtIndex)
  }

  /** The record, without its ladder, with unused fields at their defaults. */
  function NormalFields(r: Record): (n: Record)
  {
    var base := Base(r);
    match r.kind
    case KindVtable => base.(mangled := r.mangled)
    case KindOperand => base.(operandKind := r.operandKind, operandIndex := r.operandIndex, byteWidth := r.byteWidth)
    case KindString =>
      base.(xrefText := r.xrefText, xrefEncoding := r.xrefEncoding, xrefReturns := r.xrefReturns,
            xrefTerminated := r.xrefTerminated, xrefBroad := r.xrefBroad)
    case KindManual => base.(manual := r.manual)
    case KindRip => base.(pages := r.pages)
    case KindExport => base.(exportName := r.exportName)
    case _ => base
  }

  lemma BindingFieldsRead(r: Record, get: Fields)
    requires forall k :: get(k) == RecordField(r, k)
    ensures ReadBinding(get) == Some(NormalBinding(r.binding))
  {
  }

  lemma OperandFieldsRead(r: Record, get: Fields, base: Record)
    requires r.kind.KindOperand? && get(KOperandKind) == RecordField(r, KOperandKind)
    requires get(KOperandIndex) == RecordField(r, KOperandIndex) && get(KByteWidth) == RecordField(r, KByteWidth)
    ensures ReadOperandFields(get, base) ==
            Some(base.(operandKind := r.operandKind, operandIndex := r.operandIndex, byteWidth := r.byteWidth))
  {
  }

  lemma StringFieldsRead(r: Record, get: Fields, base: Record)
    requires r.kind.KindString? && get(KText) == RecordField(r, KText) && get(KEncoding) == RecordField(r, KEncoding)
    requires get(KReturns) == RecordField(r, KReturns) && get(KTerminator) == RecordField(r, KTerminator)
    requires get(KBroad) == RecordField(r, KBroad)
    ensures ReadStringFields(get, base) ==
            Some(base.(xrefText := r.xrefText, xrefEncoding := r.xrefEncoding, xrefReturns := r.xrefReturns,
                       xrefTerminated := r.xrefTerminated, xrefBroad := r.xrefBroad))
  {
  }

  lemma PlainFieldsRead(r: Record, get: Fields, base: Record)
    requires base.kind == r.kind && !r.kind.KindOperand? && !r.kind.KindString?
    requires base == BlankRecord(base.name, r.kind).(owner := base.owner, binding := base.binding,
                                                     fingerprint := base.fingerprint)
    requires get(KMangled) == RecordField(r, KMangled) && get(KManual) == RecordField(r, KManual)
    requires get(KPages) == RecordField(r, KPages) && get(KExport) == RecordField(r, KExport)
    ensures ReadKindFields(get, base) == Some(
              match r.kind
              case KindVtable => base.(mangled := r.mangled)
              case KindManual => base.(manual := r.manual)
              case KindRip => base.(pages := r.pages)
              case KindExport => base.(exportName := r.exportName)
              case _ => base)
  {
  }

  function Base(r: Record): (n: Record)
  {
    BlankRecord(r.name, r.kind).(owner := r.owner, binding := NormalBinding(r.binding), fingerprint := r.fingerprint)
  }

  lemma KindFieldsRead(r: Record, get: Fields)
    requires forall k :: get(k) == RecordField(r, k)
    ensures ReadKindFields(get, Base(r)) == Some(NormalFields(r))
  {
    if r.kind.KindOperand? {
      assert get(KOperandKind) == RecordField(r, KOperandKind);
      assert get(KOperandIndex) == RecordField(r, KOperandIndex) && get(KByteWidth) == RecordField(r, KByteWidth);
      OperandFieldsRead(r, get, Base(r));
    } else if r.kind.KindString? {
      assert get(KText) == RecordField(r, KText) && get(KEncoding) == RecordField(r, KEncoding);
      assert get(KReturns) == RecordField(r, KReturns) && get(KTerminator) == RecordField(r, KTerminator);
      assert get(KBroad) == RecordField(r, KBroad);
      StringFieldsRead(r, get, Base(r));
    } else {
      assert get(KMangled) == RecordField(r, KMangled) && get(KManual) == RecordField(r, KManual);
      assert get(KPages) == RecordField(r, KPages) && get(KExport) == RecordField(r, KExport);
      PlainFieldsRead(r, get, Base(r));
    }
  }

  lemma ReadRecordStarts(name: string, get: Fields, kind: Kind, owner: string, binding: Binding, fingerprint: u64)
    requires get(KKind) == Present(FKind(kind)) && get(KModule) == Written(owner != "", FText(owner))
    requires get(KFingerprint) == Written(fingerprint != 0, FUnsigned(fingerprint))
    requires ReadBinding(get) == Some(binding)
    ensures ReadRecord(name, get) ==
            ReadKindFields(get, BlankRecord(name, kind).(owner := owner, binding := binding,
                                                         fingerprint := fingerprint))
  {
  }

  /** Reading what a record writes gives the record back, ladder and unused fields aside. */
  lemma RecordReads(r: Record, get: Fields)
    requires forall k :: get(k) == RecordField(r, k)
    ensures ReadRecord(r.name, get) == Some(NormalFields(r))
  {
    BindingFieldsRead(r, get);
    assert get(KKind) == RecordField(r, KKind) && get(KModule) == RecordField(r, KModule);
    assert get(KFingerprint) == RecordField(r, KFingerprint);
    ReadRecordStarts(r.name, get, r.kind, r.owner, NormalBinding(r.binding), r.fingerprint);
    KindFieldsRead(r, get);
  }

  lemma KindFieldsKeepName(get: Fields, base: Record)
    ensures ReadKindFields(get, base).Some? ==> ReadKindFields(get, base).value.name == base.name
  {
  }

  /** A record is read under the label it is asked for. */
  lemma ReadRecordName(name: string, get: Fields)
    ensures ReadRecord(name, get).Some? ==> ReadRecord(name, get).value.name == name
  {
    if ReadRecord(name, get).Some? {
      var kind, owner := get(KKind).field.kind, TextOr(get(KModule), "").value;
      var binding, fingerprint := ReadBinding(get).value, WordOr(get(KFingerprint), 0).value;
      KindFieldsKeepName(get, BlankRecord(name, kind).(owner := owner, binding := binding, fingerprint := fingerprint));
    }
  }

  function NormalLadder(ladder: seq<Spec>): (r: seq<Spec>)
    ensures |r| == |ladder| && forall i :: 0 <= i < |ladder| ==> r[i] == NormalSpec(ladder[i])
  {
    seq(|ladder|, i requires 0 <= i < |ladder| => NormalSpec(ladder[i]))
  }

  /** The record as it reads back. */
  function Normal(r: Record): (n: Record)
  {
    NormalFields(r).(ladder := NormalLadder(r.ladder))
  }

  // What a section says.

  /** A key with this field, or a missing key whose default it is. */
  predicate Says(l: Lookup, f: Field, default: Field)
  {
    l == Present(f) || (l == Absent && f == default)
  }

  /** A section is this rung: the mode and what it needs are there, and every other key says what the rung holds. */
  predicate SaysSpec(get: Fields, s: Spec)
  {
    && get(KMode) == Present(FMode(s.mode)) && Says(get(KName), FText(s.name), FText(""))
    && match s.mode
       case ByPattern => SaysPattern(get, s)
       case ByRip =>
         && SaysPattern(get, s) && get(KDisplacement).Present? && get(KLength).Present?
         && 0 <= s.displacementAt && s.displacementAt + 4 <= s.instructionLength <= 15
       case ByRtti =>
         && get(KMangled) == Present(FText(s.mangled))
         && s == BlankSpec.(name := s.name, mode := ByRtti, mangled := s.mangled)
       case ByString => SaysString(get, s)
  }

  predicate SaysPattern(get: Fields, s: Spec)
  {
    && get(KPattern) == Present(FText(s.pattern)) && Says(get(KWalkBack), FSigned(s.walkBack), FSigned(0))
    && Says(get(KDisplacement), FSigned(s.displacementAt), FSigned(0))
    && Says(get(KLength), FUnsigned(s.instructionLength), FUnsigned(0))
    && s.mangled == s.text == "" && s.encoding == Utf8 && s.target == ReferencingInstruction
    && s.terminated && !s.broad
  }

  predicate SaysString(get: Fields, s: Spec)
  {
    && get(KText) == Present(FText(s.text)) && Says(get(KEncoding), FEncoding(s.encoding), FEncoding(Utf8))
    && Says(get(KReturns), FReturns(s.target), FReturns(ReferencingInstruction))
    && Says(get(KTerminator), FBool(s.terminated), FBool(true)) && Says(get(KBroad), FBool(s.broad), FBool(false))
    && s.pattern == s.mangled == "" && s.walkBack == s.displacementAt == s.instructionLength == 0
  }

  lemma PatternMeans(get: Fields, base: Spec, s: Spec)
    requires base == BlankSpec.(name := s.name, mode := s.mode) && (s.mode.ByPattern? || s.mode.ByRip?)
    ensures ReadPatternSpec(get, base) == Some(s) <==>
            && SaysPattern(get, s)
            && (s.mode.ByRip? ==> && get(KDisplacement).Present? && get(KLength).Present? && 0 <= s.displacementAt
                                  && s.displacementAt + 4 <= s.instructionLength <= 15)
  {
  }

  lemma StringMeans(get: Fields, base: Spec, s: Spec)
    requires base == BlankSpec.(name := s.name, mode := s.mode) && s.mode.ByString?
    ensures ReadStringSpec(get, base) == Some(s) <==> SaysString(get, s)
  {
  }

  /** A section reads as a rung exactly when it says so. */
  lemma SpecMeans(get: Fields, s: Spec)
    ensures ReadSpec(get) == Some(s) <==> SaysSpec(get, s)
  {
    var base := BlankSpec.(name := s.name, mode := s.mode);
    if s.mode.ByPattern? || s.mode.ByRip? {
      PatternMeans(get, base, s);
    } else if s.mode.ByString? {
      StringMeans(get, base, s);
    }
    SpecKeepsHead(get);
  }

  lemma SpecKeepsHead(get: Fields)
    ensures ReadSpec(get).Some? ==>
              && get(KMode) == Present(FMode(ReadSpec(get).value.mode))
              && Says(get(KName), FText(ReadSpec(get).value.name), FText(""))
  {
  }

  predicate SaysBinding(get: Fields, b: Binding)
  {
    && Says(get(KBinding), FBinding(b.kind), FBinding(Address))
    && Says(get(KOffsets), FOffsets(b.offsets), FOffsets([]))
    && Says(get(KValueWidth), FByte(b.valueWidth), FByte(8))
    && Says(get(KRegister), FRegister(b.readRegister), FRegister(0))
    && Says(get(KXmm), FByte(b.xmmIndex), FByte(255)) && Says(get(KVmt), FUnsigned(b.vmtIndex), FUnsigned(0))
  }

  lemma BindingMeans(get: Fields, b: Binding)
    ensures ReadBinding(get) == Some(b) <==> SaysBinding(get, b)
  {
  }

  predicate SaysXref(get: Fields, base: Record, r: Record)
  {
    && Says(get(KText), FText(r.xrefText), FText(""))
    && Says(get(KEncoding), FEncoding(r.xrefEncoding), FEncoding(Utf8))
    && Says(get(KReturns), FReturns(r.xrefReturns), FReturns(ReferencingInstruction))
    && Says(get(KTerminator), FBool(r.xrefTerminated), FBool(true))
    && Says(get(KBroad), FBool(r.xrefBroad), FBool(false))
    && r == base.(xrefText := r.xrefText, xrefEncoding := r.xrefEncoding, xrefReturns := r.xrefReturns,
                  xrefTerminated := r.xrefTerminated, xrefBroad := r.xrefBroad)
  }

  lemma XrefMeans(get: Fields, base: Record, r: Record)
    ensures ReadStringFields(get, base) == Some(r) <==> SaysXref(get, base, r)
  {
  }

  /** The keys of one kind, and the fields of the others at their defaults. */
  predicate SaysKind(get: Fields, base: Record, r: Record)
  {
    match r.kind
    case KindVtable => Says(get(KMangled), FText(r.mangled), FText("")) && r == base.(mangled := r.mangled)
    case KindRip => Says(get(KPages), FPages(r.pages), FPages(Readable)) && r == base.(pages := r.pages)
    case KindOperand =>
      && Says(get(KOperandKind), FOperand(r.operandKind), FOperand(Immediate))
      && Says(get(KOperandIndex), FByte(r.operandIndex), FByte(0))
      && Says(get(KByteWidth), FByte(r.byteWidth), FByte(0))
      && r == base.(operandKind := r.operandKind, operandIndex := r.operandIndex, byteWidth := r.byteWidth)
    case KindString => SaysXref(get, base, r)
    case KindExport => Says(get(KExport), FText(r.exportName), FText("")) && r == base.(exportName := r.exportName)
    case KindManual => get(KManual) == Present(FSigned(r.manual)) && r == base.(manual := r.manual)
    case _ => r == base
  }

  lemma KindMeans(get: Fields, base: Record, r: Record)
    requires base == BlankRecord(r.name, r.kind).(owner := r.owner, binding := r.binding, fingerprint := r.fingerprint)
    ensures ReadKindFields(get, base) == Some(r) <==> SaysKind(get, base, r)
  {
    if r.kind.KindString? {
      XrefMeans(get, base, r);
    }
  }

  /**
   A section reads as a record exactly when each of its keys says what the record holds; only the kind, and the value
   of a manual record, have to be there.
   */
  lemma RecordMeans(name: string, get: Fields, r: Record)
    ensures ReadRecord(name, get) == Some(r) <==>
            && r.name == name && get(KKind) == Present(FKind(r.kind)) && Says(get(KModule), FText(r.owner), FText(""))
            && SaysBinding(get, r.binding) && Says(get(KFingerprint), FUnsigned(r.fingerprint), FUnsigned(0))
            && SaysKind(get, BlankRecord(name, r.kind).(owner := r.owner, binding := r.binding,
                                                        fingerprint := r.fingerprint), r)
  {
    BindingMeans(get, r.binding);
    var base := BlankRecord(name, r.kind).(owner := r.owner, binding := r.binding, fingerprint := r.fingerprint);
    if r.name == name {
      KindMeans(get, base, r);
    }
    RecordKeepsHead(name, get);
  }

  lemma RecordKeepsHead(name: string, get: Fields)
    ensures ReadRecord(name, get).Some? ==>
              var r := ReadRecord(name, get).value;
              && r.name == name && get(KKind) == Present(FKind(r.kind)) && Says(get(KModule), FText(r.owner), FText(""))
              && ReadBinding(get) == Some(r.binding)
              && Says(get(KFingerprint), FUnsigned(r.fingerprint), FUnsigned(0))
  {
  }
}
