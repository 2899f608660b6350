/**
 The text under each key of a manifest section.
 */
module ManifestCodec {
  import opened MachineInts
  import opened Options
  import opened Numerals
  import opened Tokens
  import opened ManifestTokens
  import opened ManifestRecords

  /** Which fields a key carries, and which of them survive being written. */
  predicate Fits(k: Key, f: Field)
  {
    match k
    case KKind => f.FKind? && Storable(f.kind)
    case KMode => f.FMode?
    case KBinding => f.FBinding?
    case KOperandKind => f.FOperand?
    case KEncoding => f.FEncoding?
    case KReturns => f.FReturns?
    case KPages => f.FPages?
    case KTerminator => f.FBool?
    case KBroad => f.FBool?
    case KValueWidth => f.FByte?
    case KOperandIndex => f.FByte?
    case KByteWidth => f.FByte?
    case KXmm => f.FByte?
    case KRegister => f.FRegister? && f.register < |REGISTERS|
    case KVmt => f.FUnsigned?
    case KFingerprint => f.FUnsigned?
    case KLength => f.FUnsigned?
    case KSchema => f.FUnsigned?
    case KRevision => f.FUnsigned?
    case KWalkBack => f.FSigned?
    case KDisplacement => f.FSigned?
    case KManual => f.FSigned?
    case KOffsets => f.FOffsets?
    case _ => f.FText?
  }

  function WriteField(k: Key, f: Field): (s: string)
  {
    match f
    case FKind(x) => KindToken(x)
    case FMode(x) => ModeToken(x)
    case FBinding(x) => BindingToken(x)
    case FOperand(x) => OperandToken(x)
    case FEncoding(x) => EncodingToken(x)
    case FReturns(x) => ReturnToken(x)
    case FPages(x) => PagesToken(x)
    case FText(x) => x
    case FBool(x) => BoolToken(x)
    case FByte(x) => Print(x, 10)
    case FRegister(x) => RegisterToken(x)
    case FUnsigned(x) => if k.KFingerprint? then Hex(x) else Print(x, 10)
    case FSigned(x) => SignedHex(x)
    case FOffsets(x) => OffsetsToken(x)
  }

  /** Fingerprints and offsets are written in hex, with the sign in front; other numbers are decimal. */
  lemma NumbersWritten(k: Key, x: u64, y: i64)
    ensures WriteField(KFingerprint, FUnsigned(x)) == "0x" + Print(x, 16)
    ensures k != KFingerprint ==> WriteField(k, FUnsigned(x)) == Print(x, 10)
    ensures y >= 0 ==> WriteField(k, FSigned(y)) == "0x" + Print(y, 16)
    ensures y < 0 ==> WriteField(k, FSigned(y)) == "-" + "0x" + Print(-(y as int), 16)
  {
  }

  /** Whatever a register number becomes in the record, its own token is what is written. */
  lemma RegisterIsWritten(r: u8)
    ensures WriteField(KRegister, FRegister(RegisterOf(r))) == RegisterToken(r)
  {
  }

  function ReadField(k: Key, s: string): (r: Option<Field>)
  {
    match k
    case KKind => (var x := ParseKind(s); if x.Some? then Some(FKind(x.value)) else None)
    case KMode => (var x := ParseMode(s); if x.Some? then Some(FMode(x.value)) else None)
    case KBinding => (var x := ParseBinding(s); if x.Some? then Some(FBinding(x.value)) else None)
    case KOperandKind => (var x := ParseOperand(s); if x.Some? then Some(FOperand(x.value)) else None)
    case KEncoding => (var x := ParseEncoding(s); if x.Some? then Some(FEncoding(x.value)) else None)
    case KReturns => (var x := ParseReturn(s); if x.Some? then Some(FReturns(x.value)) else None)
    case KPages => (var x := ParsePages(s); if x.Some? then Some(FPages(x.value)) else None)
    case KTerminator => (var x := ParseBool(s); if x.Some? then Some(FBool(x.value)) else None)
    case KBroad => (var x := ParseBool(s); if x.Some? then Some(FBool(x.value)) else None)
    case KValueWidth => ReadByte(s)
    case KOperandIndex => ReadByte(s)
    case KByteWidth => ReadByte(s)
    case KXmm => ReadByte(s)
    case KRegister => (var x := ParseRegister(s); if x.Some? then Some(FRegister(x.value)) else None)
    case KVmt => ReadWord(s)
    case KFingerprint => ReadWord(s)
    case KLength => ReadWord(s)
    case KSchema => ReadWord(s)
    case KRevision => ReadWord(s)
    case KWalkBack => ReadNumber(s)
    case KDisplacement => ReadNumber(s)
    case KManual => ReadNumber(s)
    case KOffsets => (var x := ParseOffsets(s); if x.Some? then Some(FOffsets(x.value)) else None)
    case _ => Some(FText(s))
  }

  function ReadByte(s: string): (r: Option<Field>)
  {
    var x := ParseByte(s);
    if x.Some? then Some(FByte(x.value)) else None
  }

  function ReadWord(s: string): (r: Option<Field>)
  {
    var x := ParseUnsigned(s);
    if x.Some? then Some(FUnsigned(x.value)) else None
  }

  function ReadNumber(s: string): (r: Option<Field>)
  {
    var x := ParseSigned(s);
    if x.Some? then Some(FSigned(x.value)) else None
  }

  lemma KeywordReads(k: Key, f: Field)
    requires Fits(k, f)
    requires f.FKind? || f.FMode? || f.FBinding? || f.FOperand? || f.FEncoding? || f.FReturns? || f.FPages?
             || f.FRegister?
    ensures ReadField(k, WriteField(k, f)) == Some(f)
  {
    match f
    case FKind(x) => KindReads(x);
    case FMode(x) => ModeReads(x);
    case FBinding(x) => BindingReads(x);
    case FOperand(x) => OperandReads(x);
    case FEncoding(x) => EncodingReads(x);
    case FReturns(x) => ReturnReads(x);
    case FPages(x) => PagesReads(x);
    case FRegister(x) => RegisterReads(x);
  }

  lemma ValueReads(k: Key, f: Field)
    requires Fits(k, f) && (f.FText? || f.FBool? || f.FByte? || f.FUnsigned? || f.FSigned? || f.FOffsets?)
    ensures ReadField(k, WriteField(k, f)) == Some(f)
  {
    match f
    case FText(_) =>
    case FBool(x) => BoolReads(x);
    case FByte(x) => DecimalTokenReads(x);
    case FUnsigned(x) => DecimalTokenReads(x); HexTokenReads(x);
    case FSigned(x) => SignedHexReads(x);
    case FOffsets(x) => OffsetsRead(x);
  }

  /** Every field that fits its key reads back from its text. */
  lemma FieldReads(k: Key, f: Field)
    requires Fits(k, f)
    ensures ReadField(k, WriteField(k, f)) == Some(f)
  {
    if f.FText? || f.FBool? || f.FByte? || f.FUnsigned? || f.FSigned? || f.FOffsets? {
      ValueReads(k, f);
    } else {
      KeywordReads(k, f);
    }
  }

  /** A kind without a section form is written but refused on reading. */
  lemma UnstorableKindIsRefused(x: Kind)
    requires !Storable(x)
    ensures ReadField(KKind, WriteField(KKind, FKind(x))) == None
  {
    KindReads(x);
  }

  // Sections.

  /** A section's text as typed fields, through any reader. */
  function View(read: (Key, string) -> Option<Field>, keys: Keys, k: Key): (l: Lookup)
  {
    if k !in keys then Absent else if read(k, keys[k]).None? then Unreadable else Present(read(k, keys[k]).value)
  }

  function WriteKeys(write: (Key, Field) -> string, fields: Fields): (keys: Keys)
  {
    map k: Key | fields(k).Present? :: write(k, fields(k).field)
  }

  lemma ViewOfWritten(fields: Fields, k: Key)
    requires fields(k).Present? ==> Fits(k, fields(k).field)
    requires !fields(k).Unreadable?
    ensures View(ReadField, WriteKeys(WriteField, fields), k) == fields(k)
  {
    if fields(k).Present? {
      FieldReads(k, fields(k).field);
    }
  }

  function SpecKeys(s: Spec): (keys: Keys)
  {
    WriteKeys(WriteField, k => SpecField(s, k))
  }

  function RecordKeys(r: Record): (keys: Keys)
  {
    WriteKeys(WriteField, k => RecordField(r, k))
  }

  function SpecOf(keys: Keys): (r: Option<Spec>)
  {
    ReadSpec(k => View(ReadField, keys, k))
  }

  function RecordOf(name: string, keys: Keys): (r: Option<Record>)
  {
    ReadRecord(name, k => View(ReadField, keys, k))
  }

  lemma SpecFieldFits(s: Spec, k: Key)
    ensures SpecField(s, k).Present? ==> Fits(k, SpecField(s, k).field)
    ensures !SpecField(s, k).Unreadable?
  {
  }

  lemma RecordFieldFits(r: Record, k: Key)
    ensures RecordField(r, k).Present? ==> Fits(k, RecordField(r, k).field) || (k.KKind? && !Storable(r.kind))
    ensures !RecordField(r, k).Unreadable?
  {
  }

  /** A rung survives being written and read, unused fields aside, exactly when its layout is valid. */
  lemma SpecRoundTrip(s: Spec)
    ensures SpecOf(SpecKeys(s)) == if ValidSpec(s) then Some(NormalSpec(s)) else None
    ensures KMode in SpecKeys(s)
  {
    var get: Fields := k => View(ReadField, SpecKeys(s), k);
    forall k ensures get(k) == SpecField(s, k) {
      SpecFieldFits(s, k);
      ViewOfWritten(j => SpecField(s, j), k);
    }
    SpecReads(s, get);
    assert SpecField(s, KMode).Present?;
  }

  /**
   A record survives being written and read, ladder and unused fields aside, exactly when its kind has a section
   form.
   */
  lemma RecordRoundTrip(r: Record)
    ensures RecordOf(r.name, RecordKeys(r)) == if Storable(r.kind) then Some(NormalFields(r)) else None
  {
    var get: Fields := k => View(ReadField, RecordKeys(r), k);
    if Storable(r.kind) {
      forall k ensures get(k) == RecordField(r, k) {
        RecordFieldFits(r, k);
        ViewOfWritten(j => RecordField(r, j), k);
      }
      RecordReads(r, get);
    } else {
      UnstorableKindIsRefused(r.kind);
      assert get(KKind).Unreadable?;
    }
  }
}
