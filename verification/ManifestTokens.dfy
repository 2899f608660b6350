/**
 The keyword tokens of a manifest, one table per enumeration. Each is written in lower case and read in
 either case with surrounding blanks ignored.
 */
module ManifestTokens {
  import opened MachineInts
  import opened Options
  import opened Tokens
  import opened Evidence
  import opened DriftGate

  // Tables.

  function IndexIn(table: seq<string>, t: string): (i: nat)
    ensures i <= |table| && (i < |table| ==> table[i] == t)
  {
    if table == [] || table[0] == t then 0 else 1 + IndexIn(table[1..], t)
  }

  /** The table position of a token, or the table's length. */
  function Position(table: seq<string>, token: string): (i: nat)
    ensures i <= |table|
  {
    IndexIn(table, Lower(Trim(token)))
  }

  predicate Entry(table: seq<string>, i: nat)
    requires i < |table|
  {
    Plain(table[i]) && forall j :: 0 <= j < i ==> table[j] != table[i]
  }

  lemma {:induction false} FirstIndexIs(table: seq<string>, i: nat)
    requires i < |table| && forall j :: 0 <= j < i ==> table[j] != table[i]
    ensures IndexIn(table, table[i]) == i
  {
    if i > 0 {
      assert table[0] != table[i];
      FirstIndexIs(table[1..], i - 1);
    }
  }

  lemma EntryReads(table: seq<string>, i: nat)
    requires i < |table| && Entry(table, i)
    ensures Position(table, table[i]) == i
  {
    PlainReads(table[i]);
    FirstIndexIs(table, i);
  }

  /** A token stands at a position exactly when it spells that entry, in either case and between blanks. */
  lemma PositionIff(table: seq<string>, i: nat, token: string)
    requires i < |table| && Entry(table, i)
    ensures Position(table, token) == i <==> Lower(Trim(token)) == table[i]
  {
    FirstIndexIs(table, i);
  }

  // Enumerations.

  /** How a ladder rung is resolved. */
  datatype Mode = ByPattern | ByRip | ByRtti | ByString {
    function Row(): (i: nat) ensures i < 4 {
      match this case ByPattern => 0 case ByRip => 1 case ByRtti => 2 case ByString => 3
    }
  }

  const MODES: seq<string> := ["direct", "rip_relative", "rtti_vtable", "string_xref"]

  function ModeToken(m: Mode): (s: string)
  {
    MODES[m.Row()]
  }

  function ParseMode(token: string): (r: Option<Mode>)
  {
    ModeAt(Position(MODES, token))
  }

  function ModeAt(i: nat): (r: Option<Mode>)
  {
    match i
    case 0 => Some(ByPattern)
    case 1 => Some(ByRip)
    case 2 => Some(ByRtti)
    case 3 => Some(ByString)
    case _ => None
  }

  lemma ModeEntry(m: Mode)
    ensures Entry(MODES, m.Row())
  {
  }

  lemma ModeParsedIn(table: seq<string>, m: Mode, token: string)
    requires |table| == 4 && Entry(table, m.Row())
    ensures ModeAt(Position(table, token)) == Some(m) <==> Lower(Trim(token)) == table[m.Row()]
  {
    PositionIff(table, m.Row(), token);
  }

  lemma ModeReads(m: Mode)
    ensures ParseMode(ModeToken(m)) == Some(m)
  {
    ModeEntry(m);
    ModeParsedIn(MODES, m, ModeToken(m));
    PlainReads(ModeToken(m));
  }

  lemma ModeParsed(m: Mode, token: string)
    ensures ParseMode(token) == Some(m) <==> Lower(Trim(token)) == ModeToken(m)
  {
    ModeEntry(m);
    ModeParsedIn(MODES, m, token);
  }

  lemma ModeSpelled(m: Mode)
    ensures ModeToken(m) == match m
                            case ByPattern => "direct"
                            case ByRip => "rip_relative"
                            case ByRtti => "rtti_vtable"
                            case ByString => "string_xref"
  {
  }

  /** Which backend resolves a record; the last three have no section form. */
  datatype Kind =
    | KindVtable | KindRip | KindOperand | KindString | KindExport | KindManual
    | KindCallArg | KindQuorum | KindUnset
  {
    function Row(): (i: nat) ensures i < 9 {
      match this
      case KindVtable => 0 case KindRip => 1 case KindOperand => 2
      case KindString => 3 case KindExport => 4 case KindManual => 5
      case KindCallArg => 6 case KindQuorum => 7 case KindUnset => 8
    }
  }

  const KINDS: seq<string> :=
    ["vtable_identity", "rip_global", "code_operand", "string_xref", "export_name", "manual",
     "call_arg_home", "quorum", "unset"]

  function KindToken(k: Kind): (s: string)
  {
    KINDS[k.Row()]
  }

  function ParseKind(token: string): (r: Option<Kind>)
  {
    KindAt(Position(KINDS, token))
  }

  function KindAt(i: nat): (r: Option<Kind>)
  {
    match i
    case 0 => Some(KindVtable)
    case 1 => Some(KindRip)
    case 2 => Some(KindOperand)
    case 3 => Some(KindString)
    case 4 => Some(KindExport)
    case 5 => Some(KindManual)
    case _ => None
  }

  predicate Storable(k: Kind)
  {
    !k.KindCallArg? && !k.KindQuorum? && !k.KindUnset?
  }

  /** Exactly the six kinds with a section form read back; the other tokens are refused. */
  lemma KindReads(k: Kind)
    ensures ParseKind(KindToken(k)) == if Storable(k) then Some(k) else None
  {
    KindPosition(KINDS, k);
    KindEntry(k);
  }

  lemma KindPosition(table: seq<string>, k: Kind)
    requires |table| == 9
    ensures Entry(table, k.Row()) ==> KindAt(Position(table, table[k.Row()])) == if Storable(k) then Some(k) else None
  {
    if Entry(table, k.Row()) {
      EntryReads(table, k.Row());
    }
  }

  lemma KindEntry(k: Kind)
    ensures Entry(KINDS, k.Row())
  {
    var i := k.Row();
    assert Plain(KINDS[i]);
    forall j | 0 <= j < i ensures KINDS[j] != KINDS[i] {
      assert |KINDS[j]| != |KINDS[i]| || KINDS[j][0] != KINDS[i][0];
    }
  }

  lemma KindSpelled(k: Kind)
    ensures KindToken(k) == match k
                            case KindVtable => "vtable_identity"
                            case KindRip => "rip_global"
                            case KindOperand => "code_operand"
                            case KindString => "string_xref"
                            case KindExport => "export_name"
                            case KindManual => "manual"
                            case KindCallArg => "call_arg_home"
                            case KindQuorum => "quorum"
                            case KindUnset => "unset"
  {
  }

  lemma KindParsed(k: Kind, token: string)
    ensures ParseKind(token) == Some(k) <==> Storable(k) && Lower(Trim(token)) == KindToken(k)
  {
    KindEntry(k);
    KindParsedIn(KINDS, k, token);
  }

  lemma KindParsedIn(table: seq<string>, k: Kind, token: string)
    requires |table| == 9 && Entry(table, k.Row())
    ensures KindAt(Position(table, token)) == Some(k) <==> Storable(k) && Lower(Trim(token)) == table[k.Row()]
  {
    PositionIff(table, k.Row(), token);
  }

  const OPERANDS: seq<string> := ["immediate", "memory_displacement"]

  function OperandToken(k: OperandKind): (s: string)
  {
    OPERANDS[if k.Immediate? then 0 else 1]
  }

  function ParseOperand(token: string): (r: Option<OperandKind>)
  {
    match Position(OPERANDS, token) case 0 => Some(Immediate) case 1 => Some(MemoryDisplacement) case _ => None
  }

  lemma OperandReads(k: OperandKind)
    ensures ParseOperand(OperandToken(k)) == Some(k)
  {
    var i := if k.Immediate? then 0 else 1;
    assert Entry(OPERANDS, i);
    EntryReads(OPERANDS, i);
  }

  lemma OperandSpelled(k: OperandKind, token: string)
    ensures OperandToken(k) == if k.MemoryDisplacement? then "memory_displacement" else "immediate"
    ensures ParseOperand(token) == Some(k) <==> Lower(Trim(token)) == OperandToken(k)
  {
    var i := if k.Immediate? then 0 else 1;
    assert Entry(OPERANDS, i);
    PositionIff(OPERANDS, i, token);
  }

  const ENCODINGS: seq<string> := ["utf8", "utf16le"]

  function EncodingToken(e: Encoding): (s: string)
  {
    ENCODINGS[if e.Utf8? then 0 else 1]
  }

  function ParseEncoding(token: string): (r: Option<Encoding>)
  {
    match Position(ENCODINGS, token) case 0 => Some(Utf8) case 1 => Some(Utf16le) case _ => None
  }

  lemma EncodingReads(e: Encoding)
    ensures ParseEncoding(EncodingToken(e)) == Some(e)
  {
    var i := if e.Utf8? then 0 else 1;
    assert Entry(ENCODINGS, i);
    EntryReads(ENCODINGS, i);
  }

  lemma EncodingSpelled(e: Encoding, token: string)
    ensures EncodingToken(e) == if e.Utf16le? then "utf16le" else "utf8"
    ensures ParseEncoding(token) == Some(e) <==> Lower(Trim(token)) == EncodingToken(e)
  {
    var i := if e.Utf8? then 0 else 1;
    assert Entry(ENCODINGS, i);
    PositionIff(ENCODINGS, i, token);
  }

  const PAGES: seq<string> := ["readable", "executable"]

  function PagesToken(p: Pages): (s: string)
  {
    PAGES[if p.Readable? then 0 else 1]
  }

  function ParsePages(token: string): (r: Option<Pages>)
  {
    match Position(PAGES, token) case 0 => Some(Readable) case 1 => Some(Executable) case _ => None
  }

  lemma PagesReads(p: Pages)
    ensures ParsePages(PagesToken(p)) == Some(p)
  {
    var i := if p.Readable? then 0 else 1;
    assert Entry(PAGES, i);
    EntryReads(PAGES, i);
  }

  lemma PagesSpelled(p: Pages, token: string)
    ensures PagesToken(p) == if p.Executable? then "executable" else "readable"
    ensures ParsePages(token) == Some(p) <==> Lower(Trim(token)) == PagesToken(p)
  {
    var i := if p.Readable? then 0 else 1;
    assert Entry(PAGES, i);
    PositionIff(PAGES, i, token);
  }

  const RETURNS: seq<string> := ["instruction", "function", "pointer_slot"]

  function ReturnRow(x: XrefReturn): (i: nat)
    ensures i < 3
  {
    match x case ReferencingInstruction => 0 case EnclosingFunction => 1 case StringPointerSlot => 2
  }

  function ReturnToken(x: XrefReturn): (s: string)
  {
    RETURNS[ReturnRow(x)]
  }

  function ParseReturn(token: string): (r: Option<XrefReturn>)
  {
    match Position(RETURNS, token)
    case 0 => Some(ReferencingInstruction)
    case 1 => Some(EnclosingFunction)
    case 2 => Some(StringPointerSlot)
    case _ => None
  }

  lemma ReturnReads(x: XrefReturn)
    ensures ParseReturn(ReturnToken(x)) == Some(x)
  {
    assert Entry(RETURNS, ReturnRow(x));
    EntryReads(RETURNS, ReturnRow(x));
  }

  lemma ReturnSpelled(x: XrefReturn, token: string)
    ensures ReturnToken(x) == match x
                              case ReferencingInstruction => "instruction"
                              case EnclosingFunction => "function"
                              case StringPointerSlot => "pointer_slot"
    ensures ParseReturn(token) == Some(x) <==> Lower(Trim(token)) == ReturnToken(x)
  {
    assert Entry(RETURNS, ReturnRow(x));
    PositionIff(RETURNS, ReturnRow(x), token);
  }

  const BINDINGS: seq<string> := ["address", "pointer_chain", "mid_hook_register", "vmt_method"]

  function BindingRow(b: BindingKind): (i: nat)
    ensures i < 4
  {
    match b case Address => 0 case PointerChain => 1 case MidHookRegister => 2 case VmtMethod => 3
  }

  function BindingToken(b: BindingKind): (s: string)
  {
    BINDINGS[BindingRow(b)]
  }

  function ParseBinding(token: string): (r: Option<BindingKind>)
  {
    BindingAt(Position(BINDINGS, token))
  }

  function BindingAt(i: nat): (r: Option<BindingKind>)
  {
    match i
    case 0 => Some(Address)
    case 1 => Some(PointerChain)
    case 2 => Some(MidHookRegister)
    case 3 => Some(VmtMethod)
    case _ => None
  }

  lemma BindingReads(b: BindingKind)
    ensures ParseBinding(BindingToken(b)) == Some(b)
  {
    BindingPosition(BINDINGS, b);
    BindingEntry(b);
  }

  lemma BindingEntry(b: BindingKind)
    ensures Entry(BINDINGS, BindingRow(b))
  {
  }

  lemma BindingPosition(table: seq<string>, b: BindingKind)
    requires |table| == 4
    ensures Entry(table, BindingRow(b)) ==> BindingAt(Position(table, table[BindingRow(b)])) == Some(b)
  {
    if Entry(table, BindingRow(b)) {
      EntryReads(table, BindingRow(b));
    }
  }

  lemma BindingSpelled(b: BindingKind, token: string)
    ensures BindingToken(b) == match b
                               case Address => "address"
                               case PointerChain => "pointer_chain"
                               case MidHookRegister => "mid_hook_register"
                               case VmtMethod => "vmt_method"
    ensures ParseBinding(token) == Some(b) <==> Lower(Trim(token)) == BindingToken(b)
  {
    BindingEntry(b);
    PositionIff(BINDINGS, BindingRow(b), token);
  }

  const REGISTERS: seq<string> :=
    ["rax", "rbx", "rcx", "rdx", "rsi", "rdi", "rbp", "r8", "r9", "r10", "r11", "r12", "r13", "r14", "r15"]

  /** A register number past the table is written as the first register. */
  function RegisterToken(r: u8): (s: string)
  {
    if r < |REGISTERS| then REGISTERS[r] else REGISTERS[0]
  }

  function ParseRegister(token: string): (r: Option<u8>)
  {
    var i := Position(REGISTERS, token);
    if i < |REGISTERS| then Some(i) else None
  }

  lemma RegistersDiffer(i: nat, j: nat)
    requires j < i < |REGISTERS|
    ensures REGISTERS[j] != REGISTERS[i]
  {
  }

  lemma RegisterEntry(i: nat)
    requires i < |REGISTERS|
    ensures Entry(REGISTERS, i)
  {
    assert Plain(REGISTERS[i]);
    forall j | 0 <= j < i ensures REGISTERS[j] != REGISTERS[i] {
      RegistersDiffer(i, j);
    }
  }

  lemma RegisterReads(r: u8)
    ensures ParseRegister(RegisterToken(r)) == Some(if r < |REGISTERS| then r else 0)
  {
    var i := if r < |REGISTERS| then r else 0;
    RegisterEntry(i);
    EntryReads(REGISTERS, i);
  }

  /** The registers by name: the seven legacy ones in the order of the saved context, then r8 to r15. */
  lemma RegistersSpelled()
    ensures |REGISTERS| == 15
    ensures RegisterToken(0) == "rax" && RegisterToken(1) == "rbx" && RegisterToken(2) == "rcx"
    ensures RegisterToken(3) == "rdx" && RegisterToken(4) == "rsi" && RegisterToken(5) == "rdi"
    ensures RegisterToken(6) == "rbp" && RegisterToken(7) == "r8" && RegisterToken(8) == "r9"
    ensures forall r: u8 :: 9 <= r < 15 ==> RegisterToken(r) == ['r', '1', '0' + (r - 9) as char]
  {
    forall r: u8 | 9 <= r < 15 ensures RegisterToken(r) == ['r', '1', '0' + (r - 9) as char] {
    }
  }

  lemma RegisterParsed(r: u8, token: string)
    ensures ParseRegister(token) == Some(r) <==> r < 15 && Lower(Trim(token)) == RegisterToken(r)
  {
    if r < 15 {
      RegisterEntry(r);
      PositionIff(REGISTERS, r, token);
    }
  }
}
