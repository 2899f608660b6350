/**
 Resolving an export by name: the walk from a module's headers through its export directory to the three
 export tables, as in the ".edata Section (Image Only)" section of the Microsoft PE Format specification.

 Every guarded read is logged, so that where the walk reads can be stated.
 */
module ExportTable {
  import opened MachineInts
  import opened Options
  import opened Image

  const MAX_ENTRIES: nat := 0x10_0000
  const DOS_SIZE: nat := 64
  const NT_SIZE: nat := 264
  const DIRECTORY_SIZE: nat := 40

  datatype Outcome = Found(address: u64) | NotFound | Forwarded | InvalidRange

  /** One guarded read. */
  datatype Access = Access(address: int, bytes: nat)

  /** Where the three tables are, how long they are, and the directory's own extent. */
  datatype Tables = Tables(
    names: u64, ordinals: u64, functions: u64, nameCount: nat, functionCount: nat, directory: nat, directorySize: nat)

  datatype Headers = BadImage | NoExports | Exports(tables: Tables)

  // ---------------------------------------------------------------------------------------
  // Bounds
  // ---------------------------------------------------------------------------------------

  /** The range lies in the span and does not wrap. */
  predicate RegionInSpan(span: Span, start: u64, bytes: u64)
  {
    bytes == 0 || (start <= TWO_64 - 1 - (bytes - 1) && span.Contains(start) && span.Contains(start + (bytes - 1)))
  }

  function CheckedRva(span: Span, rva: u32, bytes: u64): (r: Option<u64>)
  {
    if rva > TWO_64 - 1 - span.base then None
    else if RegionInSpan(span, span.base + rva, bytes) then Some(span.base + rva) else None
  }

  predicate Inside(span: Span, a: Access)
  {
    span.base <= a.address && a.address + a.bytes <= span.end
  }

  /** An accepted range is exactly one that lies, byte for byte, between the base and the end. */
  lemma CheckedRvaMeans(span: Span, rva: u32, bytes: u64)
    requires span.Valid()
    ensures CheckedRva(span, rva, bytes).Some? && bytes > 0 <==> bytes > 0 && span.base + rva + bytes <= span.end
    ensures CheckedRva(span, rva, bytes).Some? ==> CheckedRva(span, rva, bytes).value == span.base + rva
  {
  }

  // ---------------------------------------------------------------------------------------
  // Headers
  // ---------------------------------------------------------------------------------------

  predicate DosOk(m: Memory, base: u64)
  {
    Readable(m, base, DOS_SIZE) && Half(m, base) == 0x5A4D && Dword(m, base + 0x3C) < TWO_31
  }

  function NtOf(m: Memory, span: Span): (nt: Option<u64>)
    requires DosOk(m, span.base)
  {
    CheckedRva(span, Dword(m, span.base + 0x3C), NT_SIZE)
  }

  predicate NtOk(m: Memory, nt: u64)
  {
    Readable(m, nt, NT_SIZE) && Dword(m, nt) == 0x4550 && Half(m, nt + 24) == 0x20B
  }

  /** The optional header reaches the export data directory, and that entry is filled in. */
  predicate HasDirectory(m: Memory, nt: u64)
    requires NtOk(m, nt)
  {
    Half(m, nt + 20) >= 120 && Dword(m, nt + 132) > 0 && Dword(m, nt + 136) != 0 && Dword(m, nt + 140) != 0
  }

  predicate CountsOk(nameCount: nat, functionCount: nat)
  {
    0 < nameCount <= MAX_ENTRIES && 0 < functionCount <= MAX_ENTRIES
  }

  /** The tables an export directory names, if they fit. */
  function TablesAt(span: Span, nameCount: u32, functionCount: u32, names: u32, ordinals: u32, functions: u32,
                    directory: u32, directorySize: u32): (r: Headers)
  {
    if !CountsOk(nameCount, functionCount) then NoExports
    else
      var n := CheckedRva(span, names, 4 * nameCount);
      var o := CheckedRva(span, ordinals, 2 * nameCount);
      var f := CheckedRva(span, functions, 4 * functionCount);
      if n.None? || o.None? || f.None? then NoExports
      else Exports(Tables(n.value, o.value, f.value, nameCount, functionCount, directory, directorySize))
  }

  function TablesOf(m: Memory, span: Span, at: u64, directory: u32, directorySize: u32): (r: Headers)
    requires Readable(m, at, DIRECTORY_SIZE)
  {
    TablesAt(span, Dword(m, at + 24), Dword(m, at + 20), Dword(m, at + 32), Dword(m, at + 36), Dword(m, at + 28),
             directory, directorySize)
  }

  /** Where the export directory is, if it is declared, in the image and readable. */
  function DirectoryAt(m: Memory, span: Span, nt: u64): (at: Option<u64>)
    requires NtOk(m, nt)
    ensures at.Some? ==> Readable(m, at.value, DIRECTORY_SIZE)
  {
    if !HasDirectory(m, nt) then None
    else
      var size := Dword(m, nt + 140);
      var at := CheckedRva(span, Dword(m, nt + 136), size);
      if at.None? || size < DIRECTORY_SIZE || !Readable(m, at.value, DIRECTORY_SIZE) then None else at
  }

  function DirectoryOf(m: Memory, span: Span, nt: u64): (r: Headers)
    requires NtOk(m, nt)
  {
    var at := DirectoryAt(m, span, nt);
    if at.None? then NoExports else TablesOf(m, span, at.value, Dword(m, nt + 136), Dword(m, nt + 140))
  }

  function HeadersOf(m: Memory, span: Span): (r: Headers)
  {
    if !span.Valid() || !DosOk(m, span.base) then BadImage
    else
      var nt := NtOf(m, span);
      if nt.None? || !NtOk(m, nt.value) then BadImage else DirectoryOf(m, span, nt.value)
  }

  /** All three tables lie in the image, with counts in bounds. */
  predicate TablesInside(span: Span, t: Tables)
  {
    && CountsOk(t.nameCount, t.functionCount)
    && Inside(span, Access(t.names, 4 * t.nameCount))
    && Inside(span, Access(t.ordinals, 2 * t.nameCount))
    && Inside(span, Access(t.functions, 4 * t.functionCount))
  }

  /** Tables are reported exactly when the counts are in bounds and all three lie in the image. */
  lemma TablesAtMeans(span: Span, nameCount: u32, functionCount: u32, names: u32, ordinals: u32, functions: u32,
                      directory: u32, directorySize: u32)
    requires span.Valid()
    ensures var h := TablesAt(span, nameCount, functionCount, names, ordinals, functions, directory, directorySize);
            && (h.Exports? <==>
                  && 1 <= nameCount <= 0x10_0000 && 1 <= functionCount <= 0x10_0000
                  && Inside(span, Access(span.base + names, 4 * nameCount))
                  && Inside(span, Access(span.base + ordinals, 2 * nameCount))
                  && Inside(span, Access(span.base + functions, 4 * functionCount)))
            && (h.Exports? ==> TablesInside(span, h.tables))
  {
    if CountsOk(nameCount, functionCount) {
      CheckedRvaMeans(span, names, 4 * nameCount);
      CheckedRvaMeans(span, ordinals, 2 * nameCount);
      CheckedRvaMeans(span, functions, 4 * functionCount);
    }
  }

  lemma TablesAreInside(m: Memory, span: Span)
    requires HeadersOf(m, span).Exports?
    ensures TablesInside(span, HeadersOf(m, span).tables)
  {
    var nt := NtOf(m, span).value;
    var directory, size := Dword(m, nt + 136), Dword(m, nt + 140);
    var at := CheckedRva(span, directory, size).value;
    TablesAtMeans(span, Dword(m, at + 24), Dword(m, at + 20), Dword(m, at + 32), Dword(m, at + 36), Dword(m, at + 28),
                  directory, size);
  }

  // ---------------------------------------------------------------------------------------
  // Names and entries
  // ---------------------------------------------------------------------------------------

  predicate ByteIs(m: Memory, span: Span, a: int, value: u8)
  {
    span.Contains(a) && Readable(m, a, 1) && m.byte(a) == value
  }

  /** The bytes of the name and its terminator, inside the image. */
  predicate NameIs(m: Memory, span: Span, at: int, target: seq<u8>)
  {
    (forall i :: 0 <= i < |target| ==> ByteIs(m, span, at + i, target[i])) && ByteIs(m, span, at + |target|, 0)
  }

  function NameRva(m: Memory, t: Tables, i: nat): (r: Option<u32>)
    requires t.names + 4 * i + 4 <= TWO_64
  {
    if Readable(m, t.names + 4 * i, 4) then Some(Dword(m, t.names + 4 * i)) else None
  }

  /** The i-th name of the table is the target. */
  predicate Matches(m: Memory, span: Span, t: Tables, target: seq<u8>, i: nat)
    requires t.names + 4 * i + 4 <= TWO_64
  {
    var rva := NameRva(m, t, i);
    rva.Some? && CheckedRva(span, rva.value, 1).Some? && NameIs(m, span, span.base + rva.value, target)
  }

  datatype Entry = Unusable | Forwards | Lands(address: u64)

  /** What a function RVA stands for: an unused slot, a forwarder string in the directory, or code in the image. */
  function EntryOf(span: Span, t: Tables, rva: u32): (e: Entry)
  {
    if rva == 0 then Unusable
    else if t.directory <= rva < t.directory + t.directorySize then Forwards
    else if CheckedRva(span, rva, 1).None? then Unusable
    else Lands(span.base + rva)
  }

  /** The entry the i-th name leads to, through its ordinal. */
  function EntryAt(m: Memory, span: Span, t: Tables, i: nat): (e: Entry)
    requires t.ordinals + 2 * i + 2 <= TWO_64 && t.functions + 4 * t.functionCount <= TWO_64
  {
    if !Readable(m, t.ordinals + 2 * i, 2) then Unusable
    else
      var ordinal := Half(m, t.ordinals + 2 * i);
      if ordinal >= t.functionCount || !Readable(m, t.functions + 4 * ordinal, 4) then Unusable
      else EntryOf(span, t, Dword(m, t.functions + 4 * ordinal))
  }

  predicate LogInside(span: Span, log: seq<Access>)
  {
    forall i :: 0 <= i < |log| ==> Inside(span, log[i])
  }

  /** Compare byte by byte, checking each address before reading it. */
  method NameMatches(m: Memory, span: Span, at: u64, target: seq<u8>) returns (ok: bool, log: seq<Access>)
    ensures ok == NameIs(m, span, at, target)
    ensures LogInside(span, log)
  {
    log := [];
    var i := 0;
    while i < |target|
      invariant 0 <= i <= |target|
      invariant forall k :: 0 <= k < i ==> ByteIs(m, span, at + k, target[k])
      invariant LogInside(span, log)
    {
      if i > TWO_64 - 1 - at || !span.Contains(at + i) {
        assert !ByteIs(m, span, at + i, target[i]);
        return false, log;
      }
      log := log + [Access(at + i, 1)];
      if !Readable(m, at + i, 1) || m.byte(at + i) != target[i] {
        assert !ByteIs(m, span, at + i, target[i]);
        return false, log;
      }
      i := i + 1;
    }
    if |target| > TWO_64 - 1 - at || !span.Contains(at + |target|) {
      return false, log;
    }
    log := log + [Access(at + |target|, 1)];
    ok := Readable(m, at + |target|, 1) && m.byte(at + |target|) == 0;
  }

  method ReadEntry(m: Memory, span: Span, t: Tables, i: nat) returns (e: Entry, log: seq<Access>)
    requires TablesInside(span, t) && i < t.nameCount
    ensures e == EntryAt(m, span, t, i)
    ensures LogInside(span, log)
  {
    log := [Access(t.ordinals + 2 * i, 2)];
    if !Readable(m, t.ordinals + 2 * i, 2) {
      return Unusable, log;
    }
    var ordinal := Half(m, t.ordinals + 2 * i);
    if ordinal >= t.functionCount {
      return Unusable, log;
    }
    log := log + [Access(t.functions + 4 * ordinal, 4)];
    if !Readable(m, t.functions + 4 * ordinal, 4) {
      return Unusable, log;
    }
    e := EntryOf(span, t, Dword(m, t.functions + 4 * ordinal));
  }

  // ---------------------------------------------------------------------------------------
  // The scan of the name table
  // ---------------------------------------------------------------------------------------

  /** A name table as the scan meets it: which names read, which are the target, and where each leads. */
  datatype View = View(count: nat, legible: nat -> bool, matches: nat -> bool, entry: nat -> Entry)

  function ViewOf(m: Memory, span: Span, t: Tables, target: seq<u8>): (v: View)
    requires TablesInside(span, t)
  {
    View(t.nameCount,
         (i: nat) => i < t.nameCount && NameRva(m, t, i).Some?,
         (i: nat) => i < t.nameCount && Matches(m, span, t, target, i),
         (i: nat) => if i < t.nameCount then EntryAt(m, span, t, i) else Unusable)
  }

  predicate AllRead(v: View, n: nat)
  {
    forall i :: 0 <= i < n ==> v.legible(i)
  }

  predicate NoneBefore(v: View, n: nat)
  {
    forall i :: 0 <= i < n ==> !v.matches(i)
  }

  /** The k-th name is the only match among the first n. */
  predicate OnlyMatch(v: View, n: nat, k: nat)
  {
    k < n && v.matches(k) && forall i :: 0 <= i < n && i != k ==> !v.matches(i)
  }

  /** Every name reads, exactly one is the target, and it leads to code in the image. */
  predicate Resolves(v: View, address: u64)
  {
    AllRead(v, v.count) && exists k :: 0 <= k < v.count && OnlyMatch(v, v.count, k) && v.entry(k) == Lands(address)
  }

  /** The names read up to the first match, and that one is forwarded. */
  predicate ResolvesToForwarder(v: View)
  {
    exists k :: 0 <= k < v.count && AllRead(v, k + 1) && NoneBefore(v, k) && v.matches(k) && v.entry(k).Forwards?
  }

  /** What the scan knows after n names: none matched, or exactly one did and it lands. */
  predicate ScanState(v: View, n: nat, found: Option<u64>)
  {
    && AllRead(v, n)
    && (found.None? ==> NoneBefore(v, n))
    && (found.Some? ==> exists k :: 0 <= k < n && OnlyMatch(v, n, k) && v.entry(k) == Lands(found.value))
  }

  /** The outcome is right for the table. */
  ghost predicate Right(v: View, r: Outcome)
  {
    && (forall a: u64 :: r == Found(a) <==> Resolves(v, a))
    && (r == Forwarded <==> ResolvesToForwarder(v))
    && r != InvalidRange
  }

  lemma ScanEnds(v: View, found: Option<u64>)
    requires ScanState(v, v.count, found)
    ensures Right(v, if found.Some? then Found(found.value) else NotFound)
  {
    if found.Some? {
      var k :| 0 <= k < v.count && OnlyMatch(v, v.count, k) && v.entry(k) == Lands(found.value);
      forall a: u64 ensures a == found.value <==> Resolves(v, a) {
        if Resolves(v, a) {
          var j :| 0 <= j < v.count && OnlyMatch(v, v.count, j) && v.entry(j) == Lands(a);
          assert j == k;
        }
      }
    }
  }

  lemma SecondMatch(v: View, n: nat, found: u64)
    requires n < v.count && ScanState(v, n, Some(found)) && v.matches(n)
    ensures Right(v, NotFound)
  {
    var k :| 0 <= k < n && OnlyMatch(v, n, k) && v.entry(k) == Lands(found);
  }

  lemma FirstMatchDecides(v: View, n: nat)
    requires n < v.count && ScanState(v, n, None) && v.legible(n) && v.matches(n) && !v.entry(n).Lands?
    ensures Right(v, if v.entry(n).Forwards? then Forwarded else NotFound)
  {
    if v.entry(n).Forwards? {
      assert AllRead(v, n + 1) && NoneBefore(v, n);
    }
  }

  lemma UnreadableName(v: View, n: nat, found: Option<u64>)
    requires n < v.count && ScanState(v, n, found) && !v.legible(n)
    requires forall i :: v.matches(i) ==> v.legible(i)
    ensures Right(v, NotFound)
  {
  }

  lemma OneMoreName(v: View, n: nat, found: Option<u64>)
    requires n < v.count && ScanState(v, n, found) && v.legible(n)
    ensures !v.matches(n) ==> ScanState(v, n + 1, found)
    ensures found.None? && v.matches(n) && v.entry(n).Lands? ==> ScanState(v, n + 1, Some(v.entry(n).address))
  {
    if found.Some? && !v.matches(n) {
      var k :| 0 <= k < n && OnlyMatch(v, n, k) && v.entry(k) == Lands(found.value);
      assert OnlyMatch(v, n + 1, k);
    }
    if found.None? && v.matches(n) && v.entry(n).Lands? {
      assert OnlyMatch(v, n + 1, n);
    }
  }

  /** A resolved address is code in the image: never the image base, never inside the directory. */
  lemma ResolvedIsCode(m: Memory, span: Span, t: Tables, target: seq<u8>, address: u64)
    requires TablesInside(span, t) && Resolves(ViewOf(m, span, t, target), address)
    ensures span.Contains(address) && address != span.base
    ensures !(t.directory <= address - span.base < t.directory + t.directorySize)
  {
    var v := ViewOf(m, span, t, target);
    var k :| 0 <= k < v.count && OnlyMatch(v, v.count, k) && v.entry(k) == Lands(address);
    assert EntryAt(m, span, t, k) == Lands(address);
  }

  // ---------------------------------------------------------------------------------------
  // The outcomes, in the terms of the image's bytes
  // ---------------------------------------------------------------------------------------

  lemma NoZeroInside(m: Memory, span: Span, at: int, b: seq<u8>, k: nat)
    requires NameIs(m, span, at, b) && 0 !in b && k < |b|
    ensures !ByteIs(m, span, at + k, 0)
  {
    assert b[k] in b && ByteIs(m, span, at + k, b[k]);
  }

  lemma NotShorter(m: Memory, span: Span, at: int, a: seq<u8>, b: seq<u8>)
    requires NameIs(m, span, at, a) && NameIs(m, span, at, b) && 0 !in b
    ensures |a| >= |b|
  {
    if |a| < |b| {
      NoZeroInside(m, span, at, b, |a|);
    }
  }

  /** A stored name matches at most one target, so no name is taken for a longer or a shorter one. */
  lemma NameIsUnique(m: Memory, span: Span, at: int, a: seq<u8>, b: seq<u8>)
    requires NameIs(m, span, at, a) && NameIs(m, span, at, b) && 0 !in a && 0 !in b
    ensures a == b
  {
    NotShorter(m, span, at, a, b);
    NotShorter(m, span, at, b, a);
    forall i | 0 <= i < |a| ensures a[i] == b[i] {
      assert ByteIs(m, span, at + i, a[i]) && ByteIs(m, span, at + i, b[i]);
    }
  }

  /** The i-th name pointer leads to the target, spelled out in the image. */
  predicate Names(m: Memory, span: Span, t: Tables, target: seq<u8>, i: nat)
    requires TablesInside(span, t) && i < t.nameCount
  {
    && Readable(m, t.names + 4 * i, 4)
    && span.base + Dword(m, t.names + 4 * i) < span.end
    && NameIs(m, span, span.base + Dword(m, t.names + 4 * i), target)
  }

  /** Where the i-th ordinal points in the function table. */
  function SlotAt(m: Memory, t: Tables, i: nat): (slot: int)
    requires t.ordinals + 2 * i + 2 <= TWO_64
  {
    t.functions + 4 * Half(m, t.ordinals + 2 * i)
  }

  /** The i-th ordinal reads, is in range, and its function slot reads and is used. */
  predicate Selects(m: Memory, span: Span, t: Tables, i: nat)
    requires TablesInside(span, t) && i < t.nameCount
  {
    && Readable(m, t.ordinals + 2 * i, 2)
    && Half(m, t.ordinals + 2 * i) < t.functionCount
    && Readable(m, SlotAt(m, t, i), 4) && Dword(m, SlotAt(m, t, i)) != 0
  }

  predicate InDirectory(t: Tables, rva: int)
  {
    t.directory <= rva < t.directory + t.directorySize
  }

  lemma MatchesMeans(m: Memory, span: Span, t: Tables, target: seq<u8>, i: nat)
    requires span.Valid() && TablesInside(span, t) && i < t.nameCount
    ensures Matches(m, span, t, target, i) <==> Names(m, span, t, target, i)
  {
    if Readable(m, t.names + 4 * i, 4) {
      CheckedRvaMeans(span, Dword(m, t.names + 4 * i), 1);
    }
  }

  /** The function of the i-th name: its address, in the image and not a forwarder string. */
  predicate Exported(m: Memory, span: Span, t: Tables, i: nat, address: int)
    requires TablesInside(span, t) && i < t.nameCount
  {
    && Selects(m, span, t, i) && !InDirectory(t, Dword(m, SlotAt(m, t, i)))
    && address == span.base + Dword(m, SlotAt(m, t, i)) < span.end
  }

  lemma EntryMeans(m: Memory, span: Span, t: Tables, i: nat, address: u64)
    requires span.Valid() && TablesInside(span, t) && i < t.nameCount
    ensures EntryAt(m, span, t, i) == Lands(address) <==> Exported(m, span, t, i, address)
    ensures EntryAt(m, span, t, i) == Forwards <==>
            Selects(m, span, t, i) && InDirectory(t, Dword(m, SlotAt(m, t, i)))
  {
    if Selects(m, span, t, i) {
      CheckedRvaMeans(span, Dword(m, SlotAt(m, t, i)), 1);
    }
  }

  /** The k-th name is the target and no other is. */
  predicate OnlyName(m: Memory, span: Span, t: Tables, target: seq<u8>, k: nat)
    requires TablesInside(span, t)
  {
    && k < t.nameCount && Names(m, span, t, target, k)
    && forall i :: 0 <= i < t.nameCount && i != k ==> !Names(m, span, t, target, i)
  }

  predicate PointerReads(m: Memory, t: Tables, i: nat)
  {
    Readable(m, t.names + 4 * i, 4)
  }

  predicate NamesRead(m: Memory, t: Tables, n: nat)
  {
    forall i :: 0 <= i < n ==> PointerReads(m, t, i)
  }

  lemma OnlyMatchMeans(m: Memory, span: Span, t: Tables, target: seq<u8>, k: nat)
    requires span.Valid() && TablesInside(span, t)
    ensures OnlyMatch(ViewOf(m, span, t, target), t.nameCount, k) <==> OnlyName(m, span, t, target, k)
  {
    var v := ViewOf(m, span, t, target);
    forall i | 0 <= i < t.nameCount ensures v.matches(i) == Names(m, span, t, target, i) {
      MatchesMeans(m, span, t, target, i);
    }
  }

  lemma AllReadMeans(m: Memory, span: Span, t: Tables, target: seq<u8>)
    requires TablesInside(span, t)
    ensures AllRead(ViewOf(m, span, t, target), t.nameCount) <==> NamesRead(m, t, t.nameCount)
  {
    var v := ViewOf(m, span, t, target);
    forall i | 0 <= i < t.nameCount ensures v.legible(i) == PointerReads(m, t, i) {
    }
  }

  /** An export resolves exactly to the function that the ordinal of the only matching name selects. */
  lemma ResolvesMeans(m: Memory, span: Span, t: Tables, target: seq<u8>, address: u64)
    requires span.Valid() && TablesInside(span, t)
    ensures Resolves(ViewOf(m, span, t, target), address) <==>
            && NamesRead(m, t, t.nameCount)
            && exists k :: 0 <= k < t.nameCount && OnlyName(m, span, t, target, k) && Exported(m, span, t, k, address)
  {
    var v := ViewOf(m, span, t, target);
    AllReadMeans(m, span, t, target);
    forall k | 0 <= k < t.nameCount
      ensures OnlyMatch(v, v.count, k) <==> OnlyName(m, span, t, target, k)
      ensures v.entry(k) == Lands(address) <==> Exported(m, span, t, k, address)
    {
      OnlyMatchMeans(m, span, t, target, k);
      EntryMeans(m, span, t, k, address);
    }
  }

  /** And it is forwarded exactly when the names read up to the first match and that one's slot is in the directory. */
  lemma ForwardsMeans(m: Memory, span: Span, t: Tables, target: seq<u8>)
    requires span.Valid() && TablesInside(span, t)
    ensures ResolvesToForwarder(ViewOf(m, span, t, target)) <==>
            exists k :: && 0 <= k < t.nameCount && NamesRead(m, t, k) && Names(m, span, t, target, k)
                        && Selects(m, span, t, k) && InDirectory(t, Dword(m, SlotAt(m, t, k)))
                        && forall i :: 0 <= i < k ==> !Names(m, span, t, target, i)
  {
    var v := ViewOf(m, span, t, target);
    forall i | 0 <= i < t.nameCount
      ensures v.legible(i) == PointerReads(m, t, i)
      ensures v.matches(i) == Names(m, span, t, target, i)
      ensures v.entry(i).Forwards? <==> Selects(m, span, t, i) && InDirectory(t, Dword(m, SlotAt(m, t, i)))
    {
      MatchesMeans(m, span, t, target, i);
      EntryMeans(m, span, t, i, 0);
    }
    forall k | 0 <= k < t.nameCount && Names(m, span, t, target, k)
      ensures AllRead(v, k + 1) <==> NamesRead(m, t, k)
      ensures NoneBefore(v, k) <==> forall i :: 0 <= i < k ==> !Names(m, span, t, target, i)
    {
      assert PointerReads(m, t, k);
    }
  }

  /** The outcome in bytes: the function that the only matching name's ordinal selects, and nothing else, is found. */
  ghost predicate FoundInBytes(m: Memory, span: Span, t: Tables, target: seq<u8>, r: Outcome)
    requires TablesInside(span, t)
  {
    forall a: u64 :: r == Found(a) <==>
      && NamesRead(m, t, t.nameCount)
      && exists k :: 0 <= k < t.nameCount && OnlyName(m, span, t, target, k) && Exported(m, span, t, k, a)
  }

  lemma RightInBytes(m: Memory, span: Span, t: Tables, target: seq<u8>, r: Outcome)
    requires span.Valid() && TablesInside(span, t) && Right(ViewOf(m, span, t, target), r)
    ensures FoundInBytes(m, span, t, target, r)
  {
    forall a: u64
      ensures r == Found(a) <==>
              && NamesRead(m, t, t.nameCount)
              && exists k :: 0 <= k < t.nameCount && OnlyName(m, span, t, target, k) && Exported(m, span, t, k, a)
    {
      ResolvesMeans(m, span, t, target, a);
    }
  }

  /** The DOS and NT headers: signatures, a 64-bit optional header, and all of it in the image. */
  predicate ImageOk(m: Memory, span: Span, nt: int)
  {
    && span.base != 0 && span.base < span.end
    && Readable(m, span.base, 64) && Half(m, span.base) == 0x5A4D
    && Dword(m, span.base + 0x3C) < 0x8000_0000
    && nt == span.base + Dword(m, span.base + 0x3C) && nt + 264 <= span.end
    && Readable(m, nt, 264) && Dword(m, nt) == 0x4550 && Half(m, nt + 24) == 0x20B
  }

  /** The export data directory is declared, and the export directory it names is in the image and reads. */
  predicate DirectoryOk(m: Memory, span: Span, nt: int, at: int)
    requires 0 <= nt && nt + 264 <= TWO_64
  {
    && Half(m, nt + 20) >= 120 && Dword(m, nt + 132) > 0
    && Dword(m, nt + 136) != 0 && Dword(m, nt + 140) >= 40
    && at == span.base + Dword(m, nt + 136) && at + Dword(m, nt + 140) <= span.end
    && Readable(m, at, 40)
  }

  /** The fields of an export directory, in the order of the format. */
  predicate TablesRead(m: Memory, span: Span, nt: int, at: int, t: Tables)
    requires 0 <= nt && nt + 264 <= TWO_64 && 0 <= at && at + 40 <= TWO_64
  {
    && t.functionCount == Dword(m, at + 20)
    && t.nameCount == Dword(m, at + 24)
    && t.functions == span.base + Dword(m, at + 28)
    && t.names == span.base + Dword(m, at + 32)
    && t.ordinals == span.base + Dword(m, at + 36)
    && t.directory == Dword(m, nt + 136) && t.directorySize == Dword(m, nt + 140)
  }

  lemma BadImageMeans(m: Memory, span: Span)
    ensures HeadersOf(m, span).BadImage? <==> !exists nt :: ImageOk(m, span, nt)
  {
    if span.Valid() && DosOk(m, span.base) {
      var nt := span.base + Dword(m, span.base + 0x3C);
      CheckedRvaMeans(span, Dword(m, span.base + 0x3C), NT_SIZE);
      assert NtOf(m, span).Some? <==> nt + 264 <= span.end;
      assert ImageOk(m, span, nt) <==> NtOf(m, span).Some? && NtOk(m, nt);
    }
  }

  lemma DirectoryMeans(m: Memory, span: Span, nt: u64)
    requires ImageOk(m, span, nt)
    ensures HeadersOf(m, span) == DirectoryOf(m, span, nt)
  {
    CheckedRvaMeans(span, Dword(m, span.base + 0x3C), NT_SIZE);
  }

  lemma TablesAtIs(span: Span, nameCount: u32, functionCount: u32, names: u32, ordinals: u32, functions: u32,
                   directory: u32, directorySize: u32, t: Tables)
    requires span.Valid()
    ensures TablesAt(span, nameCount, functionCount, names, ordinals, functions, directory, directorySize) == Exports(t)
       <==> && t.functionCount == functionCount && t.nameCount == nameCount
            && t.functions == span.base + functions && t.names == span.base + names
            && t.ordinals == span.base + ordinals
            && t.directory == directory && t.directorySize == directorySize && TablesInside(span, t)
  {
    TablesAtMeans(span, nameCount, functionCount, names, ordinals, functions, directory, directorySize);
  }

  lemma DirectoryAtMeans(m: Memory, span: Span, nt: u64, at: u64)
    requires span.Valid() && NtOk(m, nt)
    ensures DirectoryAt(m, span, nt) == Some(at) <==> DirectoryOk(m, span, nt, at)
  {
    CheckedRvaMeans(span, Dword(m, nt + 136), Dword(m, nt + 140));
  }

  /** Exports are reported exactly when the directory and the tables it declares are in order; and they are those. */
  lemma ExportsMean(m: Memory, span: Span, nt: u64, t: Tables)
    requires ImageOk(m, span, nt)
    ensures HeadersOf(m, span) == Exports(t) <==>
            exists at: u64 :: && DirectoryOk(m, span, nt, at) && at + 40 <= TWO_64 && TablesRead(m, span, nt, at, t)
                              && TablesInside(span, t)
  {
    DirectoryMeans(m, span, nt);
    var at := DirectoryAt(m, span, nt);
    forall x: u64 ensures DirectoryOk(m, span, nt, x) <==> at == Some(x) {
      DirectoryAtMeans(m, span, nt, x);
    }
    if at.Some? {
      TablesOfMeans(m, span, nt, at.value, t);
    }
  }

  lemma TablesOfMeans(m: Memory, span: Span, nt: u64, at: u64, t: Tables)
    requires ImageOk(m, span, nt) && DirectoryOk(m, span, nt, at)
    ensures TablesOf(m, span, at, Dword(m, nt + 136), Dword(m, nt + 140)) == Exports(t) <==>
            TablesRead(m, span, nt, at, t) && TablesInside(span, t)
  {
    TablesAtIs(span, Dword(m, at + 24), Dword(m, at + 20), Dword(m, at + 32), Dword(m, at + 36), Dword(m, at + 28),
               Dword(m, nt + 136), Dword(m, nt + 140), t);
  }

  /** Whether the i-th name is the target, reading the table and then the name. */
  method TestName(m: Memory, span: Span, t: Tables, target: seq<u8>, i: nat)
    returns (legible: bool, matches: bool, log: seq<Access>)
    requires TablesInside(span, t) && i < t.nameCount
    ensures legible == NameRva(m, t, i).Some? && matches == Matches(m, span, t, target, i)
    ensures LogInside(span, log)
  {
    log := [Access(t.names + 4 * i, 4)];
    var rva := NameRva(m, t, i);
    legible, matches := rva.Some?, false;
    if legible {
      var at := CheckedRva(span, rva.value, 1);
      if at.Some? {
        var more;
        matches, more := NameMatches(m, span, at.value, target);
        log := log + more;
      }
    }
  }

  /** The linear scan over the parallel name and ordinal tables. */
  method ScanNames(m: Memory, span: Span, t: Tables, target: seq<u8>, ghost v: View)
    returns (r: Outcome, log: seq<Access>)
    requires TablesInside(span, t) && v == ViewOf(m, span, t, target)
    ensures Right(v, r)
    ensures LogInside(span, log)
  {
    var found: Option<u64> := None;
    log := [];
    var i := 0;
    while i < t.nameCount
      invariant 0 <= i <= t.nameCount && ScanState(v, i, found)
      invariant LogInside(span, log)
    {
      var legible, matches, more := TestName(m, span, t, target, i);
      log := log + more;
      if !legible {
        UnreadableName(v, i, found);
        return NotFound, log;
      }
      OneMoreName(v, i, found);
      if matches {
        if found.Some? {
          SecondMatch(v, i, found.value);
          return NotFound, log;
        }
        var entry, last := ReadEntry(m, span, t, i);
        log := log + last;
        if !entry.Lands? {
          FirstMatchDecides(v, i);
          return if entry.Forwards? then Forwarded else NotFound, log;
        }
        found := Some(entry.address);
      }
      i := i + 1;
    }
    ScanEnds(v, found);
    r := if found.Some? then Found(found.value) else NotFound;
  }

  /** Only the DOS header is read before the image bounds are known to hold. */
  predicate HeaderLog(span: Span, log: seq<Access>)
  {
    log == [] || (log[0] == Access(span.base, DOS_SIZE) && LogInside(span, log[1..]))
  }

  method ReadHeaders(m: Memory, span: Span) returns (h: Headers, log: seq<Access>)
    ensures h == HeadersOf(m, span)
    ensures HeaderLog(span, log) && (log == [] ==> h.BadImage?)
  {
    log := [];
    if !span.Valid() {
      return BadImage, log;
    }
    log := [Access(span.base, DOS_SIZE)];
    if !DosOk(m, span.base) {
      return BadImage, log;
    }
    var nt := NtOf(m, span);
    if nt.None? {
      return BadImage, log;
    }
    CheckedRvaMeans(span, Dword(m, span.base + 0x3C), NT_SIZE);
    log := log + [Access(nt.value, NT_SIZE)];
    if !NtOk(m, nt.value) {
      return BadImage, log;
    }
    var more;
    h, more := ReadDirectory(m, span, nt.value);
    log := log + more;
  }

  method ReadDirectory(m: Memory, span: Span, nt: u64) returns (h: Headers, log: seq<Access>)
    requires span.Valid() && NtOk(m, nt)
    ensures h == DirectoryOf(m, span, nt)
    ensures LogInside(span, log)
  {
    log := [];
    if !HasDirectory(m, nt) {
      return NoExports, log;
    }
    var directory, size := Dword(m, nt + 136), Dword(m, nt + 140);
    var at := CheckedRva(span, directory, size);
    if at.None? || size < DIRECTORY_SIZE {
      return NoExports, log;
    }
    CheckedRvaMeans(span, directory, size);
    log := [Access(at.value, DIRECTORY_SIZE)];
    if !Readable(m, at.value, DIRECTORY_SIZE) {
      return NoExports, log;
    }
    h := TablesOf(m, span, at.value, directory, size);
  }

  /** The outcome is right for what the headers say. */
  ghost predicate Answers(m: Memory, span: Span, target: seq<u8>, h: Headers, r: Outcome)
  {
    && (r == InvalidRange <==> h.BadImage?)
    && (h.NoExports? ==> r == NotFound)
    && (h.Exports? ==> TablesInside(span, h.tables) && Right(ViewOf(m, span, h.tables, target), r))
  }

  method AnswerFrom(m: Memory, span: Span, target: seq<u8>, h: Headers) returns (r: Outcome, log: seq<Access>)
    requires h.Exports? ==> TablesInside(span, h.tables)
    ensures Answers(m, span, target, h, r)
    ensures LogInside(span, log) && (h.BadImage? ==> log == [])
  {
    log := [];
    match h {
      case BadImage => r := InvalidRange;
      case NoExports => r := NotFound;
      case Exports(t) => r, log := ScanNames(m, span, t, target, ViewOf(m, span, t, target));
    }
  }

  /**
   An export resolves exactly when the image's headers and tables are in order, every name reads, exactly one
   name is the target, and its entry lands in the image outside the directory. After the DOS header every read
   lies inside the image.
   */
  method ResolveExport(m: Memory, span: Span, target: seq<u8>) returns (r: Outcome, log: seq<Access>)
    ensures target == [] ==> r == NotFound
    ensures target != [] ==> Answers(m, span, target, HeadersOf(m, span), r)
    ensures target != [] && HeadersOf(m, span).Exports? ==>
              && TablesInside(span, HeadersOf(m, span).tables)
              && FoundInBytes(m, span, HeadersOf(m, span).tables, target, r)
    ensures HeaderLog(span, log)
  {
    if target == [] {
      return NotFound, [];
    }
    var h, more;
    h, log := ReadHeaders(m, span);
    if h.Exports? {
      TablesAreInside(m, span);
    }
    r, more := AnswerFrom(m, span, target, h);
    log := log + more;
    if h.Exports? {
      RightInBytes(m, span, h.tables, target, r);
    }
  }
}
