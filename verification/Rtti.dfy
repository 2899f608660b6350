/**
 The reverse RTTI sweep: finding the vtables of a mangled type name in a module image.

 The sweep reads windows a page at a time and examines the qwords of each page in a buffer. It is compared
 with a search that reads every qword-aligned slot of the window on its own.
 */
module Rtti {
  import opened MachineInts
  import opened Options
  import opened Image

  const MAX_MATCHES: nat := 64
  const MAX_TYPE_NAME_LEN: nat := 1024
  const COL_SIZE: int := 24
  const NAME_OFFSET: int := 0x10

  datatype Site = Site(nameAddr: u64, moduleEnd: u64, colOffset: nat)

  datatype Match = Match(vtable: int, colOffset: nat)

  /**
   What a sweep looks for, and where: the scan scope, the module that owns its vtables when the scan could
   resolve it, and the loader's answer for a single address otherwise.
   */
  datatype Query = Query(mangled: seq<u8>, scope: Span, owning: Span, moduleOf: u64 -> Span)

  function Owner(q: Query, vtable: u64): (span: Span)
  {
    if q.owning.Valid() then q.owning else q.moduleOf(vtable)
  }

  datatype Window = Window(begin: u64, end: u64)

  // ---------------------------------------------------------------------------------------
  // One candidate
  // ---------------------------------------------------------------------------------------

  /** The complete-object-locator checks: every address stays inside the owning module. */
  function ResolveSite(m: Memory, vtable: int, span: Span): (r: Option<Site>)
  {
    if vtable < LOWEST || !span.Contains(vtable) then None
    else
      var col := Read(m, vtable - 8, 8);
      if col.None? || !span.Contains(col.value) || span.end - col.value < COL_SIZE then None
      else if !Readable(m, col.value, COL_SIZE) then None
      else SiteOf(m, col.value, span)
  }

  function SiteOf(m: Memory, col: nat, span: Span): (r: Option<Site>)
    requires col + COL_SIZE <= TWO_64
  {
    var signature, offset := Value(m, col, 4), Value(m, col + 4, 4);
    var descriptor, self := Value(m, col + 12, 4), Value(m, col + 20, 4);
    if descriptor == 0 || signature != 1 || self == 0 || col < self || col - self != span.base then None
    else
      var nameAddr := Wrap64(Wrap64(span.base + descriptor) + NAME_OFFSET);
      if !span.Contains(nameAddr) then None else Some(Site(nameAddr, span.end, offset))
  }

  /** The name with its terminator, byte for byte, inside the module. */
  predicate NameEquals(m: Memory, nameAddr: int, mangled: seq<u8>, moduleEnd: int)
  {
    && nameAddr < moduleEnd && moduleEnd - nameAddr >= |mangled| + 1
    && Readable(m, nameAddr, |mangled| + 1)
    && (forall i :: 0 <= i < |mangled| ==> m.byte(nameAddr + i) == mangled[i])
    && m.byte(nameAddr + |mangled|) == 0
  }

  /** A slot holding `value` belongs to a vtable of the queried type; its locator's offset is returned. */
  function Candidate(m: Memory, q: Query, slot: int, value: nat): (r: Option<nat>)
  {
    if !q.scope.Contains(value) || slot + 8 < 0 || slot + 8 >= TWO_64 then None
    else
      var site := ResolveSite(m, slot + 8, Owner(q, slot + 8));
      if site.None? || !NameEquals(m, site.value.nameAddr, q.mangled, site.value.moduleEnd) then None
      else Some(site.value.colOffset)
  }

  /** What a search that reads this slot alone accepts. */
  function Accept(m: Memory, q: Query, slot: int): (r: Option<nat>)
  {
    var value := Read(m, slot, 8);
    if value.None? then None else Candidate(m, q, slot, value.value)
  }

  /** A complete-object locator of the module at this address: signature 1, and a self reference to where it is. */
  predicate Locator(m: Memory, span: Span, col: nat)
    requires col + 24 <= TWO_64
  {
    && Readable(m, col, 24)
    && Value(m, col, 4) == 1
    && Value(m, col + 12, 4) != 0
    && 0 < Value(m, col + 20, 4) == col - span.base
  }

  /** Where a locator's type descriptor keeps the name. */
  function NameAt(m: Memory, span: Span, col: nat): (a: u64)
    requires col + 24 <= TWO_64
  {
    Wrap64(span.base + Value(m, col + 12, 4) + 16)
  }

  lemma TwoWraps(a: int, b: int)
    ensures Wrap64(Wrap64(a) + b) == Wrap64(a + b)
  {
    assert a == a / TWO_64 * TWO_64 + a % TWO_64;
    var k := a / TWO_64;
    assert (a % TWO_64 + b + k * TWO_64) % TWO_64 == (a % TWO_64 + b) % TWO_64;
  }

  lemma SiteMeans(m: Memory, col: nat, span: Span)
    requires col + 24 <= TWO_64 && Readable(m, col, 24)
    ensures SiteOf(m, col, span) ==
            if Locator(m, span, col) && span.Contains(NameAt(m, span, col))
            then Some(Site(NameAt(m, span, col), span.end, Value(m, col + 4, 4))) else None
  {
    TwoWraps(span.base + Value(m, col + 12, 4), 16);
  }

  /** The vtable after the slot belongs to the module, and the slot points at a locator of the module, at `col`. */
  predicate Sited(m: Memory, span: Span, slot: u64, col: nat)
  {
    && slot + 8 >= 0x1_0000 && span.Contains(slot + 8)
    && span.Contains(col) && col + 24 <= span.end
    && Locator(m, span, col) && span.Contains(NameAt(m, span, col))
  }

  lemma ResolveSiteMeans(m: Memory, slot: u64, span: Span, col: nat)
    requires Read(m, slot, 8) == Some(col)
    ensures ResolveSite(m, slot + 8, span) ==
            if Sited(m, span, slot, col)
            then Some(Site(NameAt(m, span, col), span.end, Value(m, col + 4, 4))) else None
  {
    if span.Contains(col) && col + 24 <= span.end && Readable(m, col, 24) {
      SiteMeans(m, col, span);
    }
  }

  /** The module that owns a vtable: the scope's, or the one the loader knows for the address. */
  function OwnerAt(q: Query, vtable: u64): (span: Span)
  {
    if q.owning.base != 0 && q.owning.base < q.owning.end then q.owning else q.moduleOf(vtable)
  }

  /** The bytes from an address on are this name and a zero, all below the end. */
  predicate Spells(m: Memory, at: nat, name: seq<u8>, end: u64)
  {
    && at + |name| < end && Readable(m, at, |name| + 1)
    && (forall b: u64 :: at <= b < at + |name| ==> m.byte(b) == name[b - at])
    && m.byte(at + |name|) == 0
  }

  lemma SpellsIs(m: Memory, at: u64, name: seq<u8>, end: u64)
    ensures NameEquals(m, at, name, end) <==> Spells(m, at, name, end)
  {
    if Spells(m, at, name, end) {
      forall i | 0 <= i < |name| ensures m.byte(at + i) == name[i] {
        var b: u64 := at + i;
        assert m.byte(b) == name[b - at];
      }
    }
    if NameEquals(m, at, name, end) {
      forall b: u64 | at <= b < at + |name| ensures m.byte(b) == name[b - at] {
        assert m.byte(at + (b - at)) == name[b - at];
      }
    }
  }

  /** A slot that holds a pointer into the scope, to a locator of its vtable's module, of the type named as asked. */
  predicate Wanted(m: Memory, q: Query, slot: u64, col: nat)
    requires slot + 8 < TWO_64
  {
    var span := OwnerAt(q, slot + 8);
    && q.scope.Contains(col) && Sited(m, span, slot, col)
    && Spells(m, NameAt(m, span, col), q.mangled, span.end)
  }

  lemma CandidateMeans(m: Memory, q: Query, slot: u64, col: nat)
    requires slot + 8 < TWO_64 && Read(m, slot, 8) == Some(col)
    ensures Candidate(m, q, slot, col) == if Wanted(m, q, slot, col) then Some(Value(m, col + 4, 4)) else None
  {
    var span := OwnerAt(q, slot + 8);
    ResolveSiteMeans(m, slot, span, col);
    if Sited(m, span, slot, col) {
      SpellsIs(m, NameAt(m, span, col), q.mangled, span.end);
    }
  }

  /** A slot is accepted exactly when it can be read and is wanted; what is returned is the locator's offset field. */
  lemma AcceptMeans(m: Memory, q: Query, slot: u64)
    ensures var col := Read(m, slot, 8);
            Accept(m, q, slot) ==
            if col.Some? && Wanted(m, q, slot, col.value) then Some(Value(m, col.value + 4, 4)) else None
  {
    var col := Read(m, slot, 8);
    if col.Some? {
      CandidateMeans(m, q, slot, col.value);
    }
  }

  // ---------------------------------------------------------------------------------------
  // The slot-by-slot search
  // ---------------------------------------------------------------------------------------

  predicate Listed(out: seq<Match>, vtable: int)
  {
    exists i :: 0 <= i < |out| && out[i].vtable == vtable
  }

  function Add(out: seq<Match>, slot: int, found: Option<nat>, cap: nat): (r: seq<Match>)
    ensures |out| <= |r|
  {
    if |out| < cap && found.Some? && !Listed(out, slot + 8) then out + [Match(slot + 8, found.value)] else out
  }

  /** The first `n` slots from an address, one at a time. */
  function Search(accept: int -> Option<nat>, from: int, n: nat, out: seq<Match>, cap: nat): (r: seq<Match>)
  {
    if n == 0 then out
    else Add(Search(accept, from, n - 1, out, cap), from + 8 * (n - 1), accept(from + 8 * (n - 1)), cap)
  }

  function AlignUp(a: nat): (r: nat)
    ensures a <= r < a + 8 && r % 8 == 0
  {
    (a + 7) / 8 * 8
  }

  /** How many whole qword-aligned slots a window holds. */
  function SlotCount(w: Window): (n: nat)
  {
    if AlignUp(w.begin) + 8 > w.end then 0 else (w.end - AlignUp(w.begin)) / 8
  }

  function SearchWindow(accept: int -> Option<nat>, w: Window, out: seq<Match>, cap: nat): (r: seq<Match>)
  {
    Search(accept, AlignUp(w.begin), SlotCount(w), out, cap)
  }

  /** All windows in turn. */
  function SearchAll(accept: int -> Option<nat>, ws: seq<Window>, out: seq<Match>, cap: nat): (r: seq<Match>)
  {
    if ws == [] then out else SearchWindow(accept, ws[|ws| - 1], SearchAll(accept, ws[..|ws| - 1], out, cap), cap)
  }

  // What the search collects.

  predicate InWindow(w: Window, slot: int)
  {
    slot % 8 == 0 && w.begin <= slot && slot + 8 <= w.end
  }

  lemma SlotIsInWindow(w: Window, i: nat)
    requires i < SlotCount(w)
    ensures InWindow(w, AlignUp(w.begin) + 8 * i)
  {
  }

  lemma WindowSlotIs(w: Window, slot: int) returns (i: nat)
    requires InWindow(w, slot)
    ensures i < SlotCount(w) && slot == AlignUp(w.begin) + 8 * i
  {
    var first := AlignUp(w.begin);
    i := (slot - first) / 8;
  }

  predicate Distinct(out: seq<Match>)
  {
    forall i, j :: 0 <= i < j < |out| ==> out[i].vtable != out[j].vtable
  }

  /** The match is what the slot before its vtable is accepted as. */
  predicate True(accept: int -> Option<nat>, x: Match)
  {
    accept(x.vtable - 8) == Some(x.colOffset)
  }

  lemma AddKeeps(accept: int -> Option<nat>, out: seq<Match>, slot: int, cap: nat)
    requires Distinct(out) && |out| <= cap && forall i :: 0 <= i < |out| ==> True(accept, out[i])
    ensures var r := Add(out, slot, accept(slot), cap);
            && Distinct(r) && |r| <= cap && (forall i :: 0 <= i < |r| ==> True(accept, r[i]))
            && (forall v :: Listed(out, v) ==> Listed(r, v))
            && (|r| < cap && accept(slot).Some? ==> Listed(r, slot + 8))
            && (forall v :: Listed(r, v) ==> Listed(out, v) || (v == slot + 8 && accept(slot).Some?))
  {
    var r := Add(out, slot, accept(slot), cap);
    if r != out {
      assert r[|out|] == Match(slot + 8, accept(slot).value);
      forall v | Listed(out, v) ensures Listed(r, v) {
        var i :| 0 <= i < |out| && out[i].vtable == v;
        assert r[i].vtable == v;
      }
    }
  }

  /** Accepted slots among the first n. */
  predicate Hit(accept: int -> Option<nat>, from: int, n: nat, v: int)
  {
    exists i :: 0 <= i < n && v == from + 8 * i + 8 && accept(from + 8 * i).Some?
  }

  /** A collection of true matches, each once, within the cap. */
  predicate Sound(accept: int -> Option<nat>, out: seq<Match>, cap: nat)
  {
    Distinct(out) && |out| <= cap && forall i :: 0 <= i < |out| ==> True(accept, out[i])
  }

  lemma {:induction false} SearchCollects(accept: int -> Option<nat>, from: int, n: nat, out: seq<Match>, cap: nat,
                                          v: int)
    requires Sound(accept, out, cap)
    ensures var r := Search(accept, from, n, out, cap);
            && Sound(accept, r, cap)
            && |out| <= |r|
            && (Listed(out, v) ==> Listed(r, v))
            && (|r| < cap && Hit(accept, from, n, v) ==> Listed(r, v))
            && (Listed(r, v) ==> Listed(out, v) || Hit(accept, from, n, v))
  {
    if n > 0 {
      var before := Search(accept, from, n - 1, out, cap);
      var slot := from + 8 * (n - 1);
      SearchCollects(accept, from, n - 1, out, cap, v);
      AddKeeps(accept, before, slot, cap);
      if Hit(accept, from, n, v) && v != slot + 8 {
        var i :| 0 <= i < n && v == from + 8 * i + 8 && accept(from + 8 * i).Some?;
        assert Hit(accept, from, n - 1, v);
      }
    }
  }

  /** A vtable whose slot lies in the window and is accepted. */
  predicate AcceptedIn(accept: int -> Option<nat>, w: Window, v: int)
  {
    InWindow(w, v - 8) && accept(v - 8).Some?
  }

  lemma HitIffAccepted(accept: int -> Option<nat>, w: Window, v: int)
    ensures Hit(accept, AlignUp(w.begin), SlotCount(w), v) <==> AcceptedIn(accept, w, v)
  {
    if Hit(accept, AlignUp(w.begin), SlotCount(w), v) {
      var i :| 0 <= i < SlotCount(w) && v == AlignUp(w.begin) + 8 * i + 8 && accept(AlignUp(w.begin) + 8 * i).Some?;
      SlotIsInWindow(w, i);
    }
    if AcceptedIn(accept, w, v) {
      var i := WindowSlotIs(w, v - 8);
      assert accept(AlignUp(w.begin) + 8 * i).Some?;
    }
  }

  predicate AcceptedAnywhere(accept: int -> Option<nat>, ws: seq<Window>, v: int)
  {
    exists i :: 0 <= i < |ws| && AcceptedIn(accept, ws[i], v)
  }

  /**
   Below its cap a scan collects exactly the accepted vtables of its windows, each once; at any size only true
   ones.
   */
  lemma {:induction false} ScanCollects(accept: int -> Option<nat>, ws: seq<Window>, cap: nat, v: int)
    ensures var r := SearchAll(accept, ws, [], cap);
            && Sound(accept, r, cap)
            && (|r| < cap && AcceptedAnywhere(accept, ws, v) ==> Listed(r, v))
            && (Listed(r, v) ==> AcceptedAnywhere(accept, ws, v))
  {
    if ws != [] {
      var n := |ws| - 1;
      var before, w := SearchAll(accept, ws[..n], [], cap), ws[n];
      ScanCollects(accept, ws[..n], cap, v);
      SearchCollects(accept, AlignUp(w.begin), SlotCount(w), before, cap, v);
      HitIffAccepted(accept, w, v);
      AnywhereSplits(accept, ws, v);
    }
  }

  lemma AnywhereSplits(accept: int -> Option<nat>, ws: seq<Window>, v: int)
    requires ws != []
    ensures AcceptedAnywhere(accept, ws, v) <==>
            AcceptedAnywhere(accept, ws[..|ws| - 1], v) || AcceptedIn(accept, ws[|ws| - 1], v)
  {
    var n := |ws| - 1;
    if AcceptedAnywhere(accept, ws[..n], v) {
      var i :| 0 <= i < n && AcceptedIn(accept, ws[..n][i], v);
      assert AcceptedIn(accept, ws[i], v);
    }
    if AcceptedAnywhere(accept, ws, v) {
      var i :| 0 <= i < |ws| && AcceptedIn(accept, ws[i], v);
      assert i < n ==> AcceptedIn(accept, ws[..n][i], v);
    }
  }

  /** The vtables accepted anywhere in the windows, each once. */
  ghost function AcceptedSet(accept: int -> Option<nat>, ws: seq<Window>): (r: set<int>)
  {
    set v | 0 <= v <= TWO_64 && AcceptedAnywhere(accept, ws, v)
  }

  function Vtables(out: seq<Match>): (r: set<int>)
  {
    set i | 0 <= i < |out| :: out[i].vtable
  }

  lemma {:induction false} DistinctCount(out: seq<Match>)
    requires Distinct(out)
    ensures |Vtables(out)| == |out|
  {
    if out != [] {
      var n := |out| - 1;
      DistinctCount(out[..n]);
      assert Vtables(out) == Vtables(out[..n]) + {out[n].vtable};
      assert out[n].vtable !in Vtables(out[..n]);
    }
  }

  /** The scan stays below its cap exactly when fewer distinct vtables than that are accepted in its windows. */
  lemma BelowCapIff(accept: int -> Option<nat>, ws: seq<Window>, cap: nat)
    ensures |SearchAll(accept, ws, [], cap)| < cap <==> |AcceptedSet(accept, ws)| < cap
  {
    var r := SearchAll(accept, ws, [], cap);
    ScanCollects(accept, ws, cap, 0);
    DistinctCount(r);
    forall v | v in Vtables(r) ensures v in AcceptedSet(accept, ws) {
      assert Listed(r, v);
      ScanCollects(accept, ws, cap, v);
    }
    assert AcceptedSet(accept, ws) == Vtables(r) + (AcceptedSet(accept, ws) - Vtables(r));
    if |r| < cap {
      forall v | v in AcceptedSet(accept, ws) ensures v in Vtables(r) {
        ScanCollects(accept, ws, cap, v);
      }
      assert Vtables(r) == AcceptedSet(accept, ws);
    }
  }

  // ---------------------------------------------------------------------------------------
  // Reading a page at a time
  // ---------------------------------------------------------------------------------------

  /** Inside one page, reading a run of aligned qwords succeeds exactly when reading each one does. */
  lemma PageReadsAlike(m: Memory, a: nat, n: nat, i: nat)
    requires PageGranular(m) && i < n && a % 8 == 0 && a / PAGE == (a + 8 * n - 1) / PAGE && a + 8 * n < TWO_64
    ensures Readable(m, a, 8 * n) <==> Readable(m, a + 8 * i, 8)
  {
    assert (a + 8 * i) / PAGE == a / PAGE;
    if Readable(m, a + 8 * i, 8) {
      assert m.readable(a + 8 * i);
      forall b: u64 | a <= b < a + 8 * n ensures m.readable(b) {
        assert b / PAGE == a / PAGE == (a + 8 * i) / PAGE;
      }
    }
  }

  function Acceptor(m: Memory, q: Query): (accept: int -> Option<nat>)
  {
    slot => Accept(m, q, slot)
  }

  function Word(m: Memory, a: nat): (r: nat)
    requires a + 8 <= TWO_64
  {
    Value(m, a, 8)
  }

  /** One guarded read of a run of qwords into the page buffer. */
  method ReadWords(m: Memory, addr: nat, want: nat, buf: array<nat>) returns (ok: bool)
    requires 0 < want <= buf.Length && addr + 8 * want < TWO_64
    modifies buf
    ensures ok == Readable(m, addr, 8 * want)
    ensures ok ==> forall j :: 0 <= j < want ==> buf[j] == Word(m, addr + 8 * j)
  {
    ok := Readable(m, addr, 8 * want);
    if ok {
      var j := 0;
      while j < want
        invariant 0 <= j <= want
        invariant forall k :: 0 <= k < j ==> buf[k] == Word(m, addr + 8 * k)
      {
        buf[j] := Word(m, addr + 8 * j);
        j := j + 1;
      }
    }
  }

  method IsListed(out: array<Match>, count: nat, vtable: int) returns (seen: bool)
    requires count <= out.Length
    ensures seen == Listed(out[..count], vtable)
  {
    var k := 0;
    while k < count
      invariant 0 <= k <= count
      invariant forall i :: 0 <= i < k ==> out[i].vtable != vtable
    {
      if out[k].vtable == vtable {
        assert out[..count][k].vtable == vtable;
        return true;
      }
      k := k + 1;
    }
    return false;
  }

  /** Append an accepted slot's vtable unless it is already there. */
  method Append(slot: int, found: Option<nat>, out: array<Match>, cap: nat, count: nat) returns (n: nat)
    requires count < cap <= out.Length
    modifies out
    ensures n <= cap && out[..n] == Add(old(out[..count]), slot, found, cap)
  {
    n := count;
    if found.Some? {
      var seen := IsListed(out, count, slot + 8);
      if !seen {
        out[count] := Match(slot + 8, found.value);
        n := count + 1;
        assert out[..n] == old(out[..count]) + [Match(slot + 8, found.value)];
      }
    }
  }

  /** The slots of one buffered chunk; `candidate` validates a slot from the value in the buffer. */
  method SweepChunk(candidate: (int, nat) -> Option<nat>, ghost accept: int -> Option<nat>, addr: nat, want: nat,
                    buf: array<nat>, out: array<Match>, cap: nat, count: nat) returns (n: nat)
    requires 0 < want <= buf.Length && count <= cap <= out.Length
    requires forall j :: 0 <= j < want ==> accept(addr + 8 * j) == candidate(addr + 8 * j, buf[j])
    modifies out
    ensures n <= cap && out[..n] == Search(accept, addr, want, old(out[..count]), cap)
  {
    n := count;
    var j := 0;
    while j < want && n < cap
      invariant 0 <= j <= want && n <= cap
      invariant buf[..want] == old(buf[..want])
      invariant out[..n] == Search(accept, addr, j, old(out[..count]), cap)
    {
      n := Append(addr + 8 * j, candidate(addr + 8 * j, buf[j]), out, cap, n);
      j := j + 1;
    }
    SearchFull(accept, addr, j, want, old(out[..count]), cap);
  }

  lemma {:induction false} SearchFull(accept: int -> Option<nat>, from: int, j: nat, n: nat, out: seq<Match>, cap: nat)
    requires j <= n && (j < n ==> |Search(accept, from, j, out, cap)| >= cap)
    ensures Search(accept, from, n, out, cap) == Search(accept, from, j, out, cap)
    decreases n
  {
    if j < n {
      SearchFull(accept, from, j, n - 1, out, cap);
    }
  }

  /** An unreadable chunk holds no acceptable slot. */
  lemma {:induction false} NothingAccepted(accept: int -> Option<nat>, from: int, n: nat, out: seq<Match>, cap: nat)
    requires forall i :: 0 <= i < n ==> accept(from + 8 * i).None?
    ensures Search(accept, from, n, out, cap) == out
  {
    if n > 0 {
      NothingAccepted(accept, from, n - 1, out, cap);
    }
  }

  lemma {:induction false} SearchJoins(accept: int -> Option<nat>, from: int, a: nat, b: nat, out: seq<Match>, cap: nat)
    ensures Search(accept, from, a + b, out, cap) ==
            Search(accept, from + 8 * a, b, Search(accept, from, a, out, cap), cap)
  {
    if b > 0 {
      SearchJoins(accept, from, a, b - 1, out, cap);
      assert from + 8 * (a + b - 1) == from + 8 * a + 8 * (b - 1);
    }
  }

  /** One chunk that does not cross a page: one guarded read decides all of its slots. */
  method SweepPage(m: Memory, q: Query, addr: nat, want: nat, buf: array<nat>, out: array<Match>, cap: nat, count: nat)
    returns (n: nat)
    requires PageGranular(m) && 0 < want <= buf.Length && addr + 8 * want < TWO_64 && count <= cap <= out.Length
    requires addr % 8 == 0 && addr / PAGE == (addr + 8 * want - 1) / PAGE
    modifies buf, out
    ensures n <= cap && out[..n] == Search(Acceptor(m, q), addr, want, old(out[..count]), cap)
  {
    var ok := ReadWords(m, addr, want, buf);
    forall j | 0 <= j < want ensures Readable(m, addr + 8 * j, 8) == ok {
      PageReadsAlike(m, addr, want, j);
    }
    if ok {
      n := SweepChunk((slot: int, value: nat) => Candidate(m, q, slot, value), Acceptor(m, q), addr, want, buf, out,
                      cap, count);
    } else {
      NothingAccepted(Acceptor(m, q), addr, want, out[..count], cap);
      n := count;
    }
  }

  lemma SamePage(p: nat, a: nat)
    requires p * PAGE <= a < (p + 1) * PAGE
    ensures a / PAGE == p
  {
  }

  lemma AlignedGap(a: nat, b: nat)
    requires a % 8 == 0 && b % 8 == 0 && a < b
    ensures a + 8 <= b
  {
  }

  lemma PageStart(p: nat)
    ensures p * PAGE % 8 == 0
  {
    assert p * PAGE == 8 * (512 * p);
  }

  lemma WholeQwords(addr: nat, stop: nat)
    requires addr + 8 <= stop
    ensures var n := (stop - addr) / 8;
            0 < n && addr + 8 * n <= stop && (stop - addr <= PAGE ==> n <= 512)
  {
  }

  /** How many whole qwords a chunk takes: up to the page end or the window end, never none. */
  method NextChunk(addr: nat, end: nat) returns (want: nat)
    requires addr % 8 == 0 && addr + 8 <= end
    ensures 0 < want <= 512 && addr + 8 * want <= end
    ensures addr / PAGE == (addr + 8 * want - 1) / PAGE
  {
    var page := addr / PAGE;
    var pageEnd := (page + 1) * PAGE;
    PageStart(page + 1);
    AlignedGap(addr, pageEnd);
    var chunkEnd := if pageEnd < end then pageEnd else end;
    var qwords := (chunkEnd - addr) / 8;
    WholeQwords(addr, chunkEnd);
    want := if qwords < 512 then qwords else 512;
    SamePage(page, addr + 8 * want - 1);
  }

  /** `total` is how many whole slots lie between an aligned address and the end. */
  predicate Holds(first: nat, end: nat, total: nat)
  {
    (total > 0 ==> first + 8 * total <= end) && first + 8 * total + 8 > end
  }

  lemma SlotCountHolds(w: Window)
    ensures Holds(AlignUp(w.begin), w.end, SlotCount(w))
  {
  }

  lemma EightTimes(unit: nat)
    ensures 8 * unit % 8 == 0
  {
  }

  /** One turn of the sweep: the next chunk, and how many slots it covered. */
  method SweepNext(m: Memory, q: Query, ghost accept: int -> Option<nat>, addr: nat, end: nat, buf: array<nat>,
                   out: array<Match>, cap: nat, count: nat, ghost unit: nat) returns (n: nat, want: nat)
    requires PageGranular(m) && accept == Acceptor(m, q) && buf.Length == 512 && count <= cap <= out.Length
    requires addr == 8 * unit && addr + 8 <= end < TWO_64
    modifies buf, out
    ensures 0 < want && addr + 8 * want <= end
    ensures n <= cap && out[..n] == Search(accept, addr, want, old(out[..count]), cap)
  {
    EightTimes(unit);
    want := NextChunk(addr, end);
    n := SweepPage(m, q, addr, want, buf, out, cap, count);
  }

  /** The search of the first k slots, as a function of k. */
  ghost function Prefix(accept: int -> Option<nat>, first: int, start: seq<Match>, cap: nat): (r: nat -> seq<Match>)
  {
    (k: nat) => Search(accept, first, k, start, cap)
  }

  lemma PrefixJoins(prefix: nat -> seq<Match>, accept: int -> Option<nat>, first: int, start: seq<Match>, cap: nat,
                    k: nat, want: nat, after: seq<Match>)
    requires prefix == Prefix(accept, first, start, cap)
    requires after == Search(accept, first + 8 * k, want, prefix(k), cap)
    ensures prefix(k + want) == after
  {
    SearchJoins(accept, first, k, want, start, cap);
  }

  lemma Advances(prefix: nat -> seq<Match>, accept: int -> Option<nat>, first: nat, start: seq<Match>, cap: nat,
                 k: nat, want: nat, before: seq<Match>, after: seq<Match>, end: nat, total: nat)
    requires prefix == Prefix(accept, first, start, cap) && before == prefix(k)
    requires after == Search(accept, first + 8 * k, want, before, cap)
    requires Holds(first, end, total) && first + 8 * k + 8 * want <= end
    ensures after == prefix(k + want) && k + want <= total
  {
    PrefixJoins(prefix, accept, first, start, cap, k, want, after);
  }

  lemma PrefixFull(prefix: nat -> seq<Match>, accept: int -> Option<nat>, first: int, start: seq<Match>, cap: nat,
                   k: nat, total: nat)
    requires prefix == Prefix(accept, first, start, cap) && k <= total && (k < total ==> |prefix(k)| >= cap)
    ensures Search(accept, first, total, start, cap) == prefix(k)
  {
    SearchFull(accept, first, k, total, start, cap);
  }

  method SweepSlots(m: Memory, q: Query, ghost accept: int -> Option<nat>, first: nat, end: nat, ghost total: nat,
                    out: array<Match>, cap: nat, count: nat, ghost unit: nat) returns (n: nat)
    requires PageGranular(m) && accept == Acceptor(m, q) && count <= cap <= out.Length
    requires first == 8 * unit && end < TWO_64 && Holds(first, end, total)
    modifies out
    ensures n <= cap && out[..n] == Search(accept, first, total, old(out[..count]), cap)
  {
    var buf := new nat[512];
    var addr := first;
    n := count;
    ghost var start := out[..count];
    ghost var prefix := Prefix(accept, first, start, cap);
    ghost var k := 0;
    assert prefix(0) == start;
    while addr + 8 <= end && n < cap
      invariant addr == first + 8 * k && k <= total && n <= cap
      invariant out[..n] == prefix(k)
      decreases end - addr
    {
      var want;
      ghost var before := out[..n];
      n, want := SweepNext(m, q, accept, addr, end, buf, out, cap, n, unit + k);
      Advances(prefix, accept, first, start, cap, k, want, before, out[..n], end, total);
      addr, k := addr + 8 * want, k + want;
    }
    PrefixFull(prefix, accept, first, start, cap, k, total);
  }

  /** The page-chunked sweep of one window equals the slot-by-slot search of it. */
  method SweepRange(m: Memory, q: Query, w: Window, out: array<Match>, cap: nat, count: nat) returns (n: nat)
    requires PageGranular(m) && w.end <= TWO_64 - PAGE && count <= cap <= out.Length
    modifies out
    ensures n <= cap && out[..n] == SearchWindow(Acceptor(m, q), w, old(out[..count]), cap)
  {
    SlotCountHolds(w);
    n := SweepSlots(m, q, Acceptor(m, q), AlignUp(w.begin), w.end, SlotCount(w), out, cap, count, AlignUp(w.begin) / 8);
  }

  predicate Scannable(mangled: seq<u8>)
  {
    mangled != [] && |mangled| < MAX_TYPE_NAME_LEN
  }

  /** The windows a scan sweeps: the readable data sections, or the whole image when none qualifies. */
  function WindowsOf(scope: Span, sections: seq<Window>): (ws: seq<Window>)
  {
    if sections == [] then [Window(scope.base, scope.end)] else sections
  }

  predicate InUserSpace(scope: Span, sections: seq<Window>)
  {
    scope.end <= TWO_64 - PAGE && forall i :: 0 <= i < |sections| ==> sections[i].end <= TWO_64 - PAGE
  }

  method ScanVtables(m: Memory, q: Query, sections: seq<Window>, out: array<Match>, cap: nat) returns (n: nat)
    requires PageGranular(m) && InUserSpace(q.scope, sections) && cap <= out.Length
    modifies out
    ensures n <= cap
    ensures out[..n] == if q.scope.Valid() && 0 < |q.mangled| < 1024
                        then SearchAll(Acceptor(m, q), if |sections| > 0 then sections
                                                       else [Window(q.scope.base, q.scope.end)], [], cap)
                        else []
  {
    n := 0;
    if !q.scope.Valid() || !Scannable(q.mangled) {
      return;
    }
    var ws := WindowsOf(q.scope, sections);
    var i := 0;
    while i < |ws| && n < cap
      invariant 0 <= i <= |ws| && n <= cap
      invariant out[..n] == SearchAll(Acceptor(m, q), ws[..i], [], cap)
    {
      n := SweepRange(m, q, ws[i], out, cap, n);
      assert ws[..i + 1][..i] == ws[..i];
      i := i + 1;
    }
    ScanFull(Acceptor(m, q), ws, i, cap);
    assert ws[..|ws|] == ws;
  }

  lemma {:induction false} ScanFull(accept: int -> Option<nat>, ws: seq<Window>, i: nat, cap: nat)
    requires i <= |ws| && (i < |ws| ==> |SearchAll(accept, ws[..i], [], cap)| >= cap)
    ensures SearchAll(accept, ws, [], cap) == SearchAll(accept, ws[..i], [], cap)
    decreases |ws|
  {
    if i == |ws| {
      assert ws[..i] == ws;
    } else {
      var n := |ws| - 1;
      assert ws[..n][..i] == ws[..i];
      ScanFull(accept, ws[..n], i, cap);
      SearchFull(accept, AlignUp(ws[n].begin), 0, SlotCount(ws[n]), SearchAll(accept, ws[..n], [], cap), cap);
    }
  }

  /** The offset-0 vtables among the matches. */
  predicate Primary(x: Match)
  {
    x.colOffset == 0
  }

  /**
   A vtable for a type name: the single offset-0 match, and only if the windows hold fewer vtables of the type than the
   scan has room for.
   */
  method VtableForType(m: Memory, q: Query, sections: seq<Window>) returns (r: Option<int>)
    requires PageGranular(m) && InUserSpace(q.scope, sections)
    ensures !q.scope.Valid() || |q.mangled| == 0 || |q.mangled| >= 1024 ==> r == None
    ensures q.scope.Valid() && 0 < |q.mangled| < 1024 ==>
              var ws := if |sections| > 0 then sections else [Window(q.scope.base, q.scope.end)];
              forall v :: r == Some(v) <==>
                |AcceptedSet(Acceptor(m, q), ws)| < 64 && Unique(Acceptor(m, q), ws, v)
  {
    var out := new Match[MAX_MATCHES](_ => Match(0, 0));
    var n := ScanVtables(m, q, sections, out, MAX_MATCHES);
    r := SelectPrimary(out, n);
    if q.scope.Valid() && Scannable(q.mangled) {
      ghost var accept, ws := Acceptor(m, q), WindowsOf(q.scope, sections);
      BelowCapIff(accept, ws, MAX_MATCHES);
      if r.Some? {
        SelectedIsUnique(accept, ws, out[..n], r.value);
      }
      if n < MAX_MATCHES {
        forall v | Unique(accept, ws, v) ensures r == Some(v) {
          UniqueIsSelected(accept, ws, out[..n], v);
        }
      }
    }
  }

  /** The one vtable of the windows accepted with offset 0. */
  ghost predicate Unique(accept: int -> Option<nat>, ws: seq<Window>, v: int)
  {
    && AcceptedAnywhere(accept, ws, v) && accept(v - 8) == Some(0)
    && forall u :: AcceptedAnywhere(accept, ws, u) && accept(u - 8) == Some(0) ==> u == v
  }

  /** Exactly one distinct primary, in a list that is not full. */
  predicate Selects(out: seq<Match>, v: int)
  {
    && |out| < MAX_MATCHES
    && (exists i :: 0 <= i < |out| && Primary(out[i]) && out[i].vtable == v)
    && (forall i :: 0 <= i < |out| && Primary(out[i]) ==> out[i].vtable == v)
  }

  method SelectPrimary(out: array<Match>, n: nat) returns (r: Option<int>)
    requires n <= out.Length && n <= MAX_MATCHES
    ensures r.Some? ==> Selects(out[..n], r.value)
    ensures forall v :: Selects(out[..n], v) ==> r == Some(v)
  {
    r := None;
    var i := 0;
    while i < n
      invariant 0 <= i <= n
      invariant r.None? ==> forall k :: 0 <= k < i ==> !Primary(out[k])
      invariant r.Some? ==> exists k :: 0 <= k < i && Primary(out[k]) && out[k].vtable == r.value
      invariant r.Some? ==> forall k :: 0 <= k < i && Primary(out[k]) ==> out[k].vtable == r.value
    {
      if Primary(out[i]) {
        if r.Some? && r.value != out[i].vtable {
          ghost var k :| 0 <= k < i && Primary(out[k]) && out[k].vtable == r.value;
          assert out[..n][k] == out[k] && out[..n][i] == out[i];
          return None;
        }
        r := Some(out[i].vtable);
      }
      i := i + 1;
    }
    if r.Some? {
      ghost var k :| 0 <= k < n && Primary(out[k]) && out[k].vtable == r.value;
      assert out[..n][k] == out[k];
    }
    if n == MAX_MATCHES && r.Some? {
      r := None;
    }
  }

  lemma SelectedIsUnique(accept: int -> Option<nat>, ws: seq<Window>, out: seq<Match>, v: int)
    requires out == SearchAll(accept, ws, [], MAX_MATCHES) && Selects(out, v)
    ensures Unique(accept, ws, v)
  {
    ScanCollects(accept, ws, MAX_MATCHES, v);
    var i :| 0 <= i < |out| && Primary(out[i]) && out[i].vtable == v;
    assert True(accept, out[i]);
    forall u | AcceptedAnywhere(accept, ws, u) && accept(u - 8) == Some(0) ensures u == v {
      ScanCollects(accept, ws, MAX_MATCHES, u);
      var j :| 0 <= j < |out| && out[j].vtable == u;
      assert True(accept, out[j]);
    }
  }

  lemma UniqueIsSelected(accept: int -> Option<nat>, ws: seq<Window>, out: seq<Match>, v: int)
    requires out == SearchAll(accept, ws, [], MAX_MATCHES) && |out| < MAX_MATCHES && Unique(accept, ws, v)
    ensures Selects(out, v)
  {
    ScanCollects(accept, ws, MAX_MATCHES, v);
    var i :| 0 <= i < |out| && out[i].vtable == v;
    assert True(accept, out[i]);
    forall j | 0 <= j < |out| && Primary(out[j]) ensures out[j].vtable == v {
      assert True(accept, out[j]);
      assert Listed(out, out[j].vtable);
      ScanCollects(accept, ws, MAX_MATCHES, out[j].vtable);
    }
  }
}
