/**
 What one cache shard holds, as a value: the region map, the LRU index and the sorted ranges, with
 the effect of every cache operation on the three together.

 A refresh or insert may be cut short by an allocation failure; the shard keeps whatever had been
 done by then.
 */
module ShardContents {
  import opened MachineInts

  /** One region as the operating system reports it. */
  datatype Region = Region(base: u64, size: u64, protection: u32, state: u32)

  datatype Entry = Entry(base: u64, size: u64, protection: u32, state: u32, stamp: u64, lruKey: u64, valid: bool)

  datatype Range = Range(base: u64, end: u64)

  datatype Contents = Contents(entries: map<u64, Entry>, lru: map<u64, u64>, ranges: seq<Range>, counter: u64)

  const Nothing: Contents := Contents(map[], map[], [], 0)

  /** Which allocation of an update fails, if any. */
  datatype Failure = NoFailure | EntryNode | LruNode | RangeNode

  function End(base: u64, size: u64): (r: u64)
  {
    Wrap64(base + size)
  }

  // Ranges, compared as pairs.

  predicate Before(a: Range, b: Range)
  {
    a.base < b.base || (a.base == b.base && a.end < b.end)
  }

  /** The first range not before `p`. */
  function LowerBound(ranges: seq<Range>, p: Range): (i: nat)
    ensures i <= |ranges|
  {
    if ranges == [] || !Before(ranges[0], p) then 0 else 1 + LowerBound(ranges[1..], p)
  }

  /** The first range after `p`. */
  function UpperBound(ranges: seq<Range>, p: Range): (i: nat)
    ensures i <= |ranges|
  {
    if ranges == [] || Before(p, ranges[0]) then 0 else 1 + UpperBound(ranges[1..], p)
  }

  function InsertRange(ranges: seq<Range>, base: u64, size: u64): (r: seq<Range>)
  {
    var range := Range(base, End(base, size));
    var i := LowerBound(ranges, range);
    ranges[..i] + [range] + ranges[i..]
  }

  function RemoveRange(ranges: seq<Range>, base: u64): (r: seq<Range>)
  {
    var i := LowerBound(ranges, Range(base, 0));
    if i < |ranges| && ranges[i].base == base then ranges[..i] + ranges[i + 1..] else ranges
  }

  // Removing entries.

  /** Drop the LRU node of `entry` if it belongs to the region at `base`. */
  function DropLru(lru: map<u64, u64>, entry: Entry, base: u64): (r: map<u64, u64>)
  {
    if entry.lruKey in lru && lru[entry.lruKey] == base then lru - {entry.lruKey} else lru
  }

  /** One step of the expiry and invalidation sweeps. */
  function Without(c: Contents, base: u64): (r: Contents)
    requires base in c.entries
  {
    Contents(c.entries - {base}, DropLru(c.lru, c.entries[base], base),
             RemoveRange(c.ranges, c.entries[base].base), c.counter)
  }

  ghost predicate IsOldest(lru: map<u64, u64>, key: u64)
  {
    key in lru && forall q :: q in lru ==> key <= q
  }

  lemma {:induction false} OldestExists(keys: set<u64>, lru: map<u64, u64>)
    requires keys == lru.Keys && keys != {}
    ensures exists key :: IsOldest(lru, key)
    decreases |keys|
  {
    var k :| k in keys;
    if keys == {k} {
      assert IsOldest(lru, k);
    } else {
      var rest := lru - {k};
      OldestExists(keys - {k}, rest);
      var j :| IsOldest(rest, j);
      assert forall q :: q in lru ==> q == k || q in rest;
      assert IsOldest(lru, if j < k then j else k);
    }
  }

  /** The first node of the LRU index. */
  ghost function Oldest(lru: map<u64, u64>): (key: u64)
    requires |lru| > 0
    ensures IsOldest(lru, key)
  {
    OldestExists(lru.Keys, lru);
    var key :| IsOldest(lru, key);
    key
  }

  /** evict_oldest_entry. */
  ghost function Evicted(c: Contents): (r: Contents)
  {
    if |c.lru| == 0 then c
    else
      var key := Oldest(c.lru);
      var base := c.lru[key];
      var rest := c.(lru := c.lru - {key});
      if base in c.entries then rest.(entries := c.entries - {base}, ranges := RemoveRange(c.ranges, base)) else rest
  }

  /** trim_to_max_capacity. */
  ghost function Trimmed(c: Contents, max: nat): (r: Contents)
    decreases |c.lru|
  {
    if |c.entries| > max && |c.lru| > 0 then Trimmed(Evicted(c), max) else c
  }

  function NewEntry(region: Region, now: u64, key: u64): (e: Entry)
  {
    Entry(region.base, region.size, region.protection, region.state, now, key, true)
  }

  /** std::map::emplace: an existing key wins. */
  function Emplace(lru: map<u64, u64>, key: u64, base: u64): (r: map<u64, u64>)
  {
    if key in lru then lru else lru[key := base]
  }

  /** Refreshing the region already cached under this base. */
  function Refreshed(c: Contents, region: Region, now: u64, failure: Failure): (r: Contents)
    requires region.base in c.entries
  {
    var was := c.entries[region.base];
    var detached := c.(lru := DropLru(c.lru, was, region.base));
    var resized := was.size != region.size;
    var cleared := RemoveRange(c.ranges, region.base);
    if resized && failure.RangeNode? then detached.(ranges := cleared)
    else
      var stored := Contents(c.entries[region.base := NewEntry(region, now, c.counter)], detached.lru,
                             if resized then InsertRange(cleared, region.base, region.size) else c.ranges,
                             Wrap64(c.counter + 1));
      if failure.LruNode? then stored else stored.(lru := Emplace(stored.lru, c.counter, region.base))
  }

  /** Inserting a region into a shard that has made room. */
  function Inserted(c: Contents, region: Region, now: u64, failure: Failure): (r: Contents)
  {
    var counted := c.(counter := Wrap64(c.counter + 1));
    if failure.EntryNode? then counted
    else
      var stored := counted.(entries := c.entries[region.base := NewEntry(region, now, c.counter)]);
      if failure.LruNode? then stored
      else
        var indexed := stored.(lru := Emplace(c.lru, c.counter, region.base));
        if failure.RangeNode? then indexed
        else indexed.(ranges := InsertRange(c.ranges, region.base, region.size))
  }

  ghost function MadeRoom(c: Contents, capacity: nat, max: nat): (r: Contents)
  {
    var evicted := if |c.entries| >= capacity then Evicted(c) else c;
    if |evicted.entries| >= max then Trimmed(evicted, max) else evicted
  }

  /** update_shard_with_region. */
  ghost function Updated(c: Contents, capacity: nat, max: nat, region: Region, now: u64,
                         failure: Failure): (r: Contents)
  {
    if region.base in c.entries then Refreshed(c, region, now, failure)
    else Inserted(MadeRoom(c, capacity, max), region, now, failure)
  }

  // ---------------------------------------------------------------------------------------
  // What every operation keeps
  // ---------------------------------------------------------------------------------------

  predicate Ascending(ranges: seq<Range>)
  {
    forall i, j :: 0 <= i < j < |ranges| ==> ranges[i].base < ranges[j].base
  }

  predicate EntriesKeyed(entries: map<u64, Entry>)
  {
    forall k :: k in entries ==> entries[k].base == k && entries[k].valid
  }

  predicate LruMatches(entries: map<u64, Entry>, lru: map<u64, u64>)
  {
    forall q :: q in lru ==> lru[q] in entries && entries[lru[q]].lruKey == q
  }

  predicate RangeMatches(entries: map<u64, Entry>, r: Range)
  {
    r.base in entries && r.end == End(r.base, entries[r.base].size)
  }

  predicate RangesMatch(entries: map<u64, Entry>, ranges: seq<Range>)
  {
    Ascending(ranges) && forall r :: r in ranges ==> RangeMatches(entries, r)
  }

  /** Both indexes refer only to matching map entries: kept even when allocations fail. */
  predicate Matching(c: Contents)
  {
    EntriesKeyed(c.entries) && LruMatches(c.entries, c.lru) && RangesMatch(c.entries, c.ranges)
  }

  predicate HasRange(ranges: seq<Range>, base: u64)
  {
    exists r :: r in ranges && r.base == base
  }

  predicate Indexed(c: Contents, k: u64)
    requires k in c.entries
  {
    var key := c.entries[k].lruKey;
    key in c.lru && c.lru[key] == k && key < c.counter && HasRange(c.ranges, k)
  }

  /** Map, LRU index and ranges describe exactly the same regions. */
  predicate Consistent(c: Contents)
  {
    Matching(c) && forall k :: k in c.entries ==> Indexed(c, k)
  }

  // Ranges.

  lemma {:induction false} LowerBoundSplits(ranges: seq<Range>, p: Range)
    requires Ascending(ranges)
    ensures forall i :: 0 <= i < LowerBound(ranges, p) ==> Before(ranges[i], p)
    ensures forall i :: LowerBound(ranges, p) <= i < |ranges| ==> !Before(ranges[i], p)
  {
    if ranges != [] && Before(ranges[0], p) {
      LowerBoundSplits(ranges[1..], p);
      assert forall i :: 0 < i < |ranges| ==> ranges[i] == ranges[1..][i - 1];
    }
  }

  lemma InsertRangeAscends(ranges: seq<Range>, base: u64, size: u64)
    requires Ascending(ranges) && !HasRange(ranges, base)
    ensures Ascending(InsertRange(ranges, base, size))
  {
    LowerBoundSplits(ranges, Range(base, End(base, size)));
  }

  lemma InsertRangeMembers(ranges: seq<Range>, base: u64, size: u64, r: Range)
    ensures r in InsertRange(ranges, base, size) <==> r in ranges || r == Range(base, End(base, size))
  {
    var i := LowerBound(ranges, Range(base, End(base, size)));
    assert ranges == ranges[..i] + ranges[i..];
  }

  /** The position remove_sorted_range looks at is where the range is, if it is there at all. */
  lemma RemovalFinds(ranges: seq<Range>, base: u64)
    requires Ascending(ranges)
    ensures var i := LowerBound(ranges, Range(base, 0));
            HasRange(ranges, base) <==> i < |ranges| && ranges[i].base == base
  {
    LowerBoundSplits(ranges, Range(base, 0));
    var i := LowerBound(ranges, Range(base, 0));
    if HasRange(ranges, base) {
      var r :| r in ranges && r.base == base;
      var j :| 0 <= j < |ranges| && ranges[j] == r;
      assert !Before(ranges[j], Range(base, 0));
      assert i <= j;
    }
  }

  lemma RemoveRangeAscends(ranges: seq<Range>, base: u64)
    requires Ascending(ranges)
    ensures Ascending(RemoveRange(ranges, base))
  {
  }

  lemma RemoveRangeMembers(ranges: seq<Range>, base: u64, r: Range)
    requires Ascending(ranges)
    ensures r in RemoveRange(ranges, base) <==> r in ranges && r.base != base
  {
    RemovalFinds(ranges, base);
    var i := LowerBound(ranges, Range(base, 0));
    if i < |ranges| && ranges[i].base == base {
      DroppedMembers(ranges, i, r);
    }
  }

  lemma DroppedMembers(ranges: seq<Range>, i: nat, r: Range)
    requires Ascending(ranges) && i < |ranges|
    ensures r in ranges[..i] + ranges[i + 1..] <==> r in ranges && r.base != ranges[i].base
  {
    if r in ranges && r.base != ranges[i].base {
      var j :| 0 <= j < |ranges| && ranges[j] == r;
      assert j < i ==> ranges[..i][j] == r;
      assert j > i ==> ranges[i + 1..][j - i - 1] == r;
    }
  }

  lemma RemovedRangesMatch(entries: map<u64, Entry>, entries': map<u64, Entry>, ranges: seq<Range>, base: u64)
    requires RangesMatch(entries, ranges)
    requires forall k :: k in entries && k != base ==> k in entries' && entries'[k] == entries[k]
    ensures RangesMatch(entries', RemoveRange(ranges, base))
    ensures !HasRange(RemoveRange(ranges, base), base)
    ensures forall k :: k != base && HasRange(ranges, k) ==> HasRange(RemoveRange(ranges, base), k)
  {
    RemoveRangeAscends(ranges, base);
    forall r ensures r in RemoveRange(ranges, base) <==> r in ranges && r.base != base {
      RemoveRangeMembers(ranges, base, r);
    }
  }

  lemma InsertedRangesMatch(entries: map<u64, Entry>, ranges: seq<Range>, base: u64, size: u64)
    requires RangesMatch(entries, ranges) && !HasRange(ranges, base)
    requires base in entries && entries[base].size == size
    ensures RangesMatch(entries, InsertRange(ranges, base, size))
    ensures HasRange(InsertRange(ranges, base, size), base)
    ensures forall k :: HasRange(ranges, k) ==> HasRange(InsertRange(ranges, base, size), k)
  {
    InsertRangeAscends(ranges, base, size);
    forall r ensures r in InsertRange(ranges, base, size) <==> r in ranges || r == Range(base, End(base, size)) {
      InsertRangeMembers(ranges, base, size, r);
    }
    assert Range(base, End(base, size)) in InsertRange(ranges, base, size);
  }

  lemma DroppedLruMatches(entries: map<u64, Entry>, lru: map<u64, u64>, base: u64)
    requires LruMatches(entries, lru) && base in entries
    ensures var lru' := DropLru(lru, entries[base], base);
            && (forall q :: q in lru' <==> q in lru && lru[q] != base)
            && (forall q :: q in lru' ==> lru'[q] == lru[q])
  {
  }

  // Removing an entry.

  lemma WithoutKeepsMatching(c: Contents, base: u64)
    requires Matching(c) && base in c.entries
    ensures Matching(Without(c, base))
  {
    DroppedLruMatches(c.entries, c.lru, base);
    RemovedRangesMatch(c.entries, c.entries - {base}, c.ranges, base);
  }

  lemma WithoutKeepsConsistent(c: Contents, base: u64)
    requires Consistent(c) && base in c.entries
    ensures Consistent(Without(c, base))
  {
    WithoutKeepsMatching(c, base);
    DroppedLruMatches(c.entries, c.lru, base);
    RemovedRangesMatch(c.entries, c.entries - {base}, c.ranges, base);
    var n := Without(c, base);
    forall k | k in n.entries ensures Indexed(n, k) {
      assert Indexed(c, k);
    }
  }

  /** Eviction removes exactly the least recently stored region that is indexed. */
  lemma EvictionRemovesOldest(c: Contents)
    requires Matching(c) && |c.lru| > 0
    ensures c.lru[Oldest(c.lru)] in c.entries
    ensures Evicted(c) == Without(c, c.lru[Oldest(c.lru)])
  {
  }

  lemma EvictedKeeps(c: Contents)
    requires Matching(c)
    ensures Matching(Evicted(c))
    ensures Consistent(c) ==> Consistent(Evicted(c))
  {
    if |c.lru| > 0 {
      EvictionRemovesOldest(c);
      var base := c.lru[Oldest(c.lru)];
      WithoutKeepsMatching(c, base);
      if Consistent(c) {
        WithoutKeepsConsistent(c, base);
      }
    }
  }

  lemma {:induction false} TrimmedKeeps(c: Contents, max: nat)
    requires Matching(c)
    ensures Matching(Trimmed(c, max))
    ensures Consistent(c) ==> Consistent(Trimmed(c, max))
    decreases |c.lru|
  {
    if |c.entries| > max && |c.lru| > 0 {
      EvictedKeeps(c);
      TrimmedKeeps(Evicted(c), max);
    }
  }

  /** Trimming stops at the maximum, or when nothing is left to evict. */
  lemma {:induction false} TrimmedFits(c: Contents, max: nat)
    ensures |Trimmed(c, max).entries| <= max || |Trimmed(c, max).lru| == 0
    decreases |c.lru|
  {
    if |c.entries| > max && |c.lru| > 0 {
      TrimmedFits(Evicted(c), max);
    }
  }

  lemma MadeRoomKeeps(c: Contents, capacity: nat, max: nat)
    requires Matching(c)
    ensures Matching(MadeRoom(c, capacity, max))
    ensures Consistent(c) ==> Consistent(MadeRoom(c, capacity, max))
  {
    EvictedKeeps(c);
    TrimmedKeeps(if |c.entries| >= capacity then Evicted(c) else c, max);
  }

  // Storing an entry.

  lemma StoredLruMatches(entries: map<u64, Entry>, lru: map<u64, u64>, base: u64, e: Entry)
    requires LruMatches(entries, lru) && forall q :: q in lru ==> lru[q] != base
    ensures LruMatches(entries[base := e], lru)
    ensures LruMatches(entries[base := e], Emplace(lru, e.lruKey, base))
  {
  }

  lemma RefreshedLru(c: Contents, region: Region, now: u64, failure: Failure)
    requires Matching(c) && region.base in c.entries
    ensures LruMatches(Refreshed(c, region, now, failure).entries, Refreshed(c, region, now, failure).lru)
  {
    var base := region.base;
    DroppedLruMatches(c.entries, c.lru, base);
    StoredLruMatches(c.entries, DropLru(c.lru, c.entries[base], base), base, NewEntry(region, now, c.counter));
  }

  lemma SameSizeRanges(entries: map<u64, Entry>, ranges: seq<Range>, base: u64, e: Entry)
    requires RangesMatch(entries, ranges) && base in entries && e.size == entries[base].size
    ensures RangesMatch(entries[base := e], ranges)
  {
  }

  /** A resized region trades its old range for the new one. */
  lemma ResizedRanges(entries: map<u64, Entry>, ranges: seq<Range>, base: u64, e: Entry)
    requires RangesMatch(entries, ranges) && base in entries
    ensures RangesMatch(entries, RemoveRange(ranges, base))
    ensures RangesMatch(entries[base := e], InsertRange(RemoveRange(ranges, base), base, e.size))
    ensures HasRange(InsertRange(RemoveRange(ranges, base), base, e.size), base)
    ensures forall k :: HasRange(ranges, k) ==> HasRange(InsertRange(RemoveRange(ranges, base), base, e.size), k)
  {
    RemovedRangesMatch(entries, entries, ranges, base);
    RemovedRangesMatch(entries, entries[base := e], ranges, base);
    InsertedRangesMatch(entries[base := e], RemoveRange(ranges, base), base, e.size);
  }

  lemma RefreshedRanges(c: Contents, region: Region, now: u64, failure: Failure)
    requires Matching(c) && region.base in c.entries
    ensures RangesMatch(Refreshed(c, region, now, failure).entries, Refreshed(c, region, now, failure).ranges)
  {
    var e := NewEntry(region, now, c.counter);
    if c.entries[region.base].size == region.size {
      SameSizeRanges(c.entries, c.ranges, region.base, e);
    } else {
      ResizedRanges(c.entries, c.ranges, region.base, e);
    }
  }

  lemma RefreshedKeepsMatching(c: Contents, region: Region, now: u64, failure: Failure)
    requires Matching(c) && region.base in c.entries
    ensures Matching(Refreshed(c, region, now, failure))
  {
    RefreshedLru(c, region, now, failure);
    RefreshedRanges(c, region, now, failure);
  }

  lemma AbsentBase(c: Contents, base: u64)
    requires Matching(c) && base !in c.entries
    ensures forall q :: q in c.lru ==> c.lru[q] != base
    ensures !HasRange(c.ranges, base)
  {
  }

  lemma InsertedKeepsMatching(c: Contents, region: Region, now: u64, failure: Failure)
    requires Matching(c) && region.base !in c.entries
    ensures Matching(Inserted(c, region, now, failure))
  {
    var base := region.base;
    var entry := NewEntry(region, now, c.counter);
    AbsentBase(c, base);
    StoredLruMatches(c.entries, c.lru, base, entry);
    NewBaseRanges(c.entries, c.ranges, base, entry);
  }

  lemma NewBaseRanges(entries: map<u64, Entry>, ranges: seq<Range>, base: u64, e: Entry)
    requires RangesMatch(entries, ranges) && base !in entries
    ensures !HasRange(ranges, base) && RangesMatch(entries[base := e], ranges)
    ensures RangesMatch(entries[base := e], InsertRange(ranges, base, e.size))
    ensures HasRange(InsertRange(ranges, base, e.size), base)
    ensures forall k :: HasRange(ranges, k) ==> HasRange(InsertRange(ranges, base, e.size), k)
  {
    assert RangesMatch(entries[base := e], ranges);
    InsertedRangesMatch(entries[base := e], ranges, base, e.size);
  }

  lemma {:induction false} RoomKeepsCounter(c: Contents, max: nat)
    ensures Trimmed(c, max).counter == c.counter
    decreases |c.lru|
  {
    if |c.entries| > max && |c.lru| > 0 {
      RoomKeepsCounter(Evicted(c), max);
    }
  }

  lemma {:induction false} RoomRemovesOnly(c: Contents, max: nat, k: u64)
    ensures k in Trimmed(c, max).entries ==> k in c.entries && Trimmed(c, max).entries[k] == c.entries[k]
    decreases |c.lru|
  {
    if |c.entries| > max && |c.lru| > 0 {
      RoomRemovesOnly(Evicted(c), max, k);
    }
  }

  lemma MadeRoomFrame(c: Contents, capacity: nat, max: nat, k: u64)
    ensures MadeRoom(c, capacity, max).counter == c.counter
    ensures k in MadeRoom(c, capacity, max).entries ==>
              k in c.entries && MadeRoom(c, capacity, max).entries[k] == c.entries[k]
  {
    var evicted := if |c.entries| >= capacity then Evicted(c) else c;
    RoomKeepsCounter(evicted, max);
    RoomRemovesOnly(evicted, max, k);
  }

  /** An update stores the reported region or keeps what was there. */
  lemma UpdatedEntries(c: Contents, capacity: nat, max: nat, region: Region, now: u64, failure: Failure, k: u64)
    ensures var n := Updated(c, capacity, max, region, now, failure);
            k in n.entries ==>
              || (k in c.entries && n.entries[k] == c.entries[k])
              || (k == region.base && n.entries[k] == NewEntry(region, now, c.counter))
  {
    MadeRoomFrame(c, capacity, max, k);
  }

  /** The entry under the region's base is the region as reported, stamped and made the newest. */
  predicate Stores(c: Contents, n: Contents, region: Region, now: u64)
  {
    && region.base in n.entries
    && var e := n.entries[region.base];
       && e.base == region.base && e.size == region.size && e.protection == region.protection
       && e.state == region.state && e.stamp == now && e.lruKey == c.counter && e.valid
  }

  /** The allocation that fails comes before the entry is written. */
  predicate CutShort(c: Contents, region: Region, failure: Failure)
  {
    if region.base in c.entries then failure.RangeNode? && c.entries[region.base].size != region.size
    else failure.EntryNode?
  }

  /** No entry but the region's appears or changes. */
  ghost predicate OthersKept(c: Contents, n: Contents, region: Region)
  {
    forall k :: k in n.entries && k != region.base ==> k in c.entries && n.entries[k] == c.entries[k]
  }

  lemma RefreshStores(c: Contents, region: Region, now: u64, failure: Failure)
    requires region.base in c.entries
    ensures var n := Refreshed(c, region, now, failure);
            && (if CutShort(c, region, failure) then n.entries == c.entries else Stores(c, n, region, now))
            && OthersKept(c, n, region) && n.entries.Keys == c.entries.Keys
  {
  }

  lemma InsertStores(c: Contents, region: Region, now: u64, failure: Failure)
    ensures var n := Inserted(c, region, now, failure);
            && (if failure.EntryNode? then n.entries == c.entries else Stores(c, n, region, now))
            && OthersKept(c, n, region)
            && n.entries.Keys == (if failure.EntryNode? then c.entries.Keys else c.entries.Keys + {region.base})
  {
  }

  lemma RoomKept(c: Contents, capacity: nat, max: nat, region: Region)
    ensures MadeRoom(c, capacity, max).counter == c.counter
    ensures MadeRoom(c, capacity, max).entries.Keys <= c.entries.Keys
    ensures OthersKept(c, MadeRoom(c, capacity, max), region)
    ensures |c.entries| < capacity <= max ==> MadeRoom(c, capacity, max) == c
  {
    var n := MadeRoom(c, capacity, max);
    MadeRoomFrame(c, capacity, max, region.base);
    forall k | k in n.entries ensures k in c.entries && n.entries[k] == c.entries[k] {
      MadeRoomFrame(c, capacity, max, k);
    }
  }

  /**
   An update stores what was reported unless an allocation fails first, and touches no other entry; only making room
   for a new region may remove one.
   */
  lemma UpdateStores(c: Contents, capacity: nat, max: nat, region: Region, now: u64, failure: Failure)
    ensures var n := Updated(c, capacity, max, region, now, failure);
            && (!CutShort(c, region, failure) ==> Stores(c, n, region, now))
            && (CutShort(c, region, failure) ==> (region.base in n.entries <==> region.base in c.entries))
            && (CutShort(c, region, failure) && region.base in c.entries ==> n.entries == c.entries)
            && OthersKept(c, n, region)
            && (region.base in c.entries || |c.entries| < capacity <= max ==> c.entries.Keys <= n.entries.Keys)
  {
    if region.base in c.entries {
      RefreshStores(c, region, now, failure);
    } else {
      RoomKept(c, capacity, max, region);
      InsertStores(MadeRoom(c, capacity, max), region, now, failure);
    }
  }

  /** A consistent full shard gives up exactly its least recently stored region for a new one. */
  lemma FullShardEvictsOldest(c: Contents, capacity: nat, max: nat, region: Region, now: u64, k: u64)
    requires Consistent(c) && |c.entries| == capacity <= max && |c.lru| > 0 && region.base !in c.entries
    ensures k in Updated(c, capacity, max, region, now, NoFailure).entries <==>
            k == region.base || (k in c.entries && k != c.lru[Oldest(c.lru)])
  {
    EvictionRemovesOldest(c);
    assert |Evicted(c).entries| == |c.entries| - 1;
    assert MadeRoom(c, capacity, max) == Evicted(c);
  }

  /** Whatever allocation fails, an update leaves both indexes referring only to matching entries. */
  lemma UpdatedKeepsMatching(c: Contents, capacity: nat, max: nat, region: Region, now: u64, failure: Failure)
    requires Matching(c)
    ensures Matching(Updated(c, capacity, max, region, now, failure))
  {
    if region.base in c.entries {
      RefreshedKeepsMatching(c, region, now, failure);
    } else {
      MadeRoomKeeps(c, capacity, max);
      MadeRoomFrame(c, capacity, max, region.base);
      InsertedKeepsMatching(MadeRoom(c, capacity, max), region, now, failure);
    }
  }

  lemma FreshKey(c: Contents)
    requires Consistent(c)
    ensures c.counter !in c.lru
  {
    assert forall q :: q in c.lru ==> Indexed(c, c.lru[q]);
  }

  /** Storing under a fresh key keeps every other entry indexed. */
  lemma OthersStayIndexed(c: Contents, n: Contents, base: u64, k: u64)
    requires Consistent(c) && k in c.entries && k != base && k in n.entries && n.entries[k] == c.entries[k]
    requires n.counter == c.counter + 1
    requires forall q :: q in c.lru && c.lru[q] != base ==> q in n.lru && n.lru[q] == c.lru[q]
    requires forall j :: j != base && HasRange(c.ranges, j) ==> HasRange(n.ranges, j)
    ensures Indexed(n, k)
  {
    assert Indexed(c, k);
  }

  lemma RefreshedConsistent(c: Contents, region: Region, now: u64)
    requires Consistent(c) && region.base in c.entries && c.counter + 1 < TWO_64
    ensures Consistent(Refreshed(c, region, now, NoFailure))
  {
    var n, base := Refreshed(c, region, now, NoFailure), region.base;
    var entry := NewEntry(region, now, c.counter);
    RefreshedKeepsMatching(c, region, now, NoFailure);
    FreshKey(c);
    assert Indexed(c, base);
    DroppedLruMatches(c.entries, c.lru, base);
    ResizedRanges(c.entries, c.ranges, base, entry);
    forall k | k in n.entries ensures Indexed(n, k) {
      if k != base {
        OthersStayIndexed(c, n, base, k);
      }
    }
  }

  lemma InsertedConsistent(c: Contents, region: Region, now: u64)
    requires Consistent(c) && region.base !in c.entries && c.counter + 1 < TWO_64
    ensures Consistent(Inserted(c, region, now, NoFailure))
  {
    var n, base := Inserted(c, region, now, NoFailure), region.base;
    var entry := NewEntry(region, now, c.counter);
    InsertedKeepsMatching(c, region, now, NoFailure);
    FreshKey(c);
    AbsentBase(c, base);
    NewBaseRanges(c.entries, c.ranges, base, entry);
    forall k | k in n.entries ensures Indexed(n, k) {
      if k != base {
        OthersStayIndexed(c, n, base, k);
      }
    }
  }

  /** An update without allocation failure keeps the three containers consistent until the 64-bit key counter wraps. */
  lemma UpdatedConsistentIffNoWrap(c: Contents, capacity: nat, max: nat, region: Region, now: u64)
    requires Consistent(c)
    ensures Consistent(Updated(c, capacity, max, region, now, NoFailure)) <==> c.counter + 1 < TWO_64
  {
    var n := Updated(c, capacity, max, region, now, NoFailure);
    MadeRoomKeeps(c, capacity, max);
    MadeRoomFrame(c, capacity, max, region.base);
    if c.counter + 1 < TWO_64 {
      if region.base in c.entries {
        RefreshedConsistent(c, region, now);
      } else {
        InsertedConsistent(MadeRoom(c, capacity, max), region, now);
      }
    } else {
      assert n.counter == 0 && region.base in n.entries;
      assert !Indexed(n, region.base);
    }
  }

  // Size.

  lemma EvictedSize(c: Contents)
    requires Matching(c)
    ensures |Evicted(c).entries| == if |c.lru| > 0 then |c.entries| - 1 else |c.entries|
  {
    if |c.lru| > 0 {
      EvictionRemovesOldest(c);
      assert |c.entries - {c.lru[Oldest(c.lru)]}| == |c.entries| - 1;
    }
  }

  lemma MadeRoomSize(c: Contents, capacity: nat, max: nat)
    requires Matching(c) && |c.entries| <= capacity <= max
    ensures |MadeRoom(c, capacity, max).entries| ==
            if |c.entries| == capacity && |c.lru| > 0 then |c.entries| - 1 else |c.entries|
  {
    EvictedSize(c);
  }

  /** Inserting into a shard within its capacity stays within it exactly when there is room or something to evict. */
  lemma InsertStaysWithinCapacityIff(c: Contents, capacity: nat, max: nat, region: Region, now: u64, failure: Failure)
    requires Matching(c) && |c.entries| <= capacity <= max && region.base !in c.entries && !failure.EntryNode?
    ensures |Updated(c, capacity, max, region, now, failure).entries| <= capacity
            <==> |c.entries| < capacity || |c.lru| > 0
  {
    MadeRoomSize(c, capacity, max);
    MadeRoomFrame(c, capacity, max, region.base);
    var room := MadeRoom(c, capacity, max);
    assert |room.entries[region.base := NewEntry(region, now, room.counter)]| == |room.entries| + 1;
  }

  /** A consistent shard never exceeds its capacity. */
  lemma ConsistentStaysWithinCapacity(c: Contents, capacity: nat, max: nat, region: Region, now: u64, failure: Failure)
    requires Consistent(c) && |c.entries| <= capacity <= max && capacity > 0
    ensures |Updated(c, capacity, max, region, now, failure).entries| <= capacity
  {
    if region.base in c.entries {
      assert c.entries.Keys + {region.base} == c.entries.Keys;
      assert |c.entries[region.base := NewEntry(region, now, c.counter)]| == |c.entries|;
    } else if failure.EntryNode? {
      MadeRoomSize(c, capacity, max);
    } else {
      if |c.entries| == capacity {
        var k :| k in c.entries;
        assert Indexed(c, k);
      }
      InsertStaysWithinCapacityIff(c, capacity, max, region, now, failure);
    }
  }

  const LastKey: Contents := Nothing.(counter := TWO_64 - 1)

  /** The update that takes the last LRU key wraps the counter below the key it has just handed out. */
  lemma WrapBreaksConsistency(capacity: nat, max: nat, region: Region, now: u64)
    ensures Consistent(LastKey)
    ensures !Consistent(Updated(LastKey, capacity, max, region, now, NoFailure))
  {
    UpdatedConsistentIffNoWrap(LastKey, capacity, max, region, now);
  }

  const Orphaned: Contents := Contents(map[0x1000 := Entry(0x1000, 0x1000, 4, 0x1000, 0, 0, true)], map[], [], 1)

  /**
   After an allocation failure an entry may have no LRU node; a full shard of such entries grows past its
   capacity.
   */
  lemma OrphanDefeatsCapacity(region: Region, now: u64)
    requires region.base != 0x1000
    ensures Orphaned == Updated(Nothing, 1, 2, Region(0x1000, 0x1000, 4, 0x1000), 0, LruNode)
    ensures |Updated(Orphaned, 1, 2, region, now, NoFailure).entries| == 2
  {
    assert Updated(Nothing, 1, 2, Region(0x1000, 0x1000, 4, 0x1000), 0, LruNode).entries == Orphaned.entries;
    assert MadeRoom(Orphaned, 1, 2) == Orphaned;
    var n := Updated(Orphaned, 1, 2, region, now, NoFailure);
    assert n.entries.Keys == {0x1000, region.base};
  }

  // Sweeps.

  /** The contents with exactly the regions of `kept` left, in the map and in both indexes. */
  ghost predicate RestrictedTo(c: Contents, n: Contents, kept: set<u64>)
  {
    && n.counter == c.counter
    && (forall k :: k in n.entries <==> k in c.entries && k in kept)
    && (forall k :: k in n.entries ==> n.entries[k] == c.entries[k])
    && (forall q :: q in n.lru <==> q in c.lru && c.lru[q] in kept)
    && (forall q :: q in n.lru ==> n.lru[q] == c.lru[q])
    && (forall r :: r in n.ranges <==> r in c.ranges && r.base in kept)
  }

  lemma RestrictedToAll(c: Contents)
    requires Matching(c)
    ensures RestrictedTo(c, c, c.entries.Keys)
  {
    forall r | r in c.ranges ensures r.base in c.entries.Keys {
      assert RangeMatches(c.entries, r);
    }
  }

  lemma SweepStep(c: Contents, n: Contents, kept: set<u64>, base: u64)
    requires Matching(n) && RestrictedTo(c, n, kept) && base in n.entries
    ensures RestrictedTo(c, Without(n, base), kept - {base})
  {
    DroppedLruMatches(n.entries, n.lru, base);
    forall r ensures r in Without(n, base).ranges <==> r in n.ranges && r.base != base {
      RemoveRangeMembers(n.ranges, base, r);
    }
  }

  // ---------------------------------------------------------------------------------------
  // Over whole runs
  // ---------------------------------------------------------------------------------------

  /** One operation on a shard; expiry and invalidation are runs of Discard. */
  datatype Op =
    | Store(region: Region, now: u64, failure: Failure)
    | Evict
    | Trim
    | Discard(base: u64)

  ghost function Perform(c: Contents, op: Op, capacity: nat, max: nat): (r: Contents)
  {
    match op
    case Store(region, now, failure) => Updated(c, capacity, max, region, now, failure)
    case Evict => Evicted(c)
    case Trim => Trimmed(c, max)
    case Discard(base) => if base in c.entries then Without(c, base) else c
  }

  ghost function PerformAll(c: Contents, ops: seq<Op>, capacity: nat, max: nat): (r: Contents)
    decreases |ops|
  {
    if ops == [] then c else PerformAll(Perform(c, ops[0], capacity, max), ops[1..], capacity, max)
  }

  lemma PerformKeepsMatching(c: Contents, op: Op, capacity: nat, max: nat)
    requires Matching(c)
    ensures Matching(Perform(c, op, capacity, max))
  {
    match op
    case Store(region, now, failure) => UpdatedKeepsMatching(c, capacity, max, region, now, failure);
    case Evict => EvictedKeeps(c);
    case Trim => TrimmedKeeps(c, max);
    case Discard(base) => if base in c.entries { WithoutKeepsMatching(c, base); }
  }

  /** Whatever allocations fail on the way, the indexes only ever refer to matching entries. */
  lemma {:induction false} RunKeepsMatching(c: Contents, ops: seq<Op>, capacity: nat, max: nat)
    requires Matching(c)
    ensures Matching(PerformAll(c, ops, capacity, max))
    decreases |ops|
  {
    if ops != [] {
      PerformKeepsMatching(c, ops[0], capacity, max);
      RunKeepsMatching(Perform(c, ops[0], capacity, max), ops[1..], capacity, max);
    }
  }

  /** Consistent, and within capacity. */
  predicate Sound(c: Contents, capacity: nat)
  {
    Consistent(c) && |c.entries| <= capacity
  }

  predicate NoFailures(ops: seq<Op>)
  {
    forall i :: 0 <= i < |ops| && ops[i].Store? ==> ops[i].failure.NoFailure?
  }

  lemma {:induction false} TrimmedSize(c: Contents, max: nat)
    requires Matching(c)
    ensures |Trimmed(c, max).entries| <= |c.entries|
    decreases |c.lru|
  {
    if |c.entries| > max && |c.lru| > 0 {
      EvictedKeeps(c);
      EvictedSize(c);
      TrimmedSize(Evicted(c), max);
    }
  }

  lemma StoreKeepsSound(c: Contents, op: Op, capacity: nat, max: nat)
    requires Sound(c, capacity) && 0 < capacity <= max && op.Store? && op.failure.NoFailure? && c.counter + 1 < TWO_64
    ensures Sound(Perform(c, op, capacity, max), capacity)
    ensures Perform(c, op, capacity, max).counter == c.counter + 1
  {
    UpdatedConsistentIffNoWrap(c, capacity, max, op.region, op.now);
    ConsistentStaysWithinCapacity(c, capacity, max, op.region, op.now, NoFailure);
    MadeRoomFrame(c, capacity, max, op.region.base);
  }

  lemma RemovalKeepsSound(c: Contents, op: Op, capacity: nat, max: nat)
    requires Sound(c, capacity) && !op.Store?
    ensures Sound(Perform(c, op, capacity, max), capacity)
    ensures Perform(c, op, capacity, max).counter == c.counter
  {
    match op
    case Evict => EvictedKeeps(c); EvictedSize(c);
    case Trim => TrimmedKeeps(c, max); TrimmedSize(c, max); RoomKeepsCounter(c, max);
    case Discard(base) =>
      if base in c.entries {
        WithoutKeepsConsistent(c, base);
        assert |c.entries - {base}| == |c.entries| - 1;
      }
  }

  /**
   Over every run whose key counter does not wrap and whose allocations succeed, the shard is consistent and
   within capacity.
   */
  lemma {:induction false} RunKeepsSound(c: Contents, ops: seq<Op>, capacity: nat, max: nat)
    requires Sound(c, capacity) && 0 < capacity <= max && NoFailures(ops) && c.counter + |ops| < TWO_64
    ensures Sound(PerformAll(c, ops, capacity, max), capacity)
    decreases |ops|
  {
    if ops != [] {
      if ops[0].Store? {
        StoreKeepsSound(c, ops[0], capacity, max);
      } else {
        RemovalKeepsSound(c, ops[0], capacity, max);
      }
      RunKeepsSound(Perform(c, ops[0], capacity, max), ops[1..], capacity, max);
    }
  }
}
