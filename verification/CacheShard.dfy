/**
 A cache shard updated in place, proved against the values of ShardContents.
 */
module CacheShard {
  import opened MachineInts
  import opened ShardContents
  import opened ShardLookup

  /** An entry that an expiry sweep leaves alone. */
  predicate Fresh(e: Entry, now: u64, expiry: u64)
  {
    e.valid && Wrap64(now - e.stamp) <= expiry
  }

  /** An entry whose region, clamped at the top of the address space, meets [address, end). */
  predicate Overlaps(e: Entry, address: u64, end: u64)
  {
    var entryEnd := End(e.base, e.size);
    var clamped := if entryEnd < e.base then TWO_64 - 1 else entryEnd;
    e.valid && address < clamped && end > e.base
  }

  lemma UpdateGuarantees(c: Contents, capacity: nat, max: nat, region: Region, now: u64, failure: Failure)
    requires Matching(c)
    ensures var n := Updated(c, capacity, max, region, now, failure);
            && Matching(n)
            && (Consistent(c) && failure.NoFailure? ==> (Consistent(n) <==> c.counter + 1 < TWO_64))
            && (Consistent(c) && |c.entries| <= capacity <= max && capacity > 0 ==> |n.entries| <= capacity)
  {
    UpdatedKeepsMatching(c, capacity, max, region, now, failure);
    if Consistent(c) {
      UpdatedConsistentIffNoWrap(c, capacity, max, region, now);
      if |c.entries| <= capacity <= max && capacity > 0 {
        ConsistentStaysWithinCapacity(c, capacity, max, region, now, failure);
      }
    }
  }

  ghost function Kept(entries: map<u64, Entry>, keep: Entry -> bool): (r: set<u64>)
  {
    set k | k in entries && keep(entries[k])
  }

  /** A sweep in progress: everything outside `todo` has been judged. */
  ghost predicate Swept(c: Contents, n: Contents, kept: set<u64>, todo: set<u64>, keep: Entry -> bool)
  {
    && Matching(n) && (Consistent(c) ==> Consistent(n))
    && RestrictedTo(c, n, kept)
    && todo <= kept <= c.entries.Keys
    && forall k :: k in c.entries && k !in todo ==> (k in kept <==> keep(c.entries[k]))
  }

  lemma SweptStep(c: Contents, n: Contents, kept: set<u64>, todo: set<u64>, keep: Entry -> bool, k: u64)
    requires Swept(c, n, kept, todo, keep) && k in todo
    ensures k in n.entries && |Without(n, k).entries| == |n.entries| - 1
    ensures keep(n.entries[k]) ==> Swept(c, n, kept, todo - {k}, keep)
    ensures !keep(n.entries[k]) ==> Swept(c, Without(n, k), kept - {k}, todo - {k}, keep)
  {
    if !keep(n.entries[k]) {
      WithoutKeepsMatching(n, k);
      if Consistent(n) {
        WithoutKeepsConsistent(n, k);
      }
      SweepStep(c, n, kept, k);
    }
  }

  // The binary searches over the sorted ranges. They stay in bounds on any ranges, and find the bound on sorted ones.

  method SearchLower(ranges: seq<Range>, p: Range) returns (i: nat)
    ensures i <= |ranges|
    ensures Ascending(ranges) ==> i == LowerBound(ranges, p)
  {
    var hi := |ranges|;
    i := 0;
    while i < hi
      invariant 0 <= i <= hi <= |ranges|
      invariant Ascending(ranges) ==> i <= LowerBound(ranges, p) <= hi
    {
      var mid := i + (hi - i) / 2;
      if Ascending(ranges) {
        LowerBoundSplits(ranges, p);
      }
      if Before(ranges[mid], p) {
        i := mid + 1;
      } else {
        hi := mid;
      }
    }
  }

  method SearchUpper(ranges: seq<Range>, p: Range) returns (i: nat)
    ensures i <= |ranges|
    ensures Ascending(ranges) ==> i == UpperBound(ranges, p)
  {
    var hi := |ranges|;
    i := 0;
    while i < hi
      invariant 0 <= i <= hi <= |ranges|
      invariant Ascending(ranges) ==> i <= UpperBound(ranges, p) <= hi
    {
      var mid := i + (hi - i) / 2;
      if Ascending(ranges) {
        UpperBoundSplits(ranges, p);
      }
      if Before(p, ranges[mid]) {
        hi := mid;
      } else {
        i := mid + 1;
      }
    }
  }

  /** The page probe, then the range search. Any answer is good; on sorted ranges it is the lookup's. */
  method FindInTiers(c: Contents, address: u64, size: u64, now: u64, expiry: u64) returns (found: Found)
    ensures found.At? ==> found.base in c.entries && Covers(c.entries[found.base], address, size, now, expiry)
    ensures Ascending(c.ranges) ==> found == Find(c, address, size, now, expiry)
  {
    var page := PageOf(address);
    if page in c.entries && Covers(c.entries[page], address, size, now, expiry) {
      return At(page);
    }
    var i := SearchUpper(c.ranges, Range(address, TWO_64 - 1));
    if i > 0 {
      var range := c.ranges[i - 1];
      if range.base <= address < range.end && range.base in c.entries
         && Covers(c.entries[range.base], address, size, now, expiry) {
        return At(range.base);
      }
    }
    found := Missing;
  }

  method InsertSorted(ranges: seq<Range>, base: u64, size: u64) returns (r: seq<Range>)
    requires Ascending(ranges)
    ensures r == InsertRange(ranges, base, size)
  {
    var range := Range(base, End(base, size));
    var i := SearchLower(ranges, range);
    r := ranges[..i] + [range] + ranges[i..];
  }

  method RemoveSorted(ranges: seq<Range>, base: u64) returns (r: seq<Range>)
    requires Ascending(ranges)
    ensures r == RemoveRange(ranges, base) && Ascending(r)
  {
    var i := SearchLower(ranges, Range(base, 0));
    RemoveRangeAscends(ranges, base);
    r := if i < |ranges| && ranges[i].base == base then ranges[..i] + ranges[i + 1..] else ranges;
  }

  /** The searches demand sorted ranges, so every operation that searches in order to change them does. */
  class Shard {
    var entries: map<u64, Entry>
    var lru: map<u64, u64>
    var ranges: seq<Range>
    var counter: u64
    const capacity: nat
    const maxCapacity: nat

    function View(): (c: Contents)
      reads this
    {
      Contents(entries, lru, ranges, counter)
    }

    constructor (capacity: nat, maxCapacity: nat)
      ensures View() == Nothing && Consistent(View())
      ensures this.capacity == capacity && this.maxCapacity == maxCapacity
    {
      entries, lru, ranges, counter := map[], map[], [], 0;
      this.capacity, this.maxCapacity := capacity, maxCapacity;
    }

    method EvictOldest() returns (evicted: bool)
      requires Ascending(ranges)
      modifies this
      ensures Ascending(ranges)
      ensures View() == Evicted(old(View()))
      ensures Matching(old(View())) ==> evicted == (|old(lru)| > 0) && Matching(View())
      ensures Consistent(old(View())) ==> Consistent(View())
    {
      ghost var before := View();
      if |lru| == 0 {
        return false;
      }
      OldestExists(lru.Keys, lru);
      var key :| key in lru && forall q :: q in lru ==> key <= q;
      var base := lru[key];
      lru := lru - {key};
      evicted := base in entries;
      if evicted {
        entries := entries - {base};
        ranges := RemoveSorted(ranges, base);
      }
      if Matching(before) {
        EvictedKeeps(before);
      }
    }

    method Trim()
      requires Ascending(ranges)
      modifies this
      ensures Ascending(ranges)
      ensures View() == Trimmed(old(View()), maxCapacity)
    {
      while |entries| > maxCapacity && |lru| > 0
        invariant Ascending(ranges)
        invariant Trimmed(View(), maxCapacity) == Trimmed(old(View()), maxCapacity)
        decreases |lru|
      {
        var _ := EvictOldest();
      }
    }

    /** Refresh the region already cached under this base. */
    method Refresh(region: Region, now: u64, failure: Failure)
      requires Ascending(ranges) && region.base in entries
      modifies this
      ensures View() == Refreshed(old(View()), region, now, failure)
    {
      var base := region.base;
      var was := entries[base];
      lru := DropLru(lru, was, base);
      if was.size != region.size {
        ranges := RemoveSorted(ranges, base);
        if failure.RangeNode? {
          return;
        }
        ranges := InsertSorted(ranges, base, region.size);
      }
      var key := counter;
      counter := Wrap64(counter + 1);
      entries := entries[base := NewEntry(region, now, key)];
      if !failure.LruNode? {
        lru := Emplace(lru, key, base);
      }
    }

    method Insert(region: Region, now: u64, failure: Failure)
      requires Ascending(ranges)
      modifies this
      ensures View() == Inserted(old(View()), region, now, failure)
    {
      var base := region.base;
      var key := counter;
      counter := Wrap64(counter + 1);
      if failure.EntryNode? {
        return;
      }
      entries := entries[base := NewEntry(region, now, key)];
      if failure.LruNode? {
        return;
      }
      lru := Emplace(lru, key, base);
      if !failure.RangeNode? {
        ranges := InsertSorted(ranges, base, region.size);
      }
    }

    /** Store what the operating system reported, making room first; `failure` is the allocation that fails. */
    method Store(region: Region, now: u64, failure: Failure)
      requires Ascending(ranges)
      modifies this
      ensures View() == Updated(old(View()), capacity, maxCapacity, region, now, failure)
    {
      if region.base in entries {
        Refresh(region, now, failure);
      } else {
        if |entries| >= capacity {
          var _ := EvictOldest();
        }
        if |entries| >= maxCapacity {
          Trim();
        }
        Insert(region, now, failure);
      }
    }

    /** The same, with what it guarantees. */
    method Update(region: Region, now: u64, failure: Failure)
      requires Matching(View())
      modifies this
      ensures View() == Updated(old(View()), capacity, maxCapacity, region, now, failure)
      ensures !CutShort(old(View()), region, failure) ==> Stores(old(View()), View(), region, now)
      ensures OthersKept(old(View()), View(), region)
      ensures Matching(View())
      ensures Consistent(old(View())) && failure.NoFailure? ==> (Consistent(View()) <==> old(counter) + 1 < TWO_64)
      ensures Consistent(old(View())) && |old(entries)| <= capacity <= maxCapacity && capacity > 0
              ==> |entries| <= capacity
    {
      UpdateGuarantees(View(), capacity, maxCapacity, region, now, failure);
      UpdateStores(View(), capacity, maxCapacity, region, now, failure);
      Store(region, now, failure);
    }

    method EraseEntry(k: u64)
      requires Ascending(ranges) && k in entries
      modifies this
      ensures View() == Without(old(View()), k)
    {
      lru := DropLru(lru, entries[k], k);
      ranges := RemoveSorted(ranges, entries[k].base);
      entries := entries - {k};
    }

    /** Remove every entry that fails `keep`; both sweeps of the source are this loop. */
    method Sweep(keep: Entry -> bool) returns (removed: nat)
      requires Matching(View())
      modifies this
      ensures Matching(View()) && (Consistent(old(View())) ==> Consistent(View()))
      ensures RestrictedTo(old(View()), View(), Kept(old(entries), keep))
      ensures removed == |old(entries)| - |entries|
    {
      removed := 0;
      var todo := entries.Keys;
      ghost var kept := entries.Keys;
      RestrictedToAll(View());
      while todo != {}
        invariant Swept(old(View()), View(), kept, todo, keep)
        invariant removed == |old(entries)| - |entries|
        decreases |todo|
      {
        var k :| k in todo;
        SweptStep(old(View()), View(), kept, todo, keep, k);
        if !keep(entries[k]) {
          kept := kept - {k};
          EraseEntry(k);
          removed := removed + 1;
        }
        todo := todo - {k};
      }
      assert kept == Kept(old(entries), keep);
    }

    /** Exactly the expired entries go. */
    method CleanupExpired(now: u64, expiry: u64) returns (removed: nat)
      requires Matching(View())
      modifies this
      ensures Matching(View()) && (Consistent(old(View())) ==> Consistent(View()))
      ensures forall k :: k in entries <==> k in old(entries) && Fresh(old(entries)[k], now, expiry)
      ensures forall k :: k in entries ==> entries[k] == old(entries)[k]
      ensures removed == |old(entries)| - |entries|
    {
      removed := Sweep(e => Fresh(e, now, expiry));
    }

    /** Exactly the entries overlapping a written range go. */
    method EvictOverlapping(address: u64, end: u64) returns (evicted: nat)
      requires Matching(View())
      modifies this
      ensures Matching(View()) && (Consistent(old(View())) ==> Consistent(View()))
      ensures forall k :: k in entries <==> k in old(entries) && !Overlaps(old(entries)[k], address, end)
      ensures forall k :: k in entries ==> entries[k] == old(entries)[k]
      ensures evicted == |old(entries)| - |entries|
    {
      evicted := Sweep(e => !Overlaps(e, address, end));
    }

    /** The cleanup pass: expired entries go, then the oldest ones past the hard maximum. */
    method Cleanup(now: u64, expiry: u64)
      requires Matching(View())
      modifies this
      ensures Matching(View()) && (Consistent(old(View())) ==> Consistent(View()))
      ensures forall k :: k in entries ==>
                k in old(entries) && entries[k] == old(entries)[k] && Fresh(entries[k], now, expiry)
      ensures |entries| <= maxCapacity || |lru| == 0
    {
      var _ := CleanupExpired(now, expiry);
      ghost var swept := View();
      TrimmedKeeps(swept, maxCapacity);
      Trim();
      forall k | k in entries ensures k in swept.entries && entries[k] == swept.entries[k] {
        RoomRemovesOnly(swept, maxCapacity, k);
      }
      TrimmedFits(swept, maxCapacity);
    }

    /** Drop everything but the key counter. */
    method Clear()
      modifies this
      ensures View() == Nothing.(counter := old(counter)) && Consistent(View())
    {
      entries, lru, ranges := map[], map[], [];
    }

    method Lookup(address: u64, size: u64, now: u64, expiry: u64) returns (found: Found)
      ensures found.At? ==> found.base in entries && Covers(entries[found.base], address, size, now, expiry)
      ensures Ascending(ranges) ==> found == Find(View(), address, size, now, expiry)
      ensures Consistent(View()) && Disjoint(View()) && size > 0 ==>
                (found.At? <==> exists k :: k in entries && Covers(entries[k], address, size, now, expiry))
    {
      found := FindInTiers(View(), address, size, now, expiry);
      if Consistent(View()) && Disjoint(View()) && size > 0 {
        FindEqualsScan(View(), address, size, now, expiry);
      }
    }
  }

  /** After an invalidation no lookup that meets the written range answers. */
  lemma InvalidatedRangeMisses(c: Contents, address: u64, end: u64, q: u64, size: u64, now: u64, expiry: u64)
    requires Matching(c) && forall k :: k in c.entries ==> !Overlaps(c.entries[k], address, end)
    requires size > 0 && address < end && q < end && address < q + size
    ensures Find(c, q, size, now, expiry) == Missing
  {
    if Find(c, q, size, now, expiry).At? {
      FindIsSound(c, q, size, now, expiry);
      var base := Find(c, q, size, now, expiry).base;
      assert c.entries[base].base == base;
      assert Overlaps(c.entries[base], address, end);
    }
  }
}
