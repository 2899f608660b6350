/**
 The two-tier lookup of a shard: a probe of the region map by page base, then a search of the
 sorted ranges. It is compared with a scan over all entries.
 */
module ShardLookup {
  import opened MachineInts
  import opened ShardContents

  datatype Found = Missing | At(base: u64)

  /** A usable entry: valid, not expired, and covering [address, address + size) without wrap-around. */
  predicate Covers(e: Entry, address: u64, size: u64, now: u64, expiry: u64)
  {
    && e.valid
    && Wrap64(now - e.stamp) <= expiry
    && End(address, size) >= address
    && End(e.base, e.size) >= e.base
    && address >= e.base
    && End(address, size) <= End(e.base, e.size)
  }

  function PageOf(address: u64): (r: u64)
    ensures r <= address < r + 0x1000 && r % 0x1000 == 0
  {
    address - address % 0x1000
  }

  /** The last range starting at or before the address. */
  function Candidate(ranges: seq<Range>, address: u64): (i: nat)
    ensures i <= |ranges|
  {
    UpperBound(ranges, Range(address, TWO_64 - 1))
  }

  function Find(c: Contents, address: u64, size: u64, now: u64, expiry: u64): (r: Found)
  {
    var page := PageOf(address);
    if page in c.entries && Covers(c.entries[page], address, size, now, expiry) then At(page)
    else
      var i := Candidate(c.ranges, address);
      if i > 0 && c.ranges[i - 1].base <= address < c.ranges[i - 1].end
         && c.ranges[i - 1].base in c.entries
         && Covers(c.entries[c.ranges[i - 1].base], address, size, now, expiry)
      then At(c.ranges[i - 1].base)
      else Missing
  }

  /** Whatever state the shard is in, an answer is an unexpired entry covering the whole query. */
  lemma FindIsSound(c: Contents, address: u64, size: u64, now: u64, expiry: u64)
    requires Find(c, address, size, now, expiry).At?
    ensures var base := Find(c, address, size, now, expiry).base;
            base in c.entries && Covers(c.entries[base], address, size, now, expiry)
  {
  }

  lemma {:induction false} UpperBoundSplits(ranges: seq<Range>, p: Range)
    requires Ascending(ranges)
    ensures forall i :: 0 <= i < UpperBound(ranges, p) ==> !Before(p, ranges[i])
    ensures forall i :: UpperBound(ranges, p) <= i < |ranges| ==> Before(p, ranges[i])
  {
    if ranges != [] && !Before(p, ranges[0]) {
      UpperBoundSplits(ranges[1..], p);
      assert forall i :: 0 < i < |ranges| ==> ranges[i] == ranges[1..][i - 1];
    }
  }

  lemma CandidateSplits(ranges: seq<Range>, address: u64, i: nat)
    requires Ascending(ranges) && i < |ranges|
    ensures i < Candidate(ranges, address) <==> ranges[i].base <= address
  {
    UpperBoundSplits(ranges, Range(address, TWO_64 - 1));
  }

  /** Regions that are non-empty, do not wrap and do not overlap. */
  predicate Disjoint(c: Contents)
  {
    && (forall k :: k in c.entries ==> k < End(k, c.entries[k].size))
    && (forall j, k :: j in c.entries && k in c.entries && j < k ==> End(j, c.entries[j].size) <= k)
  }

  /** Among disjoint regions, none starts between a region's base and an address inside it. */
  lemma NoLaterStart(c: Contents, address: u64, k: u64, r: Range)
    requires Disjoint(c) && k in c.entries && k <= address < End(k, c.entries[k].size)
    requires RangeMatches(c.entries, r) && r.base <= address
    ensures r.base <= k
  {
  }

  lemma RangeOf(c: Contents, k: u64) returns (j: nat)
    requires Consistent(c) && k in c.entries
    ensures j < |c.ranges| && c.ranges[j] == Range(k, End(k, c.entries[k].size))
  {
    assert Indexed(c, k);
    var r :| r in c.ranges && r.base == k;
    assert RangeMatches(c.entries, r);
    j :| 0 <= j < |c.ranges| && c.ranges[j] == r;
  }

  /** The entry whose region holds the address is the one the range search inspects. */
  lemma CandidateIsTheRegion(c: Contents, address: u64, k: u64)
    requires Consistent(c) && Disjoint(c) && k in c.entries
    requires k <= address < End(k, c.entries[k].size)
    ensures var i := Candidate(c.ranges, address);
            i > 0 && c.ranges[i - 1] == Range(k, End(k, c.entries[k].size))
  {
    var j := RangeOf(c, k);
    CandidateSplits(c.ranges, address, j);
    var i := Candidate(c.ranges, address);
    CandidateSplits(c.ranges, address, i - 1);
    NoLaterStart(c, address, k, c.ranges[i - 1]);
  }

  predicate Reaches(c: Contents, k: u64, address: u64)
    requires k in c.entries
  {
    address < End(k, c.entries[k].size) || k == PageOf(address)
  }

  /** Over disjoint regions the lookup answers exactly when some covering entry holds the address or its page. */
  lemma FindIff(c: Contents, address: u64, size: u64, now: u64, expiry: u64)
    requires Consistent(c) && Disjoint(c)
    ensures Find(c, address, size, now, expiry).At? <==>
            exists k :: k in c.entries && Covers(c.entries[k], address, size, now, expiry) && Reaches(c, k, address)
  {
    var r := Find(c, address, size, now, expiry);
    if r.At? {
      FindIsSound(c, address, size, now, expiry);
      if r.base != PageOf(address) {
        var i := Candidate(c.ranges, address);
        assert RangeMatches(c.entries, c.ranges[i - 1]);
      }
      assert Reaches(c, r.base, address);
    } else {
      forall k | k in c.entries && Covers(c.entries[k], address, size, now, expiry) ensures !Reaches(c, k, address) {
        if address < End(k, c.entries[k].size) {
          CandidateIsTheRegion(c, address, k);
        }
      }
    }
  }

  /** For a non-empty query that is exactly what a scan over all entries finds. */
  lemma FindEqualsScan(c: Contents, address: u64, size: u64, now: u64, expiry: u64)
    requires Consistent(c) && Disjoint(c) && size > 0
    ensures Find(c, address, size, now, expiry).At? <==>
            exists k :: k in c.entries && Covers(c.entries[k], address, size, now, expiry)
  {
    FindIff(c, address, size, now, expiry);
    forall k | k in c.entries && Covers(c.entries[k], address, size, now, expiry) ensures Reaches(c, k, address) {
      assert c.entries[k].base == k;
    }
  }

  const OneRegion: Contents :=
    Contents(map[0x1000 := Entry(0x1000, 0x2000, 4, 0x1000, 0, 0, true)], map[0 := 0x1000], [Range(0x1000, 0x3000)], 1)

  /** An empty query at the end of a region is covered by its entry, yet the lookup misses it. */
  lemma EmptyQueryCanMiss(now: u64)
    ensures Consistent(OneRegion) && Disjoint(OneRegion)
    ensures Covers(OneRegion.entries[0x1000], 0x3000, 0, now, TWO_64 - 1)
    ensures Find(OneRegion, 0x3000, 0, now, TWO_64 - 1) == Missing
  {
    assert OneRegion.ranges[0] in OneRegion.ranges;
    assert Indexed(OneRegion, 0x1000);
    assert Candidate(OneRegion.ranges, 0x3000) <= 1;
  }

  /** An entry that does not wrap covers a query exactly when it is fresh and holds all of the query. */
  lemma CoversMeans(e: Entry, address: u64, size: u64, now: u64, expiry: u64)
    requires e.base + e.size < TWO_64
    ensures Covers(e, address, size, now, expiry) <==>
            && e.valid && (if now >= e.stamp then now - e.stamp else now + TWO_64 - e.stamp) <= expiry
            && e.base <= address && address + size <= e.base + e.size
  {
  }

  /** The region neither wraps nor meets any other entry. */
  predicate Apart(c: Contents, region: Region)
  {
    && 0 < region.size && region.base + region.size < TWO_64
    && forall k :: k in c.entries && k != region.base ==>
         region.base + region.size <= k || End(k, c.entries[k].size) <= region.base
  }

  lemma StoredIsDisjoint(c: Contents, n: Contents, region: Region, now: u64)
    requires Disjoint(c) && Apart(c, region) && Stores(c, n, region, now) && OthersKept(c, n, region)
    ensures Disjoint(n)
  {
    assert End(region.base, region.size) == region.base + region.size;
    forall j, k | j in n.entries && k in n.entries && j < k ensures End(j, n.entries[j].size) <= k {
      if j != region.base && k != region.base {
        assert j in c.entries && k in c.entries;
      }
    }
  }

  /** Until it expires, a stored region answers every non-empty query that lies inside it. */
  lemma StoredRegionAnswers(c: Contents, capacity: nat, max: nat, region: Region, now: u64, address: u64, size: u64,
                            later: u64, expiry: u64)
    requires Consistent(c) && Disjoint(c) && c.counter + 1 < TWO_64 && Apart(c, region)
    requires region.base <= address && 0 < size && address + size <= region.base + region.size
    requires Wrap64(later - now) <= expiry
    ensures Find(Updated(c, capacity, max, region, now, NoFailure), address, size, later, expiry) == At(region.base)
  {
    var n := Updated(c, capacity, max, region, now, NoFailure);
    UpdatedConsistentIffNoWrap(c, capacity, max, region, now);
    UpdateStores(c, capacity, max, region, now, NoFailure);
    StoredIsDisjoint(c, n, region, now);
    HeldRegionAnswers(c, n, region, now, address, size, later, expiry);
  }

  lemma HeldRegionAnswers(c: Contents, n: Contents, region: Region, now: u64, address: u64, size: u64, later: u64,
                          expiry: u64)
    requires Consistent(n) && Disjoint(n) && Stores(c, n, region, now) && region.base + region.size < TWO_64
    requires region.base <= address && 0 < size && address + size <= region.base + region.size
    requires Wrap64(later - now) <= expiry
    ensures Find(n, address, size, later, expiry) == At(region.base)
  {
    assert Covers(n.entries[region.base], address, size, later, expiry);
    FindEqualsScan(n, address, size, later, expiry);
    FindIsSound(n, address, size, later, expiry);
    OnlyOneHolds(n, Find(n, address, size, later, expiry).base, region.base, address);
  }

  lemma OnlyOneHolds(c: Contents, j: u64, k: u64, address: u64)
    requires Disjoint(c) && j in c.entries && k in c.entries
    requires j <= address < End(j, c.entries[j].size) && k <= address < End(k, c.entries[k].size)
    ensures j == k
  {
  }
}
