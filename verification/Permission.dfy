/**
 Whether a range of memory may be read or written, answered with and without the cache.

 The operating system's map is a total function from an address to what VirtualQuery reports for
 it. It does not change during a check: a reported region contains the queried address, its end
 does not wrap, and every byte in it reports the same protection and state. Other threads use the
 same shard between this thread's lock acquisitions.
 */
module Permission {
  import opened MachineInts
  import opened ShardContents
  import opened ShardLookup
  import opened CacheShard

  const MEM_COMMIT: u32 := 0x1000

  datatype Answer = Fails | Reports(region: Region)

  type Os = u64 -> Answer

  /** Every byte of [low, high) reports this protection and state. */
  ghost predicate Uniform(os: Os, low: int, high: int, protection: u32, state: u32)
  {
    forall b: u64 :: low <= b < high ==>
      os(b).Reports? && os(b).region.protection == protection && os(b).region.state == state
  }

  ghost predicate Describes(os: Os, r: Region)
  {
    r.base + r.size < TWO_64 && Uniform(os, r.base, r.base + r.size, r.protection, r.state)
  }

  ghost predicate WellFormed(os: Os)
  {
    forall a: u64 :: os(a).Reports? ==>
      os(a).region.base <= a < os(a).region.base + os(a).region.size && Describes(os, os(a).region)
  }

  predicate Allowed(os: Os, check: u32 -> bool, b: u64)
  {
    os(b).Reports? && os(b).region.state == MEM_COMMIT && check(os(b).region.protection)
  }

  ghost predicate AllAllowed(os: Os, check: u32 -> bool, low: int, high: int)
  {
    forall b: u64 :: low <= b < high ==> Allowed(os, check, b)
  }

  /** The per-byte meaning of a permission check. */
  ghost predicate Permitted(os: Os, check: u32 -> bool, address: u64, size: u64)
  {
    address != 0 && size != 0 && address + size < TWO_64 && AllAllowed(os, check, address, address + size)
  }

  lemma UniformDecides(os: Os, check: u32 -> bool, low: int, high: int, protection: u32, state: u32, b: u64)
    requires Uniform(os, low, high, protection, state) && low <= b < high
    ensures AllAllowed(os, check, low, high) <==> state == MEM_COMMIT && check(protection)
    ensures Allowed(os, check, b) <==> state == MEM_COMMIT && check(protection)
  {
    if state == MEM_COMMIT && check(protection) {
      forall c: u64 | low <= c < high ensures Allowed(os, check, c) {
        assert os(c).Reports?;
      }
    }
    assert os(b).Reports?;
    if !Allowed(os, check, b) {
      assert !AllAllowed(os, check, low, high);
    }
  }

  lemma AllowedJoins(os: Os, check: u32 -> bool, low: int, mid: int, high: int)
    requires low <= mid <= high
    ensures AllAllowed(os, check, low, high) <==> AllAllowed(os, check, low, mid) && AllAllowed(os, check, mid, high)
  {
    if AllAllowed(os, check, low, mid) && AllAllowed(os, check, mid, high) {
      forall b: u64 | low <= b < high ensures Allowed(os, check, b) {
        assert b < mid || mid <= b;
      }
    }
  }

  lemma SubrangeUniform(os: Os, low: int, high: int, protection: u32, state: u32, l: int, h: int)
    requires Uniform(os, low, high, protection, state) && low <= l && h <= high
    ensures Uniform(os, l, h, protection, state)
  {
  }

  /** The walk without a cache: one region at a time. */
  method RangePermissionUncached(os: Os, check: u32 -> bool, address: u64, size: u64) returns (ok: bool)
    requires WellFormed(os)
    ensures ok <==> address + size < TWO_64 && AllAllowed(os, check, address, address + size)
  {
    var queryEnd := End(address, size);
    if queryEnd < address {
      return false;
    }
    var cursor := address;
    while cursor < queryEnd
      invariant address <= cursor
      invariant AllAllowed(os, check, address, if cursor < queryEnd then cursor else queryEnd)
      decreases queryEnd - cursor
    {
      var answer := os(cursor);
      if answer.Fails? {
        assert !Allowed(os, check, cursor);
        return false;
      }
      var r := answer.region;
      UniformDecides(os, check, r.base, r.base + r.size, r.protection, r.state, cursor);
      if r.state != MEM_COMMIT || !check(r.protection) {
        return false;
      }
      var regionEnd := End(r.base, r.size);
      if regionEnd <= cursor {
        return false;
      }
      AllowedJoins(os, check, address, cursor, regionEnd);
      assert AllAllowed(os, check, cursor, regionEnd);
      cursor := regionEnd;
    }
    return true;
  }

  // ---------------------------------------------------------------------------------------
  // With the cache
  // ---------------------------------------------------------------------------------------

  function RegionOf(e: Entry): (r: Region)
  {
    Region(e.base, e.size, e.protection, e.state)
  }

  /** Every entry that counts as unexpired at some time from `since` on describes the map. */
  ghost predicate Agrees(c: Contents, os: Os, since: u64, expiry: u64)
  {
    forall k, t: u64 :: k in c.entries && t >= since && Fresh(c.entries[k], t, expiry) ==>
      Describes(os, RegionOf(c.entries[k]))
  }

  /** Storing what the operating system reports keeps the cache in agreement, whatever fails or is evicted. */
  lemma UpdateKeepsAgreement(c: Contents, capacity: nat, max: nat, os: Os, r: Region, now: u64, failure: Failure,
                             since: u64, expiry: u64)
    requires Agrees(c, os, since, expiry) && Describes(os, r)
    ensures Agrees(Updated(c, capacity, max, r, now, failure), os, since, expiry)
  {
    var n := Updated(c, capacity, max, r, now, failure);
    forall k, t: u64 | k in n.entries && t >= since && Fresh(n.entries[k], t, expiry)
      ensures Describes(os, RegionOf(n.entries[k]))
    {
      UpdatedEntries(c, capacity, max, r, now, failure, k);
    }
  }

  /** What another thread may do to the shard while this one does not hold its lock. */
  datatype Other =
    | OtherQuery(address: u64, now: u64, failure: Failure)
    | OtherCleanup(now: u64, expiry: u64)
    | OtherInvalidate(address: u64, end: u64)
    | OtherClear

  method Interfere(shard: Shard, os: Os, others: seq<Other>, ghost since: u64, ghost expiry: u64)
    requires WellFormed(os) && Matching(shard.View()) && Agrees(shard.View(), os, since, expiry)
    modifies shard
    ensures Matching(shard.View()) && Agrees(shard.View(), os, since, expiry)
  {
    var i := 0;
    while i < |others|
      invariant 0 <= i <= |others|
      invariant Matching(shard.View()) && Agrees(shard.View(), os, since, expiry)
    {
      match others[i] {
        case OtherQuery(address, now, failure) =>
          var _ := QueryAndStore(shard, os, address, now, failure, since, expiry);
        case OtherCleanup(now, limit) =>
          shard.Cleanup(now, limit);
        case OtherInvalidate(address, end) =>
          var _ := shard.EvictOverlapping(address, end);
        case OtherClear =>
          shard.Clear();
      }
      i := i + 1;
    }
  }

  /** The leader's part: ask the operating system and store the answer. */
  method QueryAndStore(shard: Shard, os: Os, address: u64, now: u64, failure: Failure, ghost since: u64,
                       ghost expiry: u64) returns (answer: Answer)
    requires WellFormed(os) && Matching(shard.View()) && Agrees(shard.View(), os, since, expiry)
    modifies shard
    ensures Matching(shard.View()) && Agrees(shard.View(), os, since, expiry)
    ensures answer == os(address)
  {
    answer := os(address);
    if answer.Reports? {
      assert Describes(os, answer.region);
      UpdateKeepsAgreement(shard.View(), shard.capacity, shard.maxCapacity, os, answer.region, now, failure, since,
                           expiry);
      shard.Update(answer.region, now, failure);
    }
  }

  /** How the race for the shard's query slot goes. */
  datatype Race =
    | Leader                                    // won the slot at once
    | Follower(leaderDone: bool, wonLater: bool) // saw the leader finish; then won the slot or not

  /** An answer that describes the map and contains the queried address. */
  ghost predicate Faithful(os: Os, address: u64, answer: Answer)
  {
    && (answer.Fails? ==> os(address).Fails?)
    && (answer.Reports? ==> Describes(os, answer.region)
                            && answer.region.base <= address < answer.region.base + answer.region.size)
  }

  method QueryAndUpdateCache(shard: Shard, os: Os, address: u64, race: Race, others: seq<Other>, now: u64,
                             failure: Failure, expiry: u64, ghost since: u64) returns (answer: Answer)
    requires WellFormed(os) && Matching(shard.View()) && Agrees(shard.View(), os, since, expiry) && now >= since
    modifies shard
    ensures Matching(shard.View()) && Agrees(shard.View(), os, since, expiry)
    ensures Faithful(os, address, answer)
  {
    if race.Follower? && race.leaderDone {
      Interfere(shard, os, others, since, expiry);
      var found := shard.Lookup(address, 1, now, expiry);
      if found.At? {
        var e := shard.entries[found.base];
        assert Fresh(e, now, expiry);
        return Reports(RegionOf(e));
      }
    }
    if race.Leader? || race.wonLater {
      answer := QueryAndStore(shard, os, address, now, failure, since, expiry);
    } else {
      answer := os(address);
    }
  }

  /** The answer from one described region, walking on without the cache past its end. */
  method AnswerFromRegion(os: Os, check: u32 -> bool, address: u64, size: u64, r: Region) returns (ok: bool)
    requires WellFormed(os) && address != 0 && size != 0
    requires Describes(os, r) && r.base <= address < r.base + r.size
    ensures ok <==> Permitted(os, check, address, size)
  {
    UniformDecides(os, check, r.base, r.base + r.size, r.protection, r.state, address);
    if r.state != MEM_COMMIT || !check(r.protection) {
      return false;
    }
    var regionEnd := End(r.base, r.size);
    var queryEnd := End(address, size);
    if queryEnd < address || regionEnd <= address {
      return false;
    }
    AllowedJoins(os, check, r.base, address, regionEnd);
    if queryEnd <= regionEnd {
      AllowedJoins(os, check, address, queryEnd, regionEnd);
      return true;
    }
    AllowedJoins(os, check, address, regionEnd, queryEnd);
    ok := RangePermissionUncached(os, check, regionEnd, queryEnd - regionEnd);
  }

  /**
   The permission check. `cached` says whether the cache is available; `before` and `others` are what
   other threads do to the shard on the way; the clock reads `now`, then `later`.
   */
  method CheckMemoryPermission(cached: bool, shard: Shard, os: Os, check: u32 -> bool, address: u64, size: u64,
                               before: seq<Other>, race: Race, others: seq<Other>, now: u64, later: u64,
                               failure: Failure, expiry: u64, ghost since: u64) returns (ok: bool)
    requires WellFormed(os) && Matching(shard.View()) && Agrees(shard.View(), os, since, expiry)
    requires since <= now && since <= later
    modifies shard
    ensures ok <==> Permitted(os, check, address, size)
    ensures Matching(shard.View()) && Agrees(shard.View(), os, since, expiry)
  {
    if address == 0 || size == 0 {
      return false;
    }
    if !cached {
      ok := RangePermissionUncached(os, check, address, size);
      return ok;
    }
    var found := shard.Lookup(address, size, now, expiry);
    if found.At? {
      var e := shard.entries[found.base];
      assert Fresh(e, now, expiry);
      SubrangeUniform(os, e.base, e.base + e.size, e.protection, e.state, address, address + size);
      UniformDecides(os, check, address, address + size, e.protection, e.state, address);
      return e.state == MEM_COMMIT && check(e.protection);
    }
    Interfere(shard, os, before, since, expiry);
    var answer := QueryAndUpdateCache(shard, os, address, race, others, later, failure, expiry, since);
    if answer.Fails? {
      assert !Allowed(os, check, address);
      return false;
    }
    ok := AnswerFromRegion(os, check, address, size, answer.region);
  }

  // The two protection predicates the source passes in.

  /** Bitwise and. */
  function And(a: nat, b: nat): (r: nat)
    decreases a
  {
    if a == 0 then 0 else (if a % 2 == 1 && b % 2 == 1 then 1 else 0) + 2 * And(a / 2, b / 2)
  }

  const PAGE_NOACCESS: u32 := 0x01
  const PAGE_READONLY: u32 := 0x02
  const PAGE_READWRITE: u32 := 0x04
  const PAGE_WRITECOPY: u32 := 0x08
  const PAGE_EXECUTE_READ: u32 := 0x20
  const PAGE_EXECUTE_READWRITE: u32 := 0x40
  const PAGE_EXECUTE_WRITECOPY: u32 := 0x80
  const PAGE_GUARD: u32 := 0x100

  const READ_FLAGS: u32 :=
    PAGE_READONLY + PAGE_READWRITE + PAGE_WRITECOPY
    + PAGE_EXECUTE_READ + PAGE_EXECUTE_READWRITE + PAGE_EXECUTE_WRITECOPY
  const WRITE_FLAGS: u32 := PAGE_READWRITE + PAGE_WRITECOPY + PAGE_EXECUTE_READWRITE + PAGE_EXECUTE_WRITECOPY
  const BARRED_FLAGS: u32 := PAGE_NOACCESS + PAGE_GUARD

  predicate WritePermission(protection: u32)
  {
    And(protection, WRITE_FLAGS) != 0 && And(protection, BARRED_FLAGS) == 0
  }

  predicate ReadPermission(protection: u32)
  {
    And(protection, READ_FLAGS) != 0 && And(protection, BARRED_FLAGS) == 0
  }

  predicate HasFlag(protection: u32, flag: u32)
    requires flag > 0
  {
    protection / flag % 2 == 1
  }

  /** A bit below the lowest one of a mask does not matter. */
  lemma AndShifts(a: nat, b: nat)
    ensures And(a, 2 * b) == 0 <==> And(a / 2, b) == 0
    ensures And(a, 2 * b + 1) == 0 <==> a % 2 == 0 && And(a / 2, b) == 0
  {
    assert 2 * b / 2 == b && (2 * b + 1) / 2 == b;
  }

  lemma {:induction false} AndNothing(a: nat)
    ensures And(a, 0) == 0
  {
    if a > 0 {
      AndNothing(a / 2);
    }
  }

  lemma Halves(p: nat)
    ensures p / 2 / 2 == p / 4 && p / 4 / 2 == p / 8 && p / 8 / 2 == p / 0x10 && p / 0x10 / 2 == p / 0x20
    ensures p / 0x20 / 2 == p / 0x40 && p / 0x40 / 2 == p / 0x80 && p / 0x80 / 2 == p / 0x100
    ensures p / 0x100 / 2 == p / 0x200
  {
  }

  /** Writing is permitted exactly for the four writable protections, unless access is barred. */
  lemma WriteMaskMeans(p: u32)
    ensures And(p, WRITE_FLAGS) != 0 <==>
            HasFlag(p, 0x04) || HasFlag(p, 0x08) || HasFlag(p, 0x40) || HasFlag(p, 0x80)
  {
    Halves(p);
    AndShifts(p, 0x66);
    AndShifts(p / 2, 0x33);
    AndShifts(p / 4, 0x19);
    AndShifts(p / 8, 0x0C);
    TopBits(p, 0x0C);
  }

  /** The four bits from 0x10 on, for a mask with the upper two of them set, and possibly the second. */
  lemma TopBits(p: u32, mask: nat)
    requires mask == 0x0C || mask == 0x0E
    ensures And(p / 0x10, mask) != 0 <==>
            (mask == 0x0E && HasFlag(p, 0x20)) || HasFlag(p, 0x40) || HasFlag(p, 0x80)
  {
    Halves(p);
    AndShifts(p / 0x10, mask / 2);
    AndShifts(p / 0x20, 0x03);
    AndShifts(p / 0x40, 0x01);
    AndShifts(p / 0x80, 0);
    AndNothing(p / 0x100);
  }

  /** Reading is permitted for two protections more. */
  lemma ReadMaskMeans(p: u32)
    ensures And(p, READ_FLAGS) != 0 <==>
            || HasFlag(p, 0x02) || HasFlag(p, 0x04) || HasFlag(p, 0x08)
            || HasFlag(p, 0x20) || HasFlag(p, 0x40) || HasFlag(p, 0x80)
  {
    Halves(p);
    AndShifts(p, 0x77);
    AndShifts(p / 2, 0x3B);
    AndShifts(p / 4, 0x1D);
    AndShifts(p / 8, 0x0E);
    TopBits(p, 0x0E);
  }

  lemma TwoShifts(a: nat, b: nat)
    ensures And(a, 4 * b) == 0 <==> And(a / 4, b) == 0
  {
    assert a / 2 / 2 == a / 4;
    AndShifts(a, 2 * b);
    AndShifts(a / 2, b);
  }

  lemma EighthBit(a: nat)
    ensures And(a, 0x80) == 0 <==> a / 0x80 % 2 == 0
  {
    assert a / 4 / 4 == a / 0x10 && a / 0x10 / 4 == a / 0x40 && a / 0x40 / 2 == a / 0x80;
    TwoShifts(a, 0x20);
    TwoShifts(a / 4, 0x08);
    TwoShifts(a / 0x10, 0x02);
    AndShifts(a / 0x40, 1);
    AndShifts(a / 0x80, 0);
    AndNothing(a / 0x80 / 2);
  }

  lemma BarredMaskMeans(p: u32)
    ensures And(p, BARRED_FLAGS) != 0 <==> HasFlag(p, 0x01) || HasFlag(p, 0x100)
  {
    AndShifts(p, 0x80);
    EighthBit(p / 2);
    assert p / 2 / 0x80 == p / 0x100;
  }

  /** Both checks in terms of the protection's bits. */
  lemma PermissionsMean(p: u32)
    ensures WritePermission(p) <==>
            && (HasFlag(p, 0x04) || HasFlag(p, 0x08) || HasFlag(p, 0x40) || HasFlag(p, 0x80))
            && !HasFlag(p, 0x01) && !HasFlag(p, 0x100)
    ensures ReadPermission(p) <==>
            && (|| HasFlag(p, 0x02) || HasFlag(p, 0x04) || HasFlag(p, 0x08)
                || HasFlag(p, 0x20) || HasFlag(p, 0x40) || HasFlag(p, 0x80))
            && !HasFlag(p, 0x01) && !HasFlag(p, 0x100)
  {
    WriteMaskMeans(p);
    ReadMaskMeans(p);
    BarredMaskMeans(p);
  }

  /** A writable range is readable. */
  lemma WritableIsReadable(os: Os, address: u64, size: u64)
    requires Permitted(os, WritePermission, address, size)
    ensures Permitted(os, ReadPermission, address, size)
  {
    forall b: u64 | address <= b < address + size ensures Allowed(os, ReadPermission, b) {
      assert Allowed(os, WritePermission, b);
      PermissionsMean(os(b).region.protection);
    }
  }

  method IsReadable(cached: bool, shard: Shard, os: Os, address: u64, size: u64, before: seq<Other>, race: Race,
                    others: seq<Other>, now: u64, later: u64, failure: Failure, expiry: u64, ghost since: u64)
    returns (ok: bool)
    requires WellFormed(os) && Matching(shard.View()) && Agrees(shard.View(), os, since, expiry)
    requires since <= now && since <= later
    modifies shard
    ensures ok <==> Permitted(os, ReadPermission, address, size)
    ensures Matching(shard.View()) && Agrees(shard.View(), os, since, expiry)
  {
    ok := CheckMemoryPermission(cached, shard, os, ReadPermission, address, size, before, race, others, now, later,
                                failure, expiry, since);
  }

  /** A range that checks as writable is readable, too. */
  method IsWritable(cached: bool, shard: Shard, os: Os, address: u64, size: u64, before: seq<Other>, race: Race,
                    others: seq<Other>, now: u64, later: u64, failure: Failure, expiry: u64, ghost since: u64)
    returns (ok: bool)
    requires WellFormed(os) && Matching(shard.View()) && Agrees(shard.View(), os, since, expiry)
    requires since <= now && since <= later
    modifies shard
    ensures ok <==> Permitted(os, WritePermission, address, size)
    ensures ok ==> Permitted(os, ReadPermission, address, size)
    ensures Matching(shard.View()) && Agrees(shard.View(), os, since, expiry)
  {
    ok := CheckMemoryPermission(cached, shard, os, WritePermission, address, size, before, race, others, now, later,
                                failure, expiry, since);
    if ok {
      WritableIsReadable(os, address, size);
    }
  }
}
