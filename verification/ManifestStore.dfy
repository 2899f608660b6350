/**
 A manifest as an ordered store of named sections: a header section, then for each record its own section
 followed by one section per ladder rung.

 The store stands for the INI document: sections keep their first-written order, writing a key of an
 existing section overwrites it there, and names and values are exact. What the text of a section says is
 left to a codec.
 */
module ManifestStore {
  import opened MachineInts
  import opened Options
  import opened SectionNames
  import opened ManifestRecords

  datatype Manifest = Manifest(revision: u32, records: seq<Record>)

  datatype Store = Store(order: seq<string>, sections: map<string, Keys>)

  datatype Result = Parsed(manifest: Manifest) | MissingHeader | Malformed

  datatype Block = Block(name: string, keys: Keys)

  /** How rungs, records and header numbers are turned into section text and back. */
  datatype Codec = Codec(
    specKeys: Spec -> Keys,
    recordKeys: Record -> Keys,
    numberKey: (Key, u64) -> string,
    spec: Keys -> Option<Spec>,
    record: (string, Keys) -> Option<Record>,
    number: (Key, string) -> Option<u64>)

  const MAIN: string := "manifest"
  const SCHEMA_VERSION: u32 := 1
  const Empty: Store := Store([], map[])

  // Writing.

  function Put(s: Store, b: Block): (r: Store)
  {
    if b.name in s.sections then s.(sections := s.sections[b.name := s.sections[b.name] + b.keys])
    else Store(s.order + [b.name], s.sections[b.name := b.keys])
  }

  function PutAll(s: Store, blocks: seq<Block>): (r: Store)
  {
    if blocks == [] then s else Put(PutAll(s, blocks[..|blocks| - 1]), blocks[|blocks| - 1])
  }

  function HeaderKeys(c: Codec, revision: u32): (keys: Keys)
  {
    map[KSchema := c.numberKey(KSchema, SCHEMA_VERSION)]
    + if revision != 0 then map[KRevision := c.numberKey(KRevision, revision)] else map[]
  }

  function RungBlock(c: Codec, section: string, ladder: seq<Spec>, i: nat): (b: Block)
    requires i < |ladder|
  {
    Block(RungSection(section, i), c.specKeys(ladder[i]))
  }

  function RecordBlocks(c: Codec, r: Record): (bs: seq<Block>)
    ensures |bs| == 1 + |r.ladder|
  {
    var section := RecordSection(r.name);
    [Block(section, c.recordKeys(r))] +
    seq(|r.ladder|, i requires 0 <= i < |r.ladder| => RungBlock(c, section, r.ladder, i))
  }

  function AllBlocks(c: Codec, rs: seq<Record>): (bs: seq<Block>)
  {
    if rs == [] then [] else AllBlocks(c, rs[..|rs| - 1]) + RecordBlocks(c, rs[|rs| - 1])
  }

  function Blocks(c: Codec, m: Manifest): (bs: seq<Block>)
  {
    [Block(MAIN, HeaderKeys(c, m.revision))] + AllBlocks(c, m.records)
  }

  function Serialized(c: Codec, m: Manifest): (s: Store)
  {
    PutAll(Empty, Blocks(c, m))
  }

  // Reading.

  predicate HasMode(s: Store, name: string)
  {
    name in s.sections && KMode in s.sections[name]
  }

  /**
   The ladder from rung `i` on: sections are probed by name until one has no mode. A store of n sections
   cannot hold more than n rungs.
   */
  function Ladder(c: Codec, s: Store, section: string, i: nat): (r: Option<seq<Spec>>)
    decreases |s.order| - i
  {
    if i >= |s.order| || !HasMode(s, RungSection(section, i)) then Some([])
    else
      var first := c.spec(s.sections[RungSection(section, i)]);
      var rest := Ladder(c, s, section, i + 1);
      if first.None? || rest.None? then None else Some([first.value] + rest.value)
  }

  /** A rung section past the end of its parent's ladder. */
  predicate Stray(name: string, section: string, length: nat)
  {
    var rung := ParseRung(name);
    rung.Some? && rung.value.parent == section && rung.value.index >= length
  }

  predicate AnyStray(s: Store, section: string, length: nat)
  {
    exists name :: name in s.order && Stray(name, section, length)
  }

  function RecordAt(c: Codec, s: Store, section: string): (r: Option<Record>)
    requires IsRecordName(section) && section in s.sections
  {
    if |section| == |PREFIX| then None
    else
      var fields := c.record(section[|PREFIX|..], s.sections[section]);
      var ladder := Ladder(c, s, section, 0);
      if fields.None? || ladder.None? || AnyStray(s, section, |ladder.value|) then None
      else Some(fields.value.(ladder := ladder.value))
  }

  predicate NamesRecord(name: string)
  {
    IsRecordName(name) && ParseRung(name).None?
  }

  /** The records of the given sections, in order; one bad section rejects them all. */
  function RecordsIn(c: Codec, s: Store, names: seq<string>): (r: Option<seq<Record>>)
    requires forall i :: 0 <= i < |names| ==> names[i] in s.sections
  {
    if names == [] then Some([])
    else
      var before := RecordsIn(c, s, names[..|names| - 1]);
      var last := names[|names| - 1];
      if before.None? then None
      else if !NamesRecord(last) then before
      else
        var r := RecordAt(c, s, last);
        if r.None? then None else Some(before.value + [r.value])
  }

  /** Every rung section has a parent record. */
  predicate Parented(s: Store, name: string)
  {
    var rung := ParseRung(name);
    IsRecordName(name) && rung.Some? ==> |rung.value.parent| > |PREFIX| && rung.value.parent in s.sections
  }

  /** The header section is there and states this schema. */
  predicate HasHeader(c: Codec, s: Store)
  {
    && MAIN in s.sections && KSchema in s.sections[MAIN]
    && c.number(KSchema, s.sections[MAIN][KSchema]) == Some(SCHEMA_VERSION)
  }

  function RevisionOf(c: Codec, s: Store): (r: Option<u32>)
  {
    if MAIN !in s.sections || KRevision !in s.sections[MAIN] then Some(0)
    else
      var revision := c.number(KRevision, s.sections[MAIN][KRevision]);
      if revision.Some? && revision.value < TWO_32 then Some(revision.value) else None
  }

  predicate WellFormed(s: Store)
  {
    && (forall i :: 0 <= i < |s.order| ==> s.order[i] in s.sections)
    && (forall i, j :: 0 <= i < j < |s.order| ==> s.order[i] != s.order[j])
    && (forall n :: n in s.sections ==> n in s.order)
  }

  function ParsedStore(c: Codec, s: Store): (r: Result)
    requires WellFormed(s)
  {
    if !HasHeader(c, s) then MissingHeader
    else if RevisionOf(c, s).None? || !(forall name :: name in s.order ==> Parented(s, name)) then Malformed
    else
      var records := RecordsIn(c, s, s.order);
      if records.None? then Malformed else Parsed(Manifest(RevisionOf(c, s).value, records.value))
  }

  // ---------------------------------------------------------------------------------------
  // Distinct names make a plain store
  // ---------------------------------------------------------------------------------------

  predicate DistinctNames(bs: seq<Block>)
  {
    forall i, j :: 0 <= i < j < |bs| ==> bs[i].name != bs[j].name
  }

  function NamesOf(bs: seq<Block>): (names: seq<string>)
    ensures |names| == |bs| && forall i :: 0 <= i < |bs| ==> names[i] == bs[i].name
  {
    seq(|bs|, i requires 0 <= i < |bs| => bs[i].name)
  }

  /** The store is exactly these blocks. */
  predicate Holds(s: Store, bs: seq<Block>)
  {
    && s.order == NamesOf(bs)
    && (forall i :: 0 <= i < |bs| ==> bs[i].name in s.sections && s.sections[bs[i].name] == bs[i].keys)
    && (forall n :: n in s.sections ==> n in s.order)
  }

  lemma PutFresh(s: Store, bs: seq<Block>, b: Block)
    requires Holds(s, bs) && forall i :: 0 <= i < |bs| ==> bs[i].name != b.name
    ensures Holds(Put(s, b), bs + [b])
  {
    assert b.name !in s.sections;
    assert NamesOf(bs + [b]) == NamesOf(bs) + [b.name];
  }

  lemma {:induction false} PutAllHolds(bs: seq<Block>)
    requires DistinctNames(bs)
    ensures Holds(PutAll(Empty, bs), bs)
  {
    if bs != [] {
      var k := |bs| - 1;
      PutAllHolds(bs[..k]);
      PutFresh(PutAll(Empty, bs[..k]), bs[..k], bs[k]);
      assert bs[..k] + [bs[k]] == bs;
    }
  }

  lemma HoldsWellFormed(s: Store, bs: seq<Block>)
    requires Holds(s, bs) && DistinctNames(bs)
    ensures WellFormed(s)
  {
  }

  // ---------------------------------------------------------------------------------------
  // Every section belongs to one record
  // ---------------------------------------------------------------------------------------

  /** A label the writer can use: not empty, and not one that reads as a rung. */
  predicate GoodName(name: string)
  {
    name != "" && ParseRung(RecordSection(name)).None?
  }

  function Owner(name: string): (r: string)
  {
    var rung := ParseRung(name);
    if rung.Some? then rung.value.parent else name
  }

  /** The codec can read this rung's section, and its mode is written. */
  predicate SpecWritable(c: Codec, x: Spec)
  {
    KMode in c.specKeys(x) && c.spec(c.specKeys(x)).Some?
  }

  predicate LadderWritable(c: Codec, ladder: seq<Spec>)
  {
    forall i :: 0 <= i < |ladder| ==> SpecWritable(c, ladder[i])
  }

  /** A record whose sections the codec can read. */
  predicate Acceptable(c: Codec, r: Record)
  {
    GoodName(r.name) && |r.ladder| < TWO_64 && c.record(r.name, c.recordKeys(r)).Some? && LadderWritable(c, r.ladder)
  }

  function LadderAgain(c: Codec, ladder: seq<Spec>): (r: seq<Spec>)
    requires LadderWritable(c, ladder)
    ensures |r| == |ladder| && forall i :: 0 <= i < |ladder| ==> c.spec(c.specKeys(ladder[i])) == Some(r[i])
  {
    seq(|ladder|, i requires 0 <= i < |ladder| && SpecWritable(c, ladder[i]) => c.spec(c.specKeys(ladder[i])).value)
  }

  /** The record as its sections read. */
  function Again(c: Codec, r: Record): (n: Record)
    requires Acceptable(c, r)
  {
    c.record(r.name, c.recordKeys(r)).value.(ladder := LadderAgain(c, r.ladder))
  }

  predicate DistinctRecords(rs: seq<Record>)
  {
    forall i, j :: 0 <= i < j < |rs| ==> rs[i].name != rs[j].name
  }

  lemma RecordSectionsDiffer(a: string, b: string)
    requires RecordSection(a) == RecordSection(b)
    ensures a == b
  {
    assert RecordSection(a)[|PREFIX|..] == a && RecordSection(b)[|PREFIX|..] == b;
  }

  /** What a record's k-th section is called. */
  lemma BlockName(c: Codec, r: Record, k: nat)
    requires k < |RecordBlocks(c, r)| && GoodName(r.name) && |r.ladder| < TWO_64
    ensures Owner(RecordBlocks(c, r)[k].name) == RecordSection(r.name)
    ensures k == 0 ==> RecordBlocks(c, r)[k].name == RecordSection(r.name) && NamesRecord(RecordBlocks(c, r)[k].name)
    ensures k > 0 ==> ParseRung(RecordBlocks(c, r)[k].name) == Some(Rung(RecordSection(r.name), k - 1))
  {
    if k > 0 {
      RungSectionParses(RecordSection(r.name), k - 1);
    }
  }

  lemma RecordBlocksDistinct(c: Codec, r: Record)
    requires GoodName(r.name) && |r.ladder| < TWO_64
    ensures DistinctNames(RecordBlocks(c, r))
  {
    var bs := RecordBlocks(c, r);
    forall i, j | 0 <= i < j < |bs| ensures bs[i].name != bs[j].name {
      BlockName(c, r, i);
      BlockName(c, r, j);
    }
  }

  predicate OwnedBy(name: string, rs: seq<Record>)
  {
    exists j :: 0 <= j < |rs| && Owner(name) == RecordSection(rs[j].name)
  }

  lemma {:induction false} AllBlocksOwned(c: Codec, rs: seq<Record>, k: nat)
    requires k < |AllBlocks(c, rs)| && forall i :: 0 <= i < |rs| ==> GoodName(rs[i].name) && |rs[i].ladder| < TWO_64
    ensures OwnedBy(AllBlocks(c, rs)[k].name, rs)
  {
    if rs != [] {
      var n := |rs| - 1;
      var before := AllBlocks(c, rs[..n]);
      if k < |before| {
        AllBlocksOwned(c, rs[..n], k);
        var j :| 0 <= j < n && Owner(before[k].name) == RecordSection(rs[..n][j].name);
        assert rs[j] == rs[..n][j];
      } else {
        BlockName(c, rs[n], k - |before|);
      }
    }
  }

  lemma DistinctAppend(a: seq<Block>, b: seq<Block>)
    requires DistinctNames(a) && DistinctNames(b)
    requires forall i, j :: 0 <= i < |a| && 0 <= j < |b| ==> a[i].name != b[j].name
    ensures DistinctNames(a + b)
  {
  }

  lemma OtherOwner(rs: seq<Record>, n: nat, name: string, other: string)
    requires n < |rs| && DistinctRecords(rs) && OwnedBy(name, rs[..n]) && Owner(other) == RecordSection(rs[n].name)
    ensures name != other
  {
    var j :| 0 <= j < n && Owner(name) == RecordSection(rs[..n][j].name);
    if name == other {
      RecordSectionsDiffer(rs[..n][j].name, rs[n].name);
    }
  }

  lemma {:induction false} AllBlocksDistinct(c: Codec, rs: seq<Record>)
    requires DistinctRecords(rs) && forall i :: 0 <= i < |rs| ==> GoodName(rs[i].name) && |rs[i].ladder| < TWO_64
    ensures DistinctNames(AllBlocks(c, rs))
  {
    if rs != [] {
      var n := |rs| - 1;
      var a, b := AllBlocks(c, rs[..n]), RecordBlocks(c, rs[n]);
      AllBlocksDistinct(c, rs[..n]);
      RecordBlocksDistinct(c, rs[n]);
      forall i, j | 0 <= i < |a| && 0 <= j < |b| ensures a[i].name != b[j].name {
        AllBlocksOwned(c, rs[..n], i);
        BlockName(c, rs[n], j);
        OtherOwner(rs, n, a[i].name, b[j].name);
      }
      DistinctAppend(a, b);
    }
  }

  lemma {:induction false} NoInfix(name: string, p: nat)
    requires '.' !in name
    ensures LastInfix(name, p).None?
  {
    assert p + |INFIX| <= |name| ==> name[p..p + |INFIX|][0] == name[p];
    if p > 0 {
      NoInfix(name, p - 1);
    }
  }

  lemma MainIsApart()
    ensures ParseRung(MAIN).None? && !IsRecordName(MAIN) && Owner(MAIN) == MAIN
  {
    NoInfix(MAIN, |MAIN|);
    assert MAIN[0] != PREFIX[0];
  }

  lemma BlocksDistinct(c: Codec, m: Manifest)
    requires DistinctRecords(m.records)
    requires forall i :: 0 <= i < |m.records| ==> GoodName(m.records[i].name) && |m.records[i].ladder| < TWO_64
    ensures DistinctNames(Blocks(c, m))
  {
    AllBlocksDistinct(c, m.records);
    MainIsApart();
    var all := AllBlocks(c, m.records);
    forall j | 0 <= j < |all| ensures all[j].name != MAIN {
      AllBlocksOwned(c, m.records, j);
      var i :| 0 <= i < |m.records| && Owner(all[j].name) == RecordSection(m.records[i].name);
      assert IsRecordName(RecordSection(m.records[i].name));
    }
    DistinctAppend([Block(MAIN, HeaderKeys(c, m.revision))], all);
  }

  // ---------------------------------------------------------------------------------------
  // Reading back
  // ---------------------------------------------------------------------------------------

  /** The ladder's sections are there, with a gap after the last. */
  predicate LadderHeld(c: Codec, s: Store, section: string, ladder: seq<Spec>)
  {
    && |ladder| < |s.order|
    && (forall i :: 0 <= i < |ladder| ==> HasMode(s, RungSection(section, i)))
    && (forall i :: 0 <= i < |ladder| && RungSection(section, i) in s.sections ==>
          c.spec(s.sections[RungSection(section, i)]) == Some(ladder[i]))
    && !HasMode(s, RungSection(section, |ladder|))
  }

  lemma {:induction false} LadderReads(c: Codec, s: Store, section: string, ladder: seq<Spec>, i: nat)
    requires LadderHeld(c, s, section, ladder) && i <= |ladder|
    ensures Ladder(c, s, section, i) == Some(ladder[i..])
    decreases |ladder| - i
  {
    if i < |ladder| {
      assert HasMode(s, RungSection(section, i));
      LadderReads(c, s, section, ladder, i + 1);
      assert ladder[i..] == [ladder[i]] + ladder[i + 1..];
    }
  }

  /** In a store of blocks, a record's blocks are there and no other section belongs to it. */
  predicate Alone(c: Codec, bs: seq<Block>, r: Record)
  {
    && (forall k :: 0 <= k < |RecordBlocks(c, r)| ==> RecordBlocks(c, r)[k] in bs)
    && (forall i :: 0 <= i < |bs| && Owner(bs[i].name) == RecordSection(r.name) ==> bs[i] in RecordBlocks(c, r))
  }

  lemma HeldName(s: Store, bs: seq<Block>, name: string)
    requires Holds(s, bs) && name in s.sections
    ensures exists i :: 0 <= i < |bs| && bs[i].name == name
  {
    var i :| 0 <= i < |s.order| && s.order[i] == name;
    assert bs[i].name == name;
  }

  lemma RungHeld(c: Codec, s: Store, bs: seq<Block>, r: Record, i: nat)
    requires Holds(s, bs) && Alone(c, bs, r) && Acceptable(c, r) && i < |r.ladder|
    ensures var name := RungSection(RecordSection(r.name), i);
            HasMode(s, name) && c.spec(s.sections[name]) == Some(LadderAgain(c, r.ladder)[i])
  {
    var b := RecordBlocks(c, r)[i + 1];
    assert b == RungBlock(c, RecordSection(r.name), r.ladder, i);
    assert b in bs;
    assert SpecWritable(c, r.ladder[i]);
  }

  /** A section of the store that belongs to the record is the record's own or one of its rungs. */
  lemma OwnedIsBlock(c: Codec, s: Store, bs: seq<Block>, r: Record, name: string) returns (k: nat)
    requires Holds(s, bs) && Alone(c, bs, r) && Acceptable(c, r) && name in s.sections
             && Owner(name) == RecordSection(r.name)
    ensures k <= |r.ladder| && RecordBlocks(c, r)[k].name == name
  {
    HeldName(s, bs, name);
    var i :| 0 <= i < |bs| && bs[i].name == name;
    assert bs[i] in RecordBlocks(c, r);
    k :| 0 <= k < |RecordBlocks(c, r)| && RecordBlocks(c, r)[k] == bs[i];
  }

  lemma NoRungPastTheEnd(c: Codec, s: Store, bs: seq<Block>, r: Record, name: string)
    requires Holds(s, bs) && Alone(c, bs, r) && Acceptable(c, r) && name in s.sections
    ensures !Stray(name, RecordSection(r.name), |r.ladder|)
  {
    if Owner(name) == RecordSection(r.name) {
      var k := OwnedIsBlock(c, s, bs, r, name);
      BlockName(c, r, k);
    }
  }

  lemma RecordLadderReads(c: Codec, s: Store, bs: seq<Block>, r: Record)
    requires Holds(s, bs) && Alone(c, bs, r) && Acceptable(c, r) && |r.ladder| < |bs|
    ensures Ladder(c, s, RecordSection(r.name), 0) == Some(LadderAgain(c, r.ladder))
  {
    var section := RecordSection(r.name);
    forall i | 0 <= i < |r.ladder|
      ensures HasMode(s, RungSection(section, i))
           && c.spec(s.sections[RungSection(section, i)]) == Some(LadderAgain(c, r.ladder)[i])
    {
      RungHeld(c, s, bs, r, i);
    }
    var next := RungSection(section, |r.ladder|);
    RungSectionParses(section, |r.ladder|);
    if next in s.sections {
      NoRungPastTheEnd(c, s, bs, r, next);
    }
    LadderReads(c, s, section, LadderAgain(c, r.ladder), 0);
    assert LadderAgain(c, r.ladder)[0..] == LadderAgain(c, r.ladder);
  }

  lemma RecordAtIs(c: Codec, s: Store, name: string, fields: Record, ladder: seq<Spec>)
    requires name != "" && RecordSection(name) in s.sections
    requires c.record(name, s.sections[RecordSection(name)]) == Some(fields)
    requires Ladder(c, s, RecordSection(name), 0) == Some(ladder)
    requires !AnyStray(s, RecordSection(name), |ladder|)
    ensures RecordAt(c, s, RecordSection(name)) == Some(fields.(ladder := ladder))
  {
    assert RecordSection(name)[|PREFIX|..] == name;
  }

  lemma NoStrays(c: Codec, s: Store, bs: seq<Block>, r: Record)
    requires Holds(s, bs) && Alone(c, bs, r) && Acceptable(c, r)
    ensures !AnyStray(s, RecordSection(r.name), |r.ladder|)
  {
    forall name | name in s.order ensures !Stray(name, RecordSection(r.name), |r.ladder|) {
      assert name in s.sections;
      NoRungPastTheEnd(c, s, bs, r, name);
    }
  }

  lemma OwnSectionHeld(c: Codec, s: Store, bs: seq<Block>, r: Record)
    requires Holds(s, bs) && Alone(c, bs, r) && Acceptable(c, r)
    ensures RecordSection(r.name) in s.sections
    ensures s.sections[RecordSection(r.name)] == c.recordKeys(r)
  {
    assert RecordBlocks(c, r)[0] == Block(RecordSection(r.name), c.recordKeys(r));
    assert RecordBlocks(c, r)[0] in bs;
  }

  /** Each record reads back from the store. */
  lemma RecordAtReads(c: Codec, s: Store, bs: seq<Block>, r: Record)
    requires Holds(s, bs) && Alone(c, bs, r) && Acceptable(c, r) && |r.ladder| < |bs|
    ensures RecordSection(r.name) in s.sections
    ensures RecordAt(c, s, RecordSection(r.name)) == Some(Again(c, r))
  {
    OwnSectionHeld(c, s, bs, r);
    RecordLadderReads(c, s, bs, r);
    NoStrays(c, s, bs, r);
    RecordAtIs(c, s, r.name, c.record(r.name, c.recordKeys(r)).value, LadderAgain(c, r.ladder));
  }

  predicate GoodRecords(c: Codec, rs: seq<Record>)
  {
    DistinctRecords(rs) && forall i :: 0 <= i < |rs| ==> Acceptable(c, rs[i])
  }

  lemma {:induction false} BlocksPresent(c: Codec, rs: seq<Record>, j: nat, k: nat)
    requires j < |rs| && k < |RecordBlocks(c, rs[j])|
    ensures RecordBlocks(c, rs[j])[k] in AllBlocks(c, rs) && |RecordBlocks(c, rs[j])| <= |AllBlocks(c, rs)|
  {
    var n := |rs| - 1;
    if j < n {
      assert rs[..n][j] == rs[j];
      BlocksPresent(c, rs[..n], j, k);
    }
  }

  lemma LastRecordsBlock(c: Codec, rs: seq<Record>, j: nat, k: nat)
    requires GoodRecords(c, rs) && j < |rs| && k < |RecordBlocks(c, rs[|rs| - 1])|
    requires Owner(RecordBlocks(c, rs[|rs| - 1])[k].name) == RecordSection(rs[j].name)
    ensures j == |rs| - 1
  {
    var n := |rs| - 1;
    assert Acceptable(c, rs[n]);
    BlockName(c, rs[n], k);
    RecordSectionsDiffer(rs[n].name, rs[j].name);
  }

  lemma EarlierBlock(c: Codec, rs: seq<Record>, i: nat)
    requires GoodRecords(c, rs) && rs != [] && i < |AllBlocks(c, rs[..|rs| - 1])|
    ensures Owner(AllBlocks(c, rs[..|rs| - 1])[i].name) != RecordSection(rs[|rs| - 1].name)
  {
    var n := |rs| - 1;
    forall k | 0 <= k < n ensures GoodName(rs[..n][k].name) && |rs[..n][k].ladder| < TWO_64 {
      assert Acceptable(c, rs[k]);
    }
    AllBlocksOwned(c, rs[..n], i);
    var name := AllBlocks(c, rs[..n])[i].name;
    var k :| 0 <= k < n && Owner(name) == RecordSection(rs[..n][k].name);
    if Owner(name) == RecordSection(rs[n].name) {
      RecordSectionsDiffer(rs[..n][k].name, rs[n].name);
    }
  }

  lemma {:induction false} OwnedBlocksAreMine(c: Codec, rs: seq<Record>, j: nat, i: nat)
    requires GoodRecords(c, rs) && j < |rs| && i < |AllBlocks(c, rs)|
    requires Owner(AllBlocks(c, rs)[i].name) == RecordSection(rs[j].name)
    ensures AllBlocks(c, rs)[i] in RecordBlocks(c, rs[j])
  {
    var n := |rs| - 1;
    var before := AllBlocks(c, rs[..n]);
    if i >= |before| {
      LastRecordsBlock(c, rs, j, i - |before|);
    } else {
      EarlierBlock(c, rs, i);
      assert rs[..n][j] == rs[j];
      OwnedBlocksAreMine(c, rs[..n], j, i);
    }
  }

  lemma RecordStandsAlone(c: Codec, m: Manifest, j: nat)
    requires GoodRecords(c, m.records) && j < |m.records|
    ensures Alone(c, Blocks(c, m), m.records[j]) && |m.records[j].ladder| < |Blocks(c, m)|
  {
    var r, all := m.records[j], AllBlocks(c, m.records);
    forall k | 0 <= k < |RecordBlocks(c, r)| ensures RecordBlocks(c, r)[k] in Blocks(c, m) {
      BlocksPresent(c, m.records, j, k);
    }
    BlocksPresent(c, m.records, j, 0);
    MainIsApart();
    assert MAIN[0] != RecordSection(r.name)[0];
    forall i | 0 <= i < |Blocks(c, m)| && Owner(Blocks(c, m)[i].name) == RecordSection(r.name)
      ensures Blocks(c, m)[i] in RecordBlocks(c, r)
    {
      assert i > 0;
      OwnedBlocksAreMine(c, m.records, j, i - 1);
    }
  }

  // All records in order.

  /** These sections are in the store and read as these records. */
  predicate ReadsAs(c: Codec, s: Store, names: seq<string>, rs: seq<Record>)
  {
    (forall i :: 0 <= i < |names| ==> names[i] in s.sections) && RecordsIn(c, s, names) == Some(rs)
  }

  lemma SkipOne(c: Codec, s: Store, names: seq<string>, rs: seq<Record>, name: string)
    requires ReadsAs(c, s, names, rs) && name in s.sections && !NamesRecord(name)
    ensures ReadsAs(c, s, names + [name], rs)
  {
    assert (names + [name])[..|names|] == names;
  }

  lemma {:induction false} SkipOthers(c: Codec, s: Store, names: seq<string>, rs: seq<Record>, extra: seq<string>)
    requires ReadsAs(c, s, names, rs)
    requires forall i :: 0 <= i < |extra| ==> extra[i] in s.sections && !NamesRecord(extra[i])
    ensures ReadsAs(c, s, names + extra, rs)
  {
    if extra == [] {
      assert names + extra == names;
    } else {
      var k := |extra| - 1;
      SkipOthers(c, s, names, rs, extra[..k]);
      SkipOne(c, s, names + extra[..k], rs, extra[k]);
      assert names + extra == names + extra[..k] + [extra[k]];
    }
  }

  lemma OneMoreRecord(c: Codec, s: Store, names: seq<string>, rs: seq<Record>, name: string, r: Record)
    requires ReadsAs(c, s, names, rs)
    requires name in s.sections && NamesRecord(name) && RecordAt(c, s, name) == Some(r)
    ensures ReadsAs(c, s, names + [name], rs + [r])
  {
    assert (names + [name])[..|names|] == names;
  }

  lemma RungNamesFollow(c: Codec, r: Record)
    requires Acceptable(c, r)
    ensures var names := NamesOf(RecordBlocks(c, r));
            && names[0] == RecordSection(r.name) && NamesRecord(names[0])
            && forall i :: 0 < i < |names| ==> !NamesRecord(names[i])
  {
    var names := NamesOf(RecordBlocks(c, r));
    BlockName(c, r, 0);
    forall i | 0 < i < |names| ensures !NamesRecord(names[i]) {
      BlockName(c, r, i);
    }
  }

  lemma RungNamesHeld(c: Codec, s: Store, bs: seq<Block>, r: Record)
    requires Holds(s, bs) && Alone(c, bs, r)
    ensures var own := NamesOf(RecordBlocks(c, r));
            forall i :: 0 <= i < |own| ==> own[i] in s.sections
  {
    var own := NamesOf(RecordBlocks(c, r));
    forall i | 0 <= i < |own| ensures own[i] in s.sections {
      assert RecordBlocks(c, r)[i] in bs;
    }
  }

  lemma AppendRecord(c: Codec, s: Store, names: seq<string>, rs: seq<Record>, own: seq<string>, r: Record)
    requires ReadsAs(c, s, names, rs) && own != []
    requires forall i :: 0 <= i < |own| ==> own[i] in s.sections
    requires NamesRecord(own[0]) && RecordAt(c, s, own[0]) == Some(r)
    requires forall i :: 0 < i < |own| ==> !NamesRecord(own[i])
    ensures ReadsAs(c, s, names + own, rs + [r])
  {
    OneMoreRecord(c, s, names, rs, own[0], r);
    SkipOthers(c, s, names + [own[0]], rs + [r], own[1..]);
    assert names + own == names + [own[0]] + own[1..];
  }

  lemma RecordBlocksRead(c: Codec, s: Store, bs: seq<Block>, names: seq<string>, rs: seq<Record>, r: Record)
    requires Holds(s, bs) && Alone(c, bs, r) && Acceptable(c, r) && |r.ladder| < |bs|
    requires ReadsAs(c, s, names, rs)
    ensures ReadsAs(c, s, names + NamesOf(RecordBlocks(c, r)), rs + [Again(c, r)])
  {
    RungNamesFollow(c, r);
    RungNamesHeld(c, s, bs, r);
    RecordAtReads(c, s, bs, r);
    AppendRecord(c, s, names, rs, NamesOf(RecordBlocks(c, r)), Again(c, r));
  }

  function AllAgain(c: Codec, rs: seq<Record>): (r: seq<Record>)
    requires forall i :: 0 <= i < |rs| ==> Acceptable(c, rs[i])
    ensures |r| == |rs| && forall i :: 0 <= i < |rs| ==> r[i] == Again(c, rs[i])
  {
    seq(|rs|, i requires 0 <= i < |rs| && Acceptable(c, rs[i]) => Again(c, rs[i]))
  }

  /** The section names up to the n-th record. */
  function NamesUpTo(c: Codec, m: Manifest, n: nat): (names: seq<string>)
    requires n <= |m.records|
  {
    [MAIN] + NamesOf(AllBlocks(c, m.records[..n]))
  }

  lemma NamesUpToNext(c: Codec, m: Manifest, n: nat)
    requires n < |m.records|
    ensures NamesUpTo(c, m, n + 1) == NamesUpTo(c, m, n) + NamesOf(RecordBlocks(c, m.records[n]))
  {
    assert m.records[..n + 1][..n] == m.records[..n];
    assert NamesOf(AllBlocks(c, m.records[..n]) + RecordBlocks(c, m.records[n])) ==
           NamesOf(AllBlocks(c, m.records[..n])) + NamesOf(RecordBlocks(c, m.records[n]));
  }

  /** The sections up to the n-th record read as the first n records. */
  predicate ReadUpTo(c: Codec, s: Store, m: Manifest, n: nat)
    requires n <= |m.records| && GoodRecords(c, m.records)
  {
    ReadsAs(c, s, NamesUpTo(c, m, n), AllAgain(c, m.records[..n]))
  }

  lemma AgainNext(c: Codec, rs: seq<Record>, n: nat)
    requires n < |rs| && forall i :: 0 <= i < |rs| ==> Acceptable(c, rs[i])
    ensures AllAgain(c, rs[..n + 1]) == AllAgain(c, rs[..n]) + [Again(c, rs[n])]
  {
  }

  lemma NothingRead(c: Codec, s: Store, m: Manifest)
    requires GoodRecords(c, m.records) && Holds(s, Blocks(c, m))
    ensures ReadUpTo(c, s, m, 0)
  {
    assert AllAgain(c, m.records[..0]) == [];
    MainHeld(c, s, m);
    MainIsApart();
    SkipOne(c, s, [], [], MAIN);
    assert NamesUpTo(c, m, 0) == [] + [MAIN];
  }

  lemma OneMoreRead(c: Codec, s: Store, m: Manifest, n: nat)
    requires n < |m.records| && GoodRecords(c, m.records) && Holds(s, Blocks(c, m)) && ReadUpTo(c, s, m, n)
    ensures ReadUpTo(c, s, m, n + 1)
  {
    NamesUpToNext(c, m, n);
    AgainNext(c, m.records, n);
    RecordStandsAlone(c, m, n);
    RecordBlocksRead(c, s, Blocks(c, m), NamesUpTo(c, m, n), AllAgain(c, m.records[..n]), m.records[n]);
  }

  lemma {:induction false} RecordsUpToRead(c: Codec, s: Store, m: Manifest, n: nat)
    requires n <= |m.records| && GoodRecords(c, m.records) && Holds(s, Blocks(c, m))
    ensures ReadUpTo(c, s, m, n)
  {
    if n == 0 {
      NothingRead(c, s, m);
    } else {
      RecordsUpToRead(c, s, m, n - 1);
      OneMoreRead(c, s, m, n - 1);
    }
  }

  lemma MainHeld(c: Codec, s: Store, m: Manifest)
    requires Holds(s, Blocks(c, m))
    ensures MAIN in s.sections && s.sections[MAIN] == HeaderKeys(c, m.revision)
  {
    assert Blocks(c, m)[0] == Block(MAIN, HeaderKeys(c, m.revision));
  }

  lemma HeaderReads(c: Codec, s: Store, m: Manifest)
    requires Holds(s, Blocks(c, m))
    requires c.number(KSchema, c.numberKey(KSchema, SCHEMA_VERSION)) == Some(SCHEMA_VERSION)
    requires c.number(KRevision, c.numberKey(KRevision, m.revision)) == Some(m.revision)
    ensures HasHeader(c, s) && RevisionOf(c, s) == Some(m.revision)
  {
    MainHeld(c, s, m);
  }

  lemma RungsParented(c: Codec, s: Store, m: Manifest, name: string)
    requires GoodRecords(c, m.records) && Holds(s, Blocks(c, m)) && name in s.order
    ensures Parented(s, name)
  {
    if IsRecordName(name) && ParseRung(name).Some? {
      MainIsApart();
      assert name in s.sections;
      HeldName(s, Blocks(c, m), name);
      var i :| 0 <= i < |Blocks(c, m)| && Blocks(c, m)[i].name == name;
      assert i > 0;
      AllBlocksOwned(c, m.records, i - 1);
      var j :| 0 <= j < |m.records| && Owner(name) == RecordSection(m.records[j].name);
      BlocksPresent(c, m.records, j, 0);
      BlockName(c, m.records[j], 0);
      assert RecordBlocks(c, m.records[j])[0] in Blocks(c, m);
    }
  }

  /** A codec that reads back the two header numbers. */
  predicate HeaderCodec(c: Codec, revision: u32)
  {
    && c.number(KSchema, c.numberKey(KSchema, SCHEMA_VERSION)) == Some(SCHEMA_VERSION)
    && c.number(KRevision, c.numberKey(KRevision, revision)) == Some(revision)
  }

  lemma SerializedHolds(c: Codec, m: Manifest)
    requires GoodRecords(c, m.records)
    ensures Holds(Serialized(c, m), Blocks(c, m)) && WellFormed(Serialized(c, m))
  {
    BlocksDistinct(c, m);
    PutAllHolds(Blocks(c, m));
    HoldsWellFormed(Serialized(c, m), Blocks(c, m));
  }

  lemma OrderIsNames(c: Codec, s: Store, m: Manifest)
    requires Holds(s, Blocks(c, m))
    ensures NamesUpTo(c, m, |m.records|) == s.order
  {
    assert m.records[..|m.records|] == m.records;
  }

  lemma AllRecordsRead(c: Codec, s: Store, m: Manifest)
    requires GoodRecords(c, m.records) && Holds(s, Blocks(c, m))
    ensures ReadsAs(c, s, s.order, AllAgain(c, m.records))
  {
    RecordsUpToRead(c, s, m, |m.records|);
    assert m.records[..|m.records|] == m.records;
    OrderIsNames(c, s, m);
  }

  /** A serialised manifest reads back with the same revision and each record, in order, as its sections read. */
  lemma StoreRoundTrip(c: Codec, m: Manifest)
    requires GoodRecords(c, m.records) && HeaderCodec(c, m.revision)
    ensures WellFormed(Serialized(c, m))
    ensures ParsedStore(c, Serialized(c, m)) == Parsed(Manifest(m.revision, AllAgain(c, m.records)))
  {
    var s := Serialized(c, m);
    SerializedHolds(c, m);
    HeaderReads(c, s, m);
    forall name | name in s.order ensures Parented(s, name) {
      RungsParented(c, s, m, name);
    }
    AllRecordsRead(c, s, m);
  }

  // ---------------------------------------------------------------------------------------
  // What any store can give back
  // ---------------------------------------------------------------------------------------

  lemma PutWellFormed(s: Store, b: Block)
    requires WellFormed(s)
    ensures WellFormed(Put(s, b))
  {
    var r := Put(s, b);
    assert forall n :: n in r.sections ==> n == b.name || n in s.order;
    assert b.name in r.order;
  }

  lemma {:induction false} PutAllWellFormed(bs: seq<Block>)
    ensures WellFormed(PutAll(Empty, bs))
  {
    if bs != [] {
      PutAllWellFormed(bs[..|bs| - 1]);
      PutWellFormed(PutAll(Empty, bs[..|bs| - 1]), bs[|bs| - 1]);
    }
  }

  /** A record is read under the label its section gives it. */
  ghost predicate KeepsNames(c: Codec)
  {
    forall name, keys :: c.record(name, keys).Some? ==> c.record(name, keys).value.name == name
  }

  lemma RecordAtName(c: Codec, s: Store, section: string)
    requires KeepsNames(c) && NamesRecord(section) && section in s.sections && RecordAt(c, s, section).Some?
    ensures var name := RecordAt(c, s, section).value.name;
            RecordSection(name) == section && GoodName(name)
  {
    assert PREFIX + section[|PREFIX|..] == section;
  }

  /** Each record comes from the section of its label. */
  predicate NamedIn(rs: seq<Record>, names: seq<string>)
  {
    forall i :: 0 <= i < |rs| ==> GoodName(rs[i].name) && RecordSection(rs[i].name) in names
  }

  /** From distinct sections only records with distinct usable labels can be read. */
  lemma {:induction false} ReadRecordsAreNamed(c: Codec, s: Store, names: seq<string>)
    requires KeepsNames(c) && forall i :: 0 <= i < |names| ==> names[i] in s.sections
    requires forall i, j :: 0 <= i < j < |names| ==> names[i] != names[j]
    requires RecordsIn(c, s, names).Some?
    ensures NamedIn(RecordsIn(c, s, names).value, names) && DistinctRecords(RecordsIn(c, s, names).value)
    decreases |names|
  {
    if names != [] {
      var n := |names| - 1;
      ReadRecordsAreNamed(c, s, names[..n]);
      assert names[n] !in names[..n];
      if NamesRecord(names[n]) {
        RecordAtName(c, s, names[n]);
      }
    }
  }

  // Two records in one section.

  lemma PutTwice(s: Store, b: Block)
    ensures Put(Put(s, b), b) == Put(s, b)
  {
    assert b.keys + b.keys == b.keys;
    if b.name in s.sections {
      assert s.sections[b.name] + b.keys + b.keys == s.sections[b.name] + b.keys;
    }
  }

  lemma BlocksOfTwo(c: Codec, revision: u32, r: Record)
    requires r.ladder == []
    ensures var main, own := Block(MAIN, HeaderKeys(c, revision)), Block(RecordSection(r.name), c.recordKeys(r));
            && Blocks(c, Manifest(revision, [r])) == [main, own]
            && Blocks(c, Manifest(revision, [r, r])) == [main, own, own]
  {
    var own := Block(RecordSection(r.name), c.recordKeys(r));
    assert RecordBlocks(c, r) == [own];
    assert [r][..0] == [] && [r, r][..1] == [r];
    assert AllBlocks(c, []) == [] && AllBlocks(c, [r]) == [own];
    assert AllBlocks(c, [r, r]) == AllBlocks(c, [r, r][..1]) + RecordBlocks(c, r) == [own] + [own];
  }

  lemma SameRecordTwice(c: Codec, revision: u32, r: Record)
    requires r.ladder == []
    ensures Serialized(c, Manifest(revision, [r, r])) == Serialized(c, Manifest(revision, [r]))
  {
    var main, own := Block(MAIN, HeaderKeys(c, revision)), Block(RecordSection(r.name), c.recordKeys(r));
    BlocksOfTwo(c, revision, r);
    assert [main, own, own][..2] == [main, own] && [main, own][..1] == [main];
    PutTwice(PutAll(Empty, [main]), own);
  }

  // ---------------------------------------------------------------------------------------
  // What an accepted store is
  // ---------------------------------------------------------------------------------------

  /** The sections that are records, in order. */
  function RecordNames(names: seq<string>): (r: seq<string>)
  {
    if names == [] then []
    else
      var n := |names| - 1;
      RecordNames(names[..n]) + if "sig." <= names[n] && ParseRung(names[n]).None? then [names[n]] else []
  }

  /** The records of these sections, one by one. */
  predicate AreRecords(c: Codec, s: Store, names: seq<string>, rs: seq<Record>)
  {
    && |names| == |rs|
    && forall i :: 0 <= i < |names| ==>
         IsRecordName(names[i]) && names[i] in s.sections && RecordAt(c, s, names[i]) == Some(rs[i])
  }

  lemma {:induction false} RecordsInMeans(c: Codec, s: Store, names: seq<string>)
    requires forall i :: 0 <= i < |names| ==> names[i] in s.sections
    ensures RecordsIn(c, s, names).Some? ==> AreRecords(c, s, RecordNames(names), RecordsIn(c, s, names).value)
    ensures RecordsIn(c, s, names).None? ==>
              exists i :: 0 <= i < |RecordNames(names)| && IsRecordName(RecordNames(names)[i])
                          && RecordNames(names)[i] in s.sections && RecordAt(c, s, RecordNames(names)[i]).None?
  {
    if names != [] {
      var n := |names| - 1;
      var before := RecordNames(names[..n]);
      RecordsInMeans(c, s, names[..n]);
      forall i | 0 <= i < |before| ensures RecordNames(names)[i] == before[i] {
      }
      if NamesRecord(names[n]) {
        assert RecordNames(names)[|before|] == names[n];
      }
    }
  }

  lemma RecordsInIff(c: Codec, s: Store, names: seq<string>, rs: seq<Record>)
    requires forall i :: 0 <= i < |names| ==> names[i] in s.sections
    ensures RecordsIn(c, s, names) == Some(rs) <==> AreRecords(c, s, RecordNames(names), rs)
  {
    RecordsInMeans(c, s, names);
    if AreRecords(c, s, RecordNames(names), rs) && RecordsIn(c, s, names).Some? {
      assert rs == RecordsIn(c, s, names).value;
    }
  }

  /** The header names schema 1. */
  predicate Headed(c: Codec, s: Store)
  {
    && "manifest" in s.sections && KSchema in s.sections["manifest"]
    && c.number(KSchema, s.sections["manifest"][KSchema]) == Some(1)
  }

  /** Without a revision it is 0; with one it is what that reads as. */
  predicate Revised(c: Codec, s: Store, revision: u32)
    requires Headed(c, s)
  {
    if KRevision in s.sections["manifest"]
    then c.number(KRevision, s.sections["manifest"][KRevision]) == Some(revision) else revision == 0
  }

  /** No rung without its parent section. */
  predicate NoOrphans(s: Store)
  {
    forall name :: name in s.order && "sig." <= name && ParseRung(name).Some? ==>
      4 < |ParseRung(name).value.parent| && ParseRung(name).value.parent in s.sections
  }

  /** A store is accepted exactly when its header, its rung sections and all its records are in order. */
  lemma AcceptedIff(c: Codec, s: Store, m: Manifest)
    requires WellFormed(s)
    ensures ParsedStore(c, s) == MissingHeader <==> !Headed(c, s)
    ensures ParsedStore(c, s) == Parsed(m) <==>
            && Headed(c, s) && Revised(c, s, m.revision) && NoOrphans(s)
            && AreRecords(c, s, RecordNames(s.order), m.records)
  {
    RecordsInIff(c, s, s.order, m.records);
    assert NoOrphans(s) <==> forall name :: name in s.order ==> Parented(s, name);
  }

  /** The rungs of a section from number `i` on: each with a mode and readable, and then a gap. */
  predicate AreRungs(c: Codec, s: Store, section: string, i: nat, ladder: seq<Spec>)
  {
    && !HasMode(s, RungSection(section, i + |ladder|))
    && forall k :: 0 <= k < |ladder| ==> RungIs(c, s, section, i + k, ladder[k])
  }

  predicate RungIs(c: Codec, s: Store, section: string, i: nat, x: Spec)
  {
    HasMode(s, RungSection(section, i)) && c.spec(s.sections[RungSection(section, i)]) == Some(x)
  }

  lemma SetOf(names: seq<string>) returns (all: set<string>)
    ensures (forall name :: name in all <==> name in names) && |all| <= |names|
  {
    all := {};
    if names != [] {
      var n := |names| - 1;
      all := SetOf(names[..n]);
      all := all + {names[n]};
    }
  }

  lemma {:induction false} RungNames(section: string, n: nat) returns (all: set<string>)
    ensures |all| == n && forall name :: name in all <==> exists i :: 0 <= i < n && name == RungSection(section, i)
  {
    all := {};
    if n > 0 {
      var before := RungNames(section, n - 1);
      var last := RungSection(section, n - 1);
      forall i | 0 <= i < n - 1 ensures last != RungSection(section, i) {
        if last == RungSection(section, i) {
          SiblingsDiffer(section, n - 1, i);
        }
      }
      all := before + {last};
    }
  }

  lemma NotItsOwnRung(section: string, i: nat)
    ensures section != RungSection(section, i)
  {
    assert |section| < |RungSection(section, i)|;
  }

  /** A store has fewer rungs of a section than it has sections. */
  lemma FewRungs(s: Store, section: string, n: nat)
    requires WellFormed(s) && section in s.sections && forall i :: 0 <= i < n ==> RungSection(section, i) in s.sections
    ensures n < |s.order|
  {
    var all := SetOf(s.order);
    var rungs := RungNames(section, n);
    forall i | 0 <= i < n ensures section != RungSection(section, i) {
      NotItsOwnRung(section, i);
    }
    assert rungs + {section} <= all;
    Subset(rungs + {section}, all);
  }

  lemma Subset(x: set<string>, y: set<string>)
    requires x <= y
    ensures |x| <= |y|
  {
    assert y == x + (y - x);
  }

  lemma {:induction false} LadderStops(c: Codec, s: Store, section: string, i: nat)
    requires WellFormed(s) && section in s.sections
    requires i <= |s.order| && forall j :: 0 <= j < i ==> RungSection(section, j) in s.sections
    ensures Ladder(c, s, section, i).Some? ==> AreRungs(c, s, section, i, Ladder(c, s, section, i).value)
    decreases |s.order| - i
  {
    FewRungs(s, section, i);
    if HasMode(s, RungSection(section, i)) {
      LadderStops(c, s, section, i + 1);
      var l, rest := Ladder(c, s, section, i), Ladder(c, s, section, i + 1);
      if l.Some? {
        forall k | 0 <= k < |l.value| ensures RungIs(c, s, section, i + k, l.value[k]) {
          if k > 0 {
            assert RungIs(c, s, section, i + 1 + (k - 1), rest.value[k - 1]);
          }
        }
      }
    }
  }

  /** The ladder of a record's section is all its rungs up to the first gap. */
  lemma {:induction false} RungsAreLadder(c: Codec, s: Store, section: string, i: nat, ladder: seq<Spec>)
    requires WellFormed(s) && section in s.sections && AreRungs(c, s, section, i, ladder)
    requires forall j :: 0 <= j < i ==> RungSection(section, j) in s.sections
    ensures Ladder(c, s, section, i) == Some(ladder)
    decreases |ladder|
  {
    FewRungs(s, section, i);
    if ladder != [] {
      assert RungIs(c, s, section, i + 0, ladder[0]);
      forall k | 0 <= k < |ladder[1..]| ensures RungIs(c, s, section, i + 1 + k, ladder[1..][k]) {
        assert RungIs(c, s, section, i + (k + 1), ladder[k + 1]);
      }
      RungsAreLadder(c, s, section, i + 1, ladder[1..]);
      assert ladder == [ladder[0]] + ladder[1..];
    }
  }

  /** A record is read from its section exactly when it has a label, fields, and its rungs with none past the gap. */
  lemma RecordAtIff(c: Codec, s: Store, section: string, r: Record)
    requires WellFormed(s) && "sig." <= section && section in s.sections
    ensures RecordAt(c, s, section) == Some(r) <==>
            && |section| > 4
            && c.record(section[4..], s.sections[section]).Some?
            && r == c.record(section[4..], s.sections[section]).value.(ladder := r.ladder)
            && AreRungs(c, s, section, 0, r.ladder)
            && forall name :: name in s.order && ParseRung(name).Some? && ParseRung(name).value.parent == section ==>
                 ParseRung(name).value.index < |r.ladder|
  {
    LadderStops(c, s, section, 0);
    if AreRungs(c, s, section, 0, r.ladder) {
      RungsAreLadder(c, s, section, 0, r.ladder);
    }
    assert AnyStray(s, section, |r.ladder|) <==>
           exists name :: name in s.order && Stray(name, section, |r.ladder|);
  }

  /** The section feeds the ladder of a record. */
  ghost predicate Feeds(c: Codec, s: Store, name: string)
  {
    exists section, i: nat :: && section in s.order && NamesRecord(section) && section in s.sections
                              && name == RungSection(section, i)
                              && RecordAt(c, s, section).Some? && i < |RecordAt(c, s, section).value.ladder|
  }

  lemma ParentIsPrefix(name: string)
    requires IsRecordName(name) && ParseRung(name).Some? && |ParseRung(name).value.parent| > |PREFIX|
    ensures IsRecordName(ParseRung(name).value.parent)
  {
    var parent := ParseRung(name).value.parent;
    assert parent == name[..|parent|];
    assert parent[..|PREFIX|] == name[..|PREFIX|];
  }

  lemma ShortLadder(c: Codec, s: Store, section: string)
    requires WellFormed(s) && NamesRecord(section) && section in s.sections && RecordAt(c, s, section).Some?
    ensures |RecordAt(c, s, section).value.ladder| < |s.order|
  {
    var r := RecordAt(c, s, section).value;
    RecordAtIff(c, s, section, r);
    forall i | 0 <= i < |r.ladder| ensures RungSection(section, i) in s.sections {
      assert RungIs(c, s, section, 0 + i, r.ladder[i]);
    }
    FewRungs(s, section, |r.ladder|);
  }

  lemma {:induction false} RecordIsRead(c: Codec, s: Store, names: seq<string>, rs: seq<Record>, section: string)
    requires forall i :: 0 <= i < |names| ==> names[i] in s.sections
    requires section in names && NamesRecord(section) && AreRecords(c, s, RecordNames(names), rs)
    ensures RecordAt(c, s, section).Some?
  {
    RecordNamesHold(names, section);
    var i :| 0 <= i < |RecordNames(names)| && RecordNames(names)[i] == section;
    assert RecordAt(c, s, RecordNames(names)[i]) == Some(rs[i]);
  }

  lemma {:induction false} RecordNamesHold(names: seq<string>, name: string)
    requires name in names && NamesRecord(name)
    ensures name in RecordNames(names)
  {
    var n := |names| - 1;
    if name != names[n] {
      RecordNamesHold(names[..n], name);
    }
  }

  lemma FedIsPlain(c: Codec, s: Store, name: string)
    requires WellFormed(s) && |s.order| < TWO_64 && Feeds(c, s, name)
    ensures ParseRung(name).Some?
    ensures var rung := ParseRung(name).value;
            name == RungSection(rung.parent, rung.index) && ParseRung(rung.parent).None?
  {
    var section, i: nat :| && section in s.order && NamesRecord(section) && section in s.sections
                           && name == RungSection(section, i)
                           && RecordAt(c, s, section).Some? && i < |RecordAt(c, s, section).value.ladder|;
    ShortLadder(c, s, section);
    RungSectionParses(section, i);
  }

  /**
   A rung section of an accepted store is read into a record exactly when its index is written without leading zeros
   and its parent is not a rung section itself. Any other is left out without an error.
   */
  lemma RungIsReadIff(c: Codec, s: Store, name: string)
    requires WellFormed(s) && |s.order| < TWO_64 && ParsedStore(c, s).Parsed?
    requires name in s.order && IsRecordName(name) && ParseRung(name).Some?
    ensures var rung := ParseRung(name).value;
            Feeds(c, s, name) <==> name == RungSection(rung.parent, rung.index) && ParseRung(rung.parent).None?
  {
    var rung := ParseRung(name).value;
    if Feeds(c, s, name) {
      FedIsPlain(c, s, name);
    }
    if name == RungSection(rung.parent, rung.index) && ParseRung(rung.parent).None? {
      AcceptedIff(c, s, ParsedStore(c, s).manifest);
      ParentIsPrefix(name);
      RecordIsRead(c, s, s.order, ParsedStore(c, s).manifest.records, rung.parent);
      assert !Stray(name, rung.parent, |RecordAt(c, s, rung.parent).value.ladder|);
    }
  }

  lemma RecordNamesNext(names: seq<string>, last: string)
    ensures RecordNames(names + [last]) == RecordNames(names) + if NamesRecord(last) then [last] else []
  {
    assert (names + [last])[..|names|] == names;
  }

  lemma SecondIsRecord(a: string, b: string, c: string, d: string)
    requires !NamesRecord(a) && NamesRecord(b) && !NamesRecord(c) && !NamesRecord(d)
    ensures RecordNames([a, b, c, d]) == [b]
  {
    RecordNamesNext([], a);
    RecordNamesNext([a], b);
    RecordNamesNext([a, b], c);
    RecordNamesNext([a, b, c], d);
    assert [] + [a] == [a] && [a] + [b] == [a, b] && [a, b] + [c] == [a, b, c] && [a, b, c] + [d] == [a, b, c, d];
  }

  /** A rung of a section, and a second one whose index is the same number with a zero in front. */
  predicate TwoRungs(section: string, plain: string, padded: string)
  {
    && plain == RungSection(section, 0) && ParseRung(plain) == Some(Rung(section, 0))
    && ParseRung(padded) == Some(Rung(section, 0)) && |section| < |plain| < |padded|
    && padded != RungSection(section, 1)
  }

  lemma TwoRungsOf(section: string)
    ensures TwoRungs(section, section + INFIX + "0", section + INFIX + "00")
  {
    PaddedIndexParses(section);
  }

  /** A manifest with one record, its rung, and the padded one. */
  function Padded(header: Keys, section: string, keys: Keys, plain: string, rung: Keys, padded: string, extra: Keys)
    : (s: Store)
  {
    Store([MAIN, section, plain, padded], map[MAIN := header, section := keys, plain := rung, padded := extra])
  }

  /** The same, without the map. */
  predicate IsPadded(s: Store, header: Keys, section: string, keys: Keys, plain: string, rung: Keys, padded: string)
  {
    && s.order == [MAIN, section, plain, padded] && s.sections.Keys == {MAIN, section, plain, padded}
    && s.sections[MAIN] == header && s.sections[section] == keys && s.sections[plain] == rung
  }

  lemma PaddedIs(header: Keys, section: string, keys: Keys, plain: string, rung: Keys, padded: string, extra: Keys)
    requires IsRecordName(section) && TwoRungs(section, plain, padded)
    ensures var s := Padded(header, section, keys, plain, rung, padded, extra);
            IsPadded(s, header, section, keys, plain, rung, padded) && WellFormed(s)
  {
    MainIsApart();
    assert section != plain && section != padded && plain != padded;
    assert MAIN != section && MAIN != plain && MAIN != padded;
  }

  lemma PaddedHeader(c: Codec, s: Store, header: Keys, section: string, keys: Keys, plain: string, rung: Keys,
                     padded: string)
    requires NamesRecord(section) && |section| > |PREFIX| && TwoRungs(section, plain, padded)
    requires IsPadded(s, header, section, keys, plain, rung, padded) && KRevision !in header
    requires KSchema in header && c.number(KSchema, header[KSchema]) == Some(1)
    ensures Headed(c, s) && Revised(c, s, 0) && NoOrphans(s) && RecordNames(s.order) == [section]
  {
    MainIsApart();
    SecondIsRecord(MAIN, section, plain, padded);
  }

  lemma PaddedLadder(c: Codec, s: Store, header: Keys, section: string, keys: Keys, plain: string, rung: Keys,
                     padded: string, x: Spec)
    requires NamesRecord(section) && TwoRungs(section, plain, padded) && KMode in rung && c.spec(rung) == Some(x)
    requires IsPadded(s, header, section, keys, plain, rung, padded)
    ensures AreRungs(c, s, section, 0, [x])
  {
    assert RungIs(c, s, section, 0, x);
    MainIsApart();
    RungSectionParses(section, 1);
    assert RungSection(section, 1) !in s.sections;
  }

  lemma PaddedRecord(c: Codec, s: Store, header: Keys, section: string, keys: Keys, plain: string, rung: Keys,
                     padded: string, r: Record, x: Spec)
    requires NamesRecord(section) && |section| > |PREFIX| && TwoRungs(section, plain, padded)
    requires IsPadded(s, header, section, keys, plain, rung, padded) && WellFormed(s)
    requires c.record(section[|PREFIX|..], keys).Some? && KMode in rung && c.spec(rung) == Some(x)
    requires r == c.record(section[|PREFIX|..], keys).value.(ladder := [x])
    ensures RecordAt(c, s, section) == Some(r)
  {
    PaddedLadder(c, s, header, section, keys, plain, rung, padded, x);
    MainIsApart();
    forall name | name in s.order && ParseRung(name).Some? ensures ParseRung(name).value.index < 1 {
    }
    RecordAtIff(c, s, section, r);
  }

  /** The padded section is accepted and lost, whatever it holds. */
  lemma PaddedRungIsLost(c: Codec, header: Keys, section: string, keys: Keys, rung: Keys, extra: Keys, r: Record,
                         x: Spec)
    requires KRevision !in header && KSchema in header && c.number(KSchema, header[KSchema]) == Some(1)
    requires NamesRecord(section) && |section| > |PREFIX| && KMode in rung && c.spec(rung) == Some(x)
    requires c.record(section[|PREFIX|..], keys).Some?
    requires r == c.record(section[|PREFIX|..], keys).value.(ladder := [x])
    ensures var s := Padded(header, section, keys, section + ".rung.0", rung, section + ".rung.00", extra);
            WellFormed(s) && ParsedStore(c, s) == Parsed(Manifest(0, [r]))
  {
    var plain, padded := section + INFIX + "0", section + INFIX + "00";
    assert plain == section + ".rung.0" && padded == section + ".rung.00";
    TwoRungsOf(section);
    var s := Padded(header, section, keys, plain, rung, padded, extra);
    PaddedIs(header, section, keys, plain, rung, padded, extra);
    PaddedHeader(c, s, header, section, keys, plain, rung, padded);
    PaddedRecord(c, s, header, section, keys, plain, rung, padded, r, x);
    AcceptedIff(c, s, Manifest(0, [r]));
  }

  // ---------------------------------------------------------------------------------------
  // Records the codec cannot read
  // ---------------------------------------------------------------------------------------

  lemma {:induction false} NoneStays(c: Codec, s: Store, names: seq<string>, k: nat)
    requires k <= |names| && forall i :: 0 <= i < |names| ==> names[i] in s.sections
    requires RecordsIn(c, s, names[..k]).None?
    ensures RecordsIn(c, s, names).None?
  {
    if k == |names| {
      assert names[..k] == names;
    } else {
      var front := names[..|names| - 1];
      assert front[..k] == names[..k];
      NoneStays(c, s, front, k);
    }
  }

  lemma UnreadableRejects(c: Codec, s: Store, names: seq<string>, k: nat)
    requires k < |names| && forall i :: 0 <= i < |names| ==> names[i] in s.sections
    requires NamesRecord(names[k]) && RecordAt(c, s, names[k]).None?
    ensures RecordsIn(c, s, names).None?
  {
    assert names[..k + 1][..k] == names[..k];
    NoneStays(c, s, names, k + 1);
  }

  lemma {:induction false} LadderFails(c: Codec, s: Store, section: string, i: nat, bad: nat)
    requires i <= bad < |s.order| && forall j :: i <= j <= bad ==> HasMode(s, RungSection(section, j))
    requires RungSection(section, bad) in s.sections && c.spec(s.sections[RungSection(section, bad)]).None?
    ensures Ladder(c, s, section, i).None?
    decreases bad - i
  {
    assert HasMode(s, RungSection(section, i));
    if i < bad {
      LadderFails(c, s, section, i + 1, bad);
    }
  }

  /** Good distinct names, and rungs whose mode is written. */
  predicate Nameable(c: Codec, rs: seq<Record>)
  {
    && DistinctRecords(rs)
    && (forall i :: 0 <= i < |rs| ==> GoodName(rs[i].name) && |rs[i].ladder| < TWO_64)
    && (forall i, k :: 0 <= i < |rs| && 0 <= k < |rs[i].ladder| ==> KMode in c.specKeys(rs[i].ladder[k]))
  }

  lemma NameableHolds(c: Codec, m: Manifest)
    requires Nameable(c, m.records)
    ensures Holds(Serialized(c, m), Blocks(c, m)) && WellFormed(Serialized(c, m))
  {
    BlocksDistinct(c, m);
    PutAllHolds(Blocks(c, m));
    HoldsWellFormed(Serialized(c, m), Blocks(c, m));
  }

  lemma BlockHeld(c: Codec, s: Store, m: Manifest, j: nat, k: nat)
    requires Holds(s, Blocks(c, m)) && j < |m.records| && k < |RecordBlocks(c, m.records[j])|
    ensures var b := RecordBlocks(c, m.records[j])[k];
            b.name in s.sections && s.sections[b.name] == b.keys && |m.records[j].ladder| < |s.order|
  {
    BlocksPresent(c, m.records, j, k);
    assert RecordBlocks(c, m.records[j])[k] in Blocks(c, m);
  }

  lemma BadRungRejects(c: Codec, s: Store, m: Manifest, j: nat, bad: nat)
    requires Nameable(c, m.records) && Holds(s, Blocks(c, m)) && j < |m.records| && bad < |m.records[j].ladder|
    requires c.spec(c.specKeys(m.records[j].ladder[bad])).None?
    ensures Ladder(c, s, RecordSection(m.records[j].name), 0).None?
  {
    var r := m.records[j];
    forall k | 0 <= k <= bad
      ensures HasMode(s, RungSection(RecordSection(r.name), k))
           && s.sections[RungSection(RecordSection(r.name), k)] == c.specKeys(r.ladder[k])
    {
      BlockHeld(c, s, m, j, k + 1);
      assert RecordBlocks(c, r)[k + 1] == RungBlock(c, RecordSection(r.name), r.ladder, k);
    }
    BlockHeld(c, s, m, j, 0);
    LadderFails(c, s, RecordSection(r.name), 0, bad);
  }

  /** One record the codec cannot read rejects the whole manifest. */
  lemma BadRecordRejects(c: Codec, m: Manifest, j: nat)
    requires Nameable(c, m.records) && j < |m.records| && !Acceptable(c, m.records[j])
    ensures WellFormed(Serialized(c, m)) && !ParsedStore(c, Serialized(c, m)).Parsed?
  {
    var s, r := Serialized(c, m), m.records[j];
    NameableHolds(c, m);
    BlockHeld(c, s, m, j, 0);
    BlockName(c, r, 0);
    assert RecordBlocks(c, r)[0] == Block(RecordSection(r.name), c.recordKeys(r));
    assert RecordSection(r.name)[|PREFIX|..] == r.name;
    if !LadderWritable(c, r.ladder) {
      var bad :| 0 <= bad < |r.ladder| && !SpecWritable(c, r.ladder[bad]);
      BadRungRejects(c, s, m, j, bad);
    }
    assert RecordAt(c, s, RecordSection(r.name)).None?;
    var k :| 0 <= k < |s.order| && s.order[k] == RecordSection(r.name);
    UnreadableRejects(c, s, s.order, k);
  }

  // ---------------------------------------------------------------------------------------
  // The loops
  // ---------------------------------------------------------------------------------------

  lemma PutOne(s: Store, bs: seq<Block>, b: Block)
    ensures PutAll(s, bs + [b]) == Put(PutAll(s, bs), b)
  {
    assert (bs + [b])[..|bs|] == bs;
  }

  lemma PutNext(bs: seq<Block>, own: seq<Block>, i: nat)
    requires i + 1 < |own|
    ensures PutAll(Empty, bs + own[..i + 2]) == Put(PutAll(Empty, bs + own[..i + 1]), own[i + 1])
  {
    assert bs + own[..i + 2] == bs + own[..i + 1] + [own[i + 1]];
    PutOne(Empty, bs + own[..i + 1], own[i + 1]);
  }

  method WriteRungs(c: Codec, s: Store, section: string, ladder: seq<Spec>, ghost bs: seq<Block>, ghost own: seq<Block>)
    returns (t: Store)
    requires |own| == 1 + |ladder| && forall i :: 0 <= i < |ladder| ==> own[i + 1] == RungBlock(c, section, ladder, i)
    requires s == PutAll(Empty, bs + own[..1])
    ensures t == PutAll(Empty, bs + own)
  {
    t := s;
    var i := 0;
    while i < |ladder|
      invariant 0 <= i <= |ladder|
      invariant t == PutAll(Empty, bs + own[..i + 1])
    {
      var b := RungBlock(c, section, ladder, i);
      assert own[i + 1] == b;
      PutNext(bs, own, i);
      t := Put(t, b);
      i := i + 1;
    }
    assert own[..i + 1] == own;
  }

  lemma BlocksNext(c: Codec, header: seq<Block>, rs: seq<Record>, i: nat)
    requires i < |rs|
    ensures header + AllBlocks(c, rs[..i + 1]) == header + AllBlocks(c, rs[..i]) + RecordBlocks(c, rs[i])
  {
    assert rs[..i + 1][..i] == rs[..i];
    assert header + (AllBlocks(c, rs[..i]) + RecordBlocks(c, rs[i]))
           == header + AllBlocks(c, rs[..i]) + RecordBlocks(c, rs[i]);
  }

  method WriteRecord(c: Codec, s: Store, r: Record, ghost bs: seq<Block>) returns (t: Store)
    requires s == PutAll(Empty, bs)
    ensures t == PutAll(Empty, bs + RecordBlocks(c, r))
  {
    var b := Block(RecordSection(r.name), c.recordKeys(r));
    PutOne(Empty, bs, b);
    assert RecordBlocks(c, r)[..1] == [b];
    t := WriteRungs(c, Put(s, b), RecordSection(r.name), r.ladder, bs, RecordBlocks(c, r));
  }

  method Serialize(c: Codec, m: Manifest) returns (s: Store)
    ensures s == Serialized(c, m)
  {
    var first := Block(MAIN, HeaderKeys(c, m.revision));
    ghost var header := [first];
    s := Put(Empty, first);
    PutOne(Empty, [], first);
    assert [] + [first] == header && header + AllBlocks(c, m.records[..0]) == header;
    var i := 0;
    while i < |m.records|
      invariant 0 <= i <= |m.records|
      invariant s == PutAll(Empty, header + AllBlocks(c, m.records[..i]))
    {
      BlocksNext(c, header, m.records, i);
      s := WriteRecord(c, s, m.records[i], header + AllBlocks(c, m.records[..i]));
      i := i + 1;
    }
    assert m.records[..i] == m.records;
  }

  function Prefixed(done: seq<Spec>, rest: Option<seq<Spec>>): (r: Option<seq<Spec>>)
  {
    if rest.None? then None else Some(done + rest.value)
  }

  method ReadLadder(c: Codec, s: Store, section: string) returns (r: Option<seq<Spec>>)
    ensures r == Ladder(c, s, section, 0)
  {
    var ladder: seq<Spec> := [];
    var i := 0;
    PrefixedSteps([], Ladder(c, s, section, 0));
    while i < |s.order| && HasMode(s, RungSection(section, i))
      invariant 0 <= i <= |s.order|
      invariant Ladder(c, s, section, 0) == Prefixed(ladder, Ladder(c, s, section, i))
    {
      var rung := c.spec(s.sections[RungSection(section, i)]);
      if rung.None? {
        return None;
      }
      PrefixedMoves(ladder, rung.value, Ladder(c, s, section, i + 1));
      ladder := ladder + [rung.value];
      i := i + 1;
    }
    PrefixedSteps(ladder, Some([]));
    r := Some(ladder);
  }

  lemma PrefixedSteps(done: seq<Spec>, rest: Option<seq<Spec>>)
    ensures done == [] ==> Prefixed(done, rest) == rest
    ensures rest == Some([]) ==> Prefixed(done, rest) == Some(done)
  {
    if rest.Some? {
      assert [] + rest.value == rest.value && done + [] == done;
    }
  }

  lemma PrefixedMoves(done: seq<Spec>, x: Spec, rest: Option<seq<Spec>>)
    ensures Prefixed(done, if rest.None? then None else Some([x] + rest.value)) == Prefixed(done + [x], rest)
  {
    if rest.Some? {
      assert done + ([x] + rest.value) == done + [x] + rest.value;
    }
  }

  method FindStray(s: Store, section: string, length: nat) returns (stray: bool)
    ensures stray == AnyStray(s, section, length)
  {
    var i := 0;
    while i < |s.order|
      invariant 0 <= i <= |s.order|
      invariant forall k :: 0 <= k < i ==> !Stray(s.order[k], section, length)
    {
      if Stray(s.order[i], section, length) {
        return true;
      }
      i := i + 1;
    }
    return false;
  }

  method ReadRecordAt(c: Codec, s: Store, section: string) returns (r: Option<Record>)
    requires IsRecordName(section) && section in s.sections
    ensures r == RecordAt(c, s, section)
  {
    if |section| == |PREFIX| {
      return None;
    }
    var fields := c.record(section[|PREFIX|..], s.sections[section]);
    if fields.None? {
      return None;
    }
    var ladder := ReadLadder(c, s, section);
    if ladder.None? {
      return None;
    }
    var stray := FindStray(s, section, |ladder.value|);
    r := if stray then None else Some(fields.value.(ladder := ladder.value));
  }

  /** What one more section adds. */
  lemma RecordsInNext(c: Codec, s: Store, names: seq<string>, i: nat, done: seq<Record>)
    requires i < |names| && forall k :: 0 <= k < |names| ==> names[k] in s.sections
    requires RecordsIn(c, s, names[..i]) == Some(done)
    ensures RecordsIn(c, s, names[..i + 1]) ==
            if !NamesRecord(names[i]) then Some(done)
            else if RecordAt(c, s, names[i]).None? then None
            else Some(done + [RecordAt(c, s, names[i]).value])
  {
    assert names[..i + 1][..i] == names[..i];
  }

  method ReadRecords(c: Codec, s: Store) returns (r: Option<seq<Record>>)
    requires WellFormed(s)
    ensures r == RecordsIn(c, s, s.order)
  {
    var records: seq<Record> := [];
    var i := 0;
    while i < |s.order|
      invariant 0 <= i <= |s.order|
      invariant RecordsIn(c, s, s.order[..i]) == Some(records)
    {
      RecordsInNext(c, s, s.order, i, records);
      if NamesRecord(s.order[i]) {
        var record := ReadRecordAt(c, s, s.order[i]);
        if record.None? {
          NoneStays(c, s, s.order, i + 1);
          return None;
        }
        records := records + [record.value];
      }
      i := i + 1;
    }
    assert s.order[..i] == s.order;
    r := Some(records);
  }

  method Parse(c: Codec, s: Store) returns (r: Result)
    requires WellFormed(s)
    ensures r == ParsedStore(c, s)
  {
    if !HasHeader(c, s) {
      return MissingHeader;
    }
    var revision := RevisionOf(c, s);
    if revision.None? {
      return Malformed;
    }
    var i := 0;
    while i < |s.order|
      invariant 0 <= i <= |s.order|
      invariant forall k :: 0 <= k < i ==> Parented(s, s.order[k])
    {
      if !Parented(s, s.order[i]) {
        return Malformed;
      }
      i := i + 1;
    }
    var records := ReadRecords(c, s);
    r := if records.None? then Malformed else Parsed(Manifest(revision.value, records.value));
  }
}
