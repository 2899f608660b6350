/**
 Manifests through the store with the toolkit's own codec.
 */
module ManifestRoundTrip {
  import opened MachineInts
  import opened Options
  import opened SectionNames
  import opened ManifestTokens
  import opened ManifestRecords
  import opened ManifestCodec
  import opened ManifestStore

  function NumberKey(k: Key, n: u64): (s: string)
  {
    WriteField(k, FUnsigned(n))
  }

  function NumberOf(k: Key, s: string): (r: Option<u64>)
  {
    var f := ReadField(k, s);
    if f.Some? && f.value.FUnsigned? then Some(f.value.word) else None
  }

  const Ini: Codec := Codec(SpecKeys, RecordKeys, NumberKey, SpecOf, RecordOf, NumberOf)

  /** A record that can be stored: a usable name, a kind with a section form, and valid rung layouts. */
  predicate Serialisable(r: Record)
  {
    && GoodName(r.name) && |r.ladder| < TWO_64 && Storable(r.kind)
    && forall i :: 0 <= i < |r.ladder| ==> ValidSpec(r.ladder[i])
  }

  lemma SpecIsWritable(x: Spec)
    ensures KMode in Ini.specKeys(x)
    ensures SpecWritable(Ini, x) <==> ValidSpec(x)
    ensures ValidSpec(x) ==> Ini.spec(Ini.specKeys(x)) == Some(NormalSpec(x))
  {
    SpecRoundTrip(x);
  }

  lemma RecordIsWritable(r: Record)
    ensures Ini.record(r.name, Ini.recordKeys(r)) == if Storable(r.kind) then Some(NormalFields(r)) else None
  {
    RecordRoundTrip(r);
  }

  lemma AcceptableIff(r: Record)
    ensures Acceptable(Ini, r) <==> Serialisable(r)
  {
    RecordIsWritable(r);
    forall i | 0 <= i < |r.ladder| ensures SpecWritable(Ini, r.ladder[i]) <==> ValidSpec(r.ladder[i]) {
      SpecIsWritable(r.ladder[i]);
    }
  }

  lemma ReadsAsNormal(r: Record)
    requires Acceptable(Ini, r)
    ensures Again(Ini, r) == Normal(r)
  {
    AcceptableIff(r);
    RecordIsWritable(r);
    forall i | 0 <= i < |r.ladder| ensures LadderAgain(Ini, r.ladder)[i] == NormalLadder(r.ladder)[i] {
      SpecIsWritable(r.ladder[i]);
    }
    assert LadderAgain(Ini, r.ladder) == NormalLadder(r.ladder);
  }

  lemma HeaderNumbersRead(revision: u32)
    ensures HeaderCodec(Ini, revision)
  {
    FieldReads(KSchema, FUnsigned(SCHEMA_VERSION));
    FieldReads(KRevision, FUnsigned(revision));
  }

  function Normals(rs: seq<Record>): (r: seq<Record>)
    ensures |r| == |rs| && forall i :: 0 <= i < |rs| ==> r[i] == Normal(rs[i])
  {
    seq(|rs|, i requires 0 <= i < |rs| => Normal(rs[i]))
  }

  /**
   A serialised manifest of storable records with distinct labels reads back with the same revision and the
   same records in the same order, fields that a record's kind does not use aside.
   */
  lemma RoundTrip(m: Manifest)
    requires DistinctRecords(m.records) && forall i :: 0 <= i < |m.records| ==> Serialisable(m.records[i])
    ensures WellFormed(Serialized(Ini, m))
    ensures ParsedStore(Ini, Serialized(Ini, m)) == Parsed(Manifest(m.revision, Normals(m.records)))
  {
    forall i | 0 <= i < |m.records|
      ensures Acceptable(Ini, m.records[i]) && Again(Ini, m.records[i]) == Normal(m.records[i])
    {
      AcceptableIff(m.records[i]);
      ReadsAsNormal(m.records[i]);
    }
    HeaderNumbersRead(m.revision);
    StoreRoundTrip(Ini, m);
    assert AllAgain(Ini, m.records) == Normals(m.records);
  }

  predicate Named(rs: seq<Record>)
  {
    DistinctRecords(rs) && forall i :: 0 <= i < |rs| ==> GoodName(rs[i].name) && |rs[i].ladder| < TWO_64
  }

  lemma NamedIsNameable(rs: seq<Record>)
    requires Named(rs)
    ensures Nameable(Ini, rs)
  {
    forall i, k | 0 <= i < |rs| && 0 <= k < |rs[i].ladder| ensures KMode in Ini.specKeys(rs[i].ladder[k]) {
      SpecIsWritable(rs[i].ladder[k]);
    }
  }

  /** With usable distinct labels, a manifest is accepted exactly when every record is storable. */
  lemma AcceptedIffSerialisable(m: Manifest)
    requires Named(m.records)
    ensures WellFormed(Serialized(Ini, m))
    ensures ParsedStore(Ini, Serialized(Ini, m)).Parsed? <==>
            forall i :: 0 <= i < |m.records| ==> Serialisable(m.records[i])
  {
    NamedIsNameable(m.records);
    if forall i :: 0 <= i < |m.records| ==> Serialisable(m.records[i]) {
      RoundTrip(m);
    } else {
      var j :| 0 <= j < |m.records| && !Serialisable(m.records[j]);
      AcceptableIff(m.records[j]);
      BadRecordRejects(Ini, m, j);
    }
  }

  lemma IniKeepsNames()
    ensures KeepsNames(Ini)
  {
    forall name, keys | Ini.record(name, keys).Some? ensures Ini.record(name, keys).value.name == name {
      RecordOfName(name, keys);
    }
  }

  lemma RecordOfName(name: string, keys: Keys)
    ensures RecordOf(name, keys).Some? ==> RecordOf(name, keys).value.name == name
  {
    ReadRecordName(name, k => View(ReadField, keys, k));
  }

  /** Whatever labels it was given, only a manifest with usable distinct labels can come back. */
  lemma OnlyNamedComesBack(m: Manifest)
    requires WellFormed(Serialized(Ini, m)) && ParsedStore(Ini, Serialized(Ini, m)) == Parsed(m)
    ensures DistinctRecords(m.records) && forall i :: 0 <= i < |m.records| ==> GoodName(m.records[i].name)
  {
    var s := Serialized(Ini, m);
    IniKeepsNames();
    ReadRecordsAreNamed(Ini, s, s.order);
  }

  /**
   A manifest is returned unchanged exactly when its labels are usable and distinct, its records are storable,
   and every unused field is at its default.
   */
  lemma UnchangedIff(m: Manifest)
    requires forall i :: 0 <= i < |m.records| ==> |m.records[i].ladder| < TWO_64
    ensures WellFormed(Serialized(Ini, m))
    ensures ParsedStore(Ini, Serialized(Ini, m)) == Parsed(m) <==>
            && Named(m.records)
            && forall i :: 0 <= i < |m.records| ==> Serialisable(m.records[i]) && Normal(m.records[i]) == m.records[i]
  {
    PutAllWellFormed(Blocks(Ini, m));
    if ParsedStore(Ini, Serialized(Ini, m)) == Parsed(m) {
      OnlyNamedComesBack(m);
    }
    if Named(m.records) {
      NamedUnchangedIff(m);
    }
  }

  lemma NamedUnchangedIff(m: Manifest)
    requires Named(m.records)
    ensures WellFormed(Serialized(Ini, m))
    ensures ParsedStore(Ini, Serialized(Ini, m)) == Parsed(m) <==>
            forall i :: 0 <= i < |m.records| ==> Serialisable(m.records[i]) && Normal(m.records[i]) == m.records[i]
  {
    AcceptedIffSerialisable(m);
    if forall i :: 0 <= i < |m.records| ==> Serialisable(m.records[i]) {
      RoundTrip(m);
      if forall i :: 0 <= i < |m.records| ==> Normal(m.records[i]) == m.records[i] {
        assert Normals(m.records) == m.records;
      }
    }
  }

  /** A name without a dot is usable. */
  lemma {:induction false} NoInfixIn(name: string, p: nat)
    requires forall i :: 4 <= i < |name| ==> name[i] != '.'
    requires PREFIX <= name
    ensures LastInfix(name, p).None?
  {
    assert p + |INFIX| <= |name| ==> name[p..p + |INFIX|][5] == name[p + 5] != '.';
    if p > 0 {
      NoInfixIn(name, p - 1);
    }
  }

  const Pinned: Record := BlankRecord("pinned", KindManual).(mangled := "x")

  lemma PinnedIsNormal()
    ensures Serialisable(Pinned) && Named([Pinned]) && Normals([Pinned]) == [Pinned.(mangled := "")]
  {
    NoInfixIn(RecordSection(Pinned.name), |RecordSection(Pinned.name)|);
    assert Normal(Pinned).ladder == [];
  }

  /** A manual record does not write its type name, so a set one is lost. */
  lemma UnusedFieldIsLost(revision: u32)
    ensures var m := Manifest(revision, [Pinned]);
            && Named(m.records)
            && WellFormed(Serialized(Ini, m))
            && ParsedStore(Ini, Serialized(Ini, m)) == Parsed(Manifest(revision, [Pinned.(mangled := "")]))
  {
    PinnedIsNormal();
    RoundTrip(Manifest(revision, [Pinned]));
  }

  /** Two records with one label share a section, so one of them is lost. */
  lemma DuplicateLabelIsLost(revision: u32, r: Record)
    requires r.ladder == []
    ensures Serialized(Ini, Manifest(revision, [r, r])) == Serialized(Ini, Manifest(revision, [r]))
    ensures WellFormed(Serialized(Ini, Manifest(revision, [r, r])))
    ensures ParsedStore(Ini, Serialized(Ini, Manifest(revision, [r, r]))) != Parsed(Manifest(revision, [r, r]))
  {
    var two := Manifest(revision, [r, r]);
    SameRecordTwice(Ini, revision, r);
    UnchangedIff(two);
    assert two.records[0].name == two.records[1].name;
  }
}
