/**
 The section names of a manifest: one section per record, and one sub-section per ladder rung named after
 it with a decimal index.
 */
module SectionNames {
  import opened MachineInts
  import opened Options
  import opened Numerals

  const PREFIX: string := "sig."
  const INFIX: string := ".rung."

  datatype Rung = Rung(parent: string, index: nat)

  function RecordSection(recordLabel: string): (s: string)
  {
    PREFIX + recordLabel
  }

  function RungSection(section: string, index: nat): (s: string)
  {
    section + INFIX + Print(index, 10)
  }

  predicate IsRecordName(name: string)
  {
    PREFIX <= name
  }

  predicate InfixAt(name: string, p: nat)
  {
    p + |INFIX| <= |name| && name[p..p + |INFIX|] == INFIX
  }

  /** The last occurrence of the infix at or before `p`. */
  function LastInfix(name: string, p: nat): (r: Option<nat>)
    ensures r.Some? ==> InfixAt(name, r.value) && r.value <= p
  {
    if InfixAt(name, p) then Some(p) else if p == 0 then None else LastInfix(name, p - 1)
  }

  /** A rung name is a parent, the last infix, and a decimal index that fits 64 bits. */
  function ParseRung(name: string): (r: Option<Rung>)
  {
    var p := LastInfix(name, |name|);
    if p.None? then None
    else
      var index := Read(name[p.value + |INFIX|..], 10, TWO_64);
      if index.None? then None else Some(Rung(name[..p.value], index.value))
  }

  lemma {:induction false} LastInfixIs(name: string, p: nat, at: nat)
    requires InfixAt(name, at) && at <= p && forall q :: at < q <= p ==> !InfixAt(name, q)
    ensures LastInfix(name, p) == Some(at)
  {
    if p > at {
      LastInfixIs(name, p - 1, at);
    }
  }

  /** Past the written infix there are only its own letters and digits, so no later infix. */
  lemma NoLaterInfix(section: string, digits: string, q: nat)
    requires IsNumeral(digits, 10) && q > |section|
    ensures !InfixAt(section + INFIX + digits, q)
  {
    var name := section + INFIX + digits;
    if q + |INFIX| <= |name| {
      var k := q - |section|;
      assert name[q] == (INFIX + digits)[k];
      assert name[q + 1] == (INFIX + digits)[k + 1];
      if k >= |INFIX| {
        assert name[q] == digits[k - |INFIX|];
        assert name[q..q + |INFIX|][0] == name[q] != INFIX[0];
      } else if k == 5 {
        assert name[q + 1] == digits[0];
        assert name[q..q + |INFIX|][1] == name[q + 1] != INFIX[1];
      } else {
        assert name[q] == INFIX[k];
        assert name[q..q + |INFIX|][0] == name[q] != INFIX[0];
      }
    }
  }

  /** Any numeral after the last infix is an index, also one with leading zeros. */
  lemma RungNameParses(section: string, digits: string)
    requires digits != [] && IsNumeral(digits, 10) && Value(digits, 10) < TWO_64
    ensures ParseRung(section + INFIX + digits) == Some(Rung(section, Value(digits, 10)))
  {
    var name := section + INFIX + digits;
    assert name == section + (INFIX + digits);
    assert name[|section|..|section| + |INFIX|] == INFIX;
    forall q | |section| < q <= |name| ensures !InfixAt(name, q) {
      NoLaterInfix(section, digits, q);
    }
    LastInfixIs(name, |name|, |section|);
    assert name[|section| + |INFIX|..] == digits && name[..|section|] == section;
  }

  /** A rung's name reads back as its parent and index. */
  lemma RungSectionParses(section: string, index: u64)
    ensures ParseRung(RungSection(section, index)) == Some(Rung(section, index))
  {
    PrintedIsNumeral(index, 10);
    RungNameParses(section, Print(index, 10));
  }

  lemma PaddedIndexParses(section: string)
    ensures RungSection(section, 0) == section + INFIX + "0" && RungSection(section, 1) == section + INFIX + "1"
    ensures ParseRung(section + INFIX + "0") == ParseRung(section + INFIX + "00") == Some(Rung(section, 0))
  {
    assert "0"[..0] == [] && "00"[..1] == "0";
    RungNameParses(section, "0");
    RungNameParses(section, "00");
  }

  /** One parent's rungs have different names, however many there are. */
  lemma SiblingsDiffer(section: string, i: nat, j: nat)
    requires RungSection(section, i) == RungSection(section, j)
    ensures i == j
  {
    var head := section + INFIX;
    assert RungSection(section, i)[|head|..] == Print(i, 10);
    assert RungSection(section, j)[|head|..] == Print(j, 10);
    PrintedIsNumeral(i, 10);
    PrintedIsNumeral(j, 10);
  }

  lemma RungSectionsDiffer(s: string, i: u64, t: string, j: u64)
    requires RungSection(s, i) == RungSection(t, j)
    ensures s == t && i == j
  {
    RungSectionParses(s, i);
    RungSectionParses(t, j);
  }

  // The index loop.

  lemma {:induction false} ValueOfPrefix(s: string, k: nat)
    requires IsNumeral(s, 10) && k <= |s|
    ensures IsNumeral(s[..k], 10) && Value(s[..k], 10) <= Value(s, 10)
  {
    if k < |s| {
      ValueOfPrefix(s[..|s| - 1], k);
      assert s[..|s| - 1][..k] == s[..k];
    } else {
      assert s[..k] == s;
    }
  }

  /** Digits accumulate, and one that would pass 64 bits rejects the name. */
  method ParseIndex(tail: string) returns (r: Option<nat>)
    ensures r == Read(tail, 10, TWO_64)
  {
    if tail == [] {
      return None;
    }
    var index := 0;
    var i := 0;
    while i < |tail|
      invariant 0 <= i <= |tail|
      invariant IsNumeral(tail[..i], 10) && index == Value(tail[..i], 10) < TWO_64
    {
      if tail[i] < '0' || tail[i] > '9' {
        return None;
      }
      var digit := DigitValue(tail[i]);
      assert tail[..i + 1][..i] == tail[..i];
      assert Value(tail[..i + 1], 10) == index * 10 + digit;
      if index > (TWO_64 - 1 - digit) / 10 {
        if IsNumeral(tail, 10) {
          ValueOfPrefix(tail, i + 1);
        }
        return None;
      }
      index := index * 10 + digit;
      i := i + 1;
    }
    assert tail[..i] == tail;
    r := Some(index);
  }
}
