/**
 The self-heal drift report as text: a header line, then one line of six tab-separated fields per
 entry.
 */
module DriftManifest {
  import opened MachineInts
  import opened Options
  import opened Numerals
  import opened Splitting

  /** The four codes with a token of their own; any other code is written as BadDescriptor. */
  datatype Code = Healed | BadDescriptor | NoMatch | Ambiguous | Other(code: int)

  datatype Record = Record(name: string, nominal: i64, healed: i64, delta: i64, ok: bool, error: Code)

  datatype Error = MissingHeader | MalformedLine

  datatype Result = Parsed(records: seq<Record>) | Rejected(error: Error)

  const HEADER: string := "# DetourModKit drift manifest v1"

  function Token(c: Code): (s: string)
  {
    match c
    case Healed => "Ok"
    case NoMatch => "NoMatch"
    case Ambiguous => "Ambiguous"
    case _ => "BadDescriptor"
  }

  function ReadToken(s: string): (c: Option<Code>)
  {
    if s == "Ok" then Some(Healed)
    else if s == "BadDescriptor" then Some(BadDescriptor)
    else if s == "NoMatch" then Some(NoMatch)
    else if s == "Ambiguous" then Some(Ambiguous)
    else None
  }

  /** The spellings: a code without one of its own is reported as a bad descriptor, and nothing else is read. */
  lemma TokenSpelled(c: Code, s: string)
    ensures Token(c) == if c == Healed then "Ok" else if c == NoMatch then "NoMatch"
                        else if c == Ambiguous then "Ambiguous" else "BadDescriptor"
    ensures ReadToken(s) == Some(c) <==> !c.Other? && s == Token(c)
  {
  }

  function Flag(ok: bool): (s: string)
  {
    if ok then "1" else "0"
  }

  function Fields(r: Record): (f: seq<string>)
    ensures |f| == 6
  {
    [r.name, PrintSigned(r.nominal), PrintSigned(r.healed), PrintSigned(r.delta), Flag(r.ok), Token(r.error)]
  }

  function Line(r: Record): (s: string)
  {
    Join(Fields(r), '\t')
  }

  function LinesOf(rs: seq<Record>): (lines: seq<string>)
    ensures |lines| == |rs| && forall i :: 0 <= i < |rs| ==> lines[i] == Line(rs[i])
  {
    seq(|rs|, i requires 0 <= i < |rs| => Line(rs[i]))
  }

  /** A line with its ending: LF, or CR LF. */
  function Ended(line: string, cr: bool): (s: string)
  {
    if cr then line + "\r\n" else line + "\n"
  }

  function Text(lines: seq<string>, cr: bool): (s: string)
  {
    if lines == [] then [] else Ended(lines[0], cr) + Text(lines[1..], cr)
  }

  function Serialized(rs: seq<Record>): (s: string)
  {
    Ended(HEADER, false) + Text(LinesOf(rs), false)
  }

  function StripCr(line: string): (s: string)
  {
    if line != [] && line[|line| - 1] == '\r' then line[..|line| - 1] else line
  }

  function ReadFields(f: seq<string>): (r: Option<Record>)
  {
    if |f| != 6 then None
    else
      var a, b, c, e := ReadSigned(f[1]), ReadSigned(f[2]), ReadSigned(f[3]), ReadToken(f[5]);
      if a.None? || b.None? || c.None? || (f[4] != "1" && f[4] != "0") || e.None? then None
      else Some(Record(f[0], a.value, b.value, c.value, f[4] == "1", e.value))
  }

  function ReadLine(line: string): (r: Option<Record>)
  {
    ReadFields(Split(line, '\t'))
  }

  /** The parser line by line: blank lines are skipped, the first other line is the header. */
  function ParseLines(header: string, read: string -> Option<Record>, lines: seq<string>, headerSeen: bool,
                      done: seq<Record>): (r: Result)
  {
    if lines == [] then (if headerSeen then Parsed(done) else Rejected(MissingHeader))
    else
      var line := StripCr(lines[0]);
      if line == [] then ParseLines(header, read, lines[1..], headerSeen, done)
      else if !headerSeen then
        if line == header then ParseLines(header, read, lines[1..], true, done) else Rejected(MissingHeader)
      else
        var record := read(line);
        if record.None? then Rejected(MalformedLine)
        else ParseLines(header, read, lines[1..], true, done + [record.value])
  }

  function ParsedText(text: string): (r: Result)
  {
    ParseLines(HEADER, ReadLine, Split(text, '\n'), false, [])
  }

  // One line.

  predicate Clean(name: string)
  {
    '\t' !in name && '\n' !in name
  }

  predicate Tokenised(c: Code)
  {
    !c.Other?
  }

  predicate Representable(r: Record)
  {
    Clean(r.name) && Tokenised(r.error)
  }

  lemma FieldsReadBack(r: Record)
    requires Tokenised(r.error)
    ensures ReadFields(Fields(r)) == Some(r)
  {
    ReadPrintedSigned(r.nominal);
    ReadPrintedSigned(r.healed);
    ReadPrintedSigned(r.delta);
  }

  lemma FieldsHaveNo(r: Record, c: char)
    requires c == '\t' || c == '\n'
    requires c !in r.name
    ensures forall i :: 0 <= i < 6 ==> c !in Fields(r)[i]
  {
    SignedHasNo(r.nominal, c);
    SignedHasNo(r.healed, c);
    SignedHasNo(r.delta, c);
  }

  /** A line of a clean name is not blank, holds no newline, does not end in CR, and reads back. */
  lemma LineReadsBack(r: Record)
    requires Representable(r)
    ensures Line(r) != [] && '\n' !in Line(r) && Line(r)[|Line(r)| - 1] != '\r'
    ensures ReadLine(Line(r)) == Some(r)
  {
    FieldsHaveNo(r, '\t');
    FieldsHaveNo(r, '\n');
    JoinedHasNo(Fields(r), '\t', '\n');
    SplitJoined(Fields(r), '\t');
    FieldsReadBack(r);
    JoinEnds(Fields(r), '\t');
  }

  /** What the parser does with one more line. */
  lemma ParseOneLine(header: string, read: string -> Option<Record>, line: string, rest: seq<string>,
                     headerSeen: bool, done: seq<Record>)
    ensures var stripped := StripCr(line);
            var record := read(stripped);
            ParseLines(header, read, [line] + rest, headerSeen, done) ==
              if stripped == [] then ParseLines(header, read, rest, headerSeen, done)
              else if !headerSeen then
                (if stripped == header then ParseLines(header, read, rest, true, done) else Rejected(MissingHeader))
              else if record.None? then Rejected(MalformedLine)
              else ParseLines(header, read, rest, true, done + [record.value])
  {
    assert ([line] + rest)[1..] == rest;
  }

  /** The lines that count: without their CR, and not blank. */
  function Kept(lines: seq<string>): (r: seq<string>)
  {
    if lines == [] then []
    else if StripCr(lines[0]) == [] then Kept(lines[1..])
    else [StripCr(lines[0])] + Kept(lines[1..])
  }

  /** The records of a run of lines, in order. */
  predicate ReadsAs(read: string -> Option<Record>, lines: seq<string>, records: seq<Record>)
  {
    |lines| == |records| && forall i :: 0 <= i < |lines| ==> read(lines[i]) == Some(records[i])
  }

  predicate Unreadable(read: string -> Option<Record>, lines: seq<string>)
  {
    exists i :: 0 <= i < |lines| && read(lines[i]).None?
  }

  lemma {:induction false} BodyMeans(header: string, read: string -> Option<Record>, lines: seq<string>,
                                     done: seq<Record>)
    ensures var r := ParseLines(header, read, lines, true, done);
            && (r.Rejected? <==> Unreadable(read, Kept(lines)))
            && (r.Rejected? ==> r.error == MalformedLine)
            && (r.Parsed? ==> |done| <= |r.records| && done == r.records[..|done|]
                              && ReadsAs(read, Kept(lines), r.records[|done|..]))
    decreases |lines|
  {
    if lines != [] {
      var line, rest := StripCr(lines[0]), lines[1..];
      if line == [] {
        BodyMeans(header, read, rest, done);
      } else if read(line).None? {
        assert Kept(lines)[0] == line;
      } else {
        BodyMeans(header, read, rest, done + [read(line).value]);
        BodyLine(read, line, Kept(rest), ParseLines(header, read, lines, true, done), done);
      }
    }
  }

  lemma BodyLine(read: string -> Option<Record>, line: string, rest: seq<string>, r: Result, done: seq<Record>)
    requires read(line).Some?
    requires r.Rejected? <==> Unreadable(read, rest)
    requires r.Parsed? ==> |done| < |r.records| && done + [read(line).value] == r.records[..|done| + 1]
                           && ReadsAs(read, rest, r.records[|done| + 1..])
    ensures r.Rejected? <==> Unreadable(read, [line] + rest)
    ensures r.Parsed? ==> done == r.records[..|done|] && ReadsAs(read, [line] + rest, r.records[|done|..])
  {
    var all := [line] + rest;
    forall i | 0 <= i < |rest| ensures read(rest[i]) == read(all[i + 1]) {
    }
    if r.Parsed? {
      assert r.records[|done|..] == [read(line).value] + r.records[|done| + 1..] by {
        assert r.records[..|done| + 1][|done|] == r.records[|done|];
      }
    } else {
      var i :| 0 <= i < |rest| && read(rest[i]).None?;
      assert read(all[i + 1]).None?;
    }
  }

  lemma {:induction false} HeaderMeans(header: string, read: string -> Option<Record>, lines: seq<string>)
    ensures var kept, r := Kept(lines), ParseLines(header, read, lines, false, []);
            if kept == [] || kept[0] != header then r == Rejected(MissingHeader)
            else if Unreadable(read, kept[1..]) then r == Rejected(MalformedLine)
            else r.Parsed? && ReadsAs(read, kept[1..], r.records)
    decreases |lines|
  {
    if lines != [] {
      var line, rest := StripCr(lines[0]), lines[1..];
      if line == [] {
        HeaderMeans(header, read, rest);
      } else {
        assert Kept(lines)[1..] == Kept(rest);
        BodyMeans(header, read, rest, []);
      }
    }
  }

  /**
   A report without its header as the first line that counts has no header; with it, one bad line later on makes it
   malformed; otherwise its records are those of the lines after the header, in order.
   */
  lemma ParseMeans(text: string)
    ensures var kept, r := Kept(Split(text, '\n')), ParsedText(text);
            if kept == [] || kept[0] != "# DetourModKit drift manifest v1" then r == Rejected(MissingHeader)
            else if Unreadable(ReadLine, kept[1..]) then r == Rejected(MalformedLine)
            else r.Parsed? && ReadsAs(ReadLine, kept[1..], r.records)
  {
    HeaderMeans(HEADER, ReadLine, Split(text, '\n'));
  }

  /** A line reads as a record exactly when it has six fields and each is its own member of the record. */
  lemma LineMeans(line: string, r: Record)
    ensures ReadLine(line) == Some(r) <==>
            && |Split(line, '\t')| == 6
            && var f := Split(line, '\t');
               && r.name == f[0] && ReadSigned(f[1]) == Some(r.nominal) && ReadSigned(f[2]) == Some(r.healed)
               && ReadSigned(f[3]) == Some(r.delta) && f[4] == (if r.ok then "1" else "0")
               && ReadToken(f[5]) == Some(r.error)
  {
  }

  // Whole reports, with either line ending.

  lemma SplitEnded(line: string, cr: bool, rest: string)
    requires '\n' !in line
    ensures Split(Ended(line, cr) + rest, '\n') == [WithCr(line, cr)] + Split(rest, '\n')
  {
    var piece := WithCr(line, cr);
    assert Ended(line, cr) + rest == piece + ['\n'] + rest;
    SplitFirst(piece, '\n', rest);
  }

  lemma StripEnded(line: string, cr: bool)
    requires line != [] && line[|line| - 1] != '\r'
    ensures StripCr(WithCr(line, cr)) == line
  {
  }

  function WithCr(line: string, cr: bool): (s: string)
  {
    if cr then line + "\r" else line
  }

  /** What splitting a text at its newlines gives: each line, then the empty rest. */
  function Pieces(lines: seq<string>, cr: bool): (r: seq<string>)
  {
    if lines == [] then [[]] else [WithCr(lines[0], cr)] + Pieces(lines[1..], cr)
  }

  lemma {:induction false} SplitText(lines: seq<string>, cr: bool)
    requires forall i :: 0 <= i < |lines| ==> '\n' !in lines[i]
    ensures Split(Text(lines, cr), '\n') == Pieces(lines, cr)
  {
    if lines == [] {
      FindNone([], '\n');
    } else {
      SplitEnded(lines[0], cr, Text(lines[1..], cr));
      SplitText(lines[1..], cr);
    }
  }

  /** A line that is not blank, holds no newline, does not end in CR, and reads as this record. */
  predicate Reads(read: string -> Option<Record>, line: string, r: Record)
  {
    line != [] && '\n' !in line && line[|line| - 1] != '\r' && read(line) == Some(r)
  }

  lemma NothingLeft(header: string, read: string -> Option<Record>, done: seq<Record>)
    ensures ParseLines(header, read, [[]], true, done) == Parsed(done)
  {
    ParseOneLine(header, read, [], [], true, done);
    assert [""] + [] == [""];
  }

  lemma {:induction false} PiecesReadBack(header: string, read: string -> Option<Record>, lines: seq<string>,
                                          rs: seq<Record>, cr: bool, done: seq<Record>)
    requires |lines| == |rs| && forall i :: 0 <= i < |rs| ==> Reads(read, lines[i], rs[i])
    ensures ParseLines(header, read, Pieces(lines, cr), true, done) == Parsed(done + rs)
  {
    if rs == [] {
      NothingLeft(header, read, done);
      assert done + rs == done;
    } else {
      assert Reads(read, lines[0], rs[0]);
      StripEnded(lines[0], cr);
      ParseOneLine(header, read, WithCr(lines[0], cr), Pieces(lines[1..], cr), true, done);
      PiecesReadBack(header, read, lines[1..], rs[1..], cr, done + [rs[0]]);
      assert done + [rs[0]] + rs[1..] == done + rs;
    }
  }

  lemma TextReadsBack(header: string, read: string -> Option<Record>, lines: seq<string>, rs: seq<Record>, cr: bool)
    requires header != [] && '\n' !in header && header[|header| - 1] != '\r'
    requires |lines| == |rs| && forall i :: 0 <= i < |rs| ==> Reads(read, lines[i], rs[i])
    ensures ParseLines(header, read, Split(Ended(header, cr) + Text(lines, cr), '\n'), false, []) == Parsed(rs)
  {
    SplitEnded(header, cr, Text(lines, cr));
    SplitText(lines, cr);
    StripEnded(header, cr);
    PiecesReadBack(header, read, lines, rs, cr, []);
    ParseOneLine(header, read, WithCr(header, cr), Pieces(lines, cr), false, []);
    assert [] + rs == rs;
  }

  lemma LinesOfRead(rs: seq<Record>)
    requires forall i :: 0 <= i < |rs| ==> Representable(rs[i])
    ensures forall i :: 0 <= i < |rs| ==> Reads(ReadLine, LinesOf(rs)[i], rs[i])
  {
    forall i | 0 <= i < |rs| ensures Reads(ReadLine, LinesOf(rs)[i], rs[i]) {
      LineReadsBack(rs[i]);
    }
  }

  function CrlfOf(c: char): (r: string)
  {
    if c == '\n' then "\r\n" else [c]
  }

  /** Every newline becomes CR LF. */
  function ToCrlf(s: string): (r: string)
  {
    if s == [] then [] else CrlfOf(s[0]) + ToCrlf(s[1..])
  }

  lemma Associates(a: string, b: string, c: string)
    ensures a + (b + c) == a + b + c
  {
  }

  lemma {:induction false} CrlfJoins(a: string, b: string)
    ensures ToCrlf(a + b) == ToCrlf(a) + ToCrlf(b)
  {
    if a == [] {
      assert a + b == b;
    } else {
      CrlfJoins(a[1..], b);
      assert (a + b)[1..] == a[1..] + b;
      Associates(CrlfOf(a[0]), ToCrlf(a[1..]), ToCrlf(b));
    }
  }

  lemma {:induction false} CrlfKeepsLine(a: string)
    requires '\n' !in a
    ensures ToCrlf(a) == a
  {
    if a != [] {
      CrlfKeepsLine(a[1..]);
    }
  }

  lemma CrlfOfLine(line: string, rest: string)
    requires '\n' !in line
    ensures ToCrlf(Ended(line, false) + rest) == Ended(line, true) + ToCrlf(rest)
  {
    assert Ended(line, false) + rest == line + ("\n" + rest);
    CrlfJoins(line, "\n" + rest);
    CrlfKeepsLine(line);
    assert ("\n" + rest)[1..] == rest;
    Associates(line, "\r\n", ToCrlf(rest));
  }

  lemma {:induction false} CrlfOfText(lines: seq<string>)
    requires forall i :: 0 <= i < |lines| ==> '\n' !in lines[i]
    ensures ToCrlf(Text(lines, false)) == Text(lines, true)
  {
    if lines != [] {
      CrlfOfLine(lines[0], Text(lines[1..], false));
      CrlfOfText(lines[1..]);
    }
  }

  /** A report survives serialising and parsing, and also a conversion to CR LF line endings. */
  lemma RoundTrip(rs: seq<Record>)
    requires forall i :: 0 <= i < |rs| ==> Representable(rs[i])
    ensures ParsedText(Serialized(rs)) == Parsed(rs)
    ensures ParsedText(ToCrlf(Serialized(rs))) == Parsed(rs)
  {
    LinesOfRead(rs);
    TextReadsBack(HEADER, ReadLine, LinesOf(rs), rs, false);
    CrlfOfLine(HEADER, Text(LinesOf(rs), false));
    CrlfOfText(LinesOf(rs));
    TextReadsBack(HEADER, ReadLine, LinesOf(rs), rs, true);
  }

  // What a parser can return at all.

  lemma ReadRecordIsRepresentable(line: string)
    requires '\n' !in line && ReadLine(StripCr(line)).Some?
    ensures Representable(ReadLine(StripCr(line)).value)
  {
    var stripped := StripCr(line);
    var name := Split(stripped, '\t')[0];
    SplitPieces(stripped, '\t');
    if '\n' in name {
      SplitCharacters(stripped, '\t', 0, '\n');
    }
  }

  lemma {:induction false} ParsedRecordsRepresentable(header: string, lines: seq<string>, headerSeen: bool,
                                                      done: seq<Record>)
    requires forall i :: 0 <= i < |lines| ==> '\n' !in lines[i]
    requires forall i :: 0 <= i < |done| ==> Representable(done[i])
    ensures var r := ParseLines(header, ReadLine, lines, headerSeen, done);
            r.Parsed? ==> forall i :: 0 <= i < |r.records| ==> Representable(r.records[i])
    decreases |lines|
  {
    if lines != [] {
      ParseOneLine(header, ReadLine, lines[0], lines[1..], headerSeen, done);
      assert lines == [lines[0]] + lines[1..];
      var line := StripCr(lines[0]);
      if line == [] {
        ParsedRecordsRepresentable(header, lines[1..], headerSeen, done);
      } else if !headerSeen {
        if line == header {
          ParsedRecordsRepresentable(header, lines[1..], true, done);
        }
      } else {
        var record := ReadLine(line);
        if record.Some? {
          ReadRecordIsRepresentable(lines[0]);
          ParsedRecordsRepresentable(header, lines[1..], true, done + [record.value]);
        }
      }
    }
  }

  lemma AcceptedRecordsRepresentable(text: string)
    requires ParsedText(text).Parsed?
    ensures forall i :: 0 <= i < |ParsedText(text).records| ==> Representable(ParsedText(text).records[i])
  {
    SplitPieces(text, '\n');
    ParsedRecordsRepresentable(HEADER, Split(text, '\n'), false, []);
  }

  /** Exactly the reports whose names hold no tab or newline and whose codes have a token survive. */
  lemma RoundTripIff(rs: seq<Record>)
    ensures ParsedText(Serialized(rs)) == Parsed(rs) <==> forall i :: 0 <= i < |rs| ==> Representable(rs[i])
  {
    if ParsedText(Serialized(rs)) == Parsed(rs) {
      AcceptedRecordsRepresentable(Serialized(rs));
    } else if forall i :: 0 <= i < |rs| ==> Representable(rs[i]) {
      RoundTrip(rs);
    }
  }

  const TabInName: Record := Record("a\tb", 0, 0, 0, true, Healed)

  /** A tab in a name splits it into two fields, so the report does not read back. */
  lemma TabInNameIsLost()
    ensures ParsedText(Serialized([TabInName])) != Parsed([TabInName])
  {
    assert TabInName.name[1] == '\t';
    assert [TabInName][0] == TabInName;
    RoundTripIff([TabInName]);
  }

  /** Whatever text was accepted, writing its records and reading them again gives the same records. */
  lemma AcceptedTextIsStable(text: string)
    requires ParsedText(text).Parsed?
    ensures ParsedText(Serialized(ParsedText(text).records)) == ParsedText(text)
  {
    AcceptedRecordsRepresentable(text);
    RoundTrip(ParsedText(text).records);
  }

  // ---------------------------------------------------------------------------------------
  // The loops
  // ---------------------------------------------------------------------------------------

  lemma {:induction false} TextAppend(lines: seq<string>, line: string)
    ensures Text(lines + [line], false) == Text(lines, false) + Ended(line, false)
  {
    if lines == [] {
      assert (lines + [line])[1..] == [];
      assert Text([], false) == "";
    } else {
      assert (lines + [line])[1..] == lines[1..] + [line];
      TextAppend(lines[1..], line);
      Associates(Ended(lines[0], false), Text(lines[1..], false), Ended(line, false));
    }
  }

  lemma JoinStep(pieces: seq<string>, k: nat, sep: char)
    requires k + 1 < |pieces|
    ensures Join(pieces[k..], sep) == pieces[k] + [sep] + Join(pieces[k + 1..], sep)
  {
    assert pieces[k..][1..] == pieces[k + 1..];
  }

  lemma Shift(x: string, a: string, s: string)
    ensures x + "\t" + (a + "\t" + s) == x + "\t" + a + "\t" + s
  {
  }

  lemma LineSpelledOut(r: Record)
    ensures Line(r) == r.name + "\t" + PrintSigned(r.nominal) + "\t" + PrintSigned(r.healed) + "\t"
                       + PrintSigned(r.delta) + "\t" + Flag(r.ok) + "\t" + Token(r.error)
  {
    SixFields(Fields(r));
  }

  lemma SixFields(f: seq<string>)
    requires |f| == 6
    ensures Join(f, '\t') == f[0] + "\t" + f[1] + "\t" + f[2] + "\t" + f[3] + "\t" + f[4] + "\t" + f[5]
  {
    var t := seq(6, k requires 0 <= k < 6 => Join(f[k..], '\t'));
    assert f[0..] == f && f[5..] == [f[5]];
    JoinStep(f, 0, '\t');
    JoinStep(f, 1, '\t');
    JoinStep(f, 2, '\t');
    JoinStep(f, 3, '\t');
    JoinStep(f, 4, '\t');
    Shift(f[0], f[1], t[2]);
    var x := f[0] + "\t" + f[1];
    Shift(x, f[2], t[3]);
    x := x + "\t" + f[2];
    Shift(x, f[3], t[4]);
    x := x + "\t" + f[3];
    Shift(x, f[4], t[5]);
  }

  method Serialize(entries: seq<Record>) returns (out: string)
    ensures out == Serialized(entries)
  {
    out := HEADER + "\n";
    var i := 0;
    while i < |entries|
      invariant 0 <= i <= |entries|
      invariant out == Serialized(entries[..i])
    {
      var r := entries[i];
      TextAppend(LinesOf(entries[..i]), Line(r));
      assert LinesOf(entries[..i]) + [Line(r)] == LinesOf(entries[..i + 1]);
      LineSpelledOut(r);
      Associates(Ended(HEADER, false), Text(LinesOf(entries[..i]), false), Ended(Line(r), false));
      var line := r.name + "\t" + PrintSigned(r.nominal) + "\t" + PrintSigned(r.healed) + "\t"
                  + PrintSigned(r.delta) + "\t" + Flag(r.ok) + "\t" + Token(r.error);
      out := out + (line + "\n");
      i := i + 1;
    }
    assert entries[..i] == entries;
  }

  /** At most six fields; a seventh stops the loop. */
  method SplitFields(line: string) returns (fields: seq<string>, tooMany: bool)
    ensures tooMany <==> |Split(line, '\t')| > 6
    ensures !tooMany ==> fields == Split(line, '\t')
  {
    fields, tooMany := [], false;
    ghost var all := Split(line, '\t');
    var pos := 0;
    PiecesFromStart(line, '\t');
    while pos <= |line|
      invariant |fields| <= 6 && all == fields + PiecesFrom(line, '\t', pos)
      decreases |line| + 1 - pos
    {
      if |fields| >= 6 {
        return fields, true;
      }
      var field, next := NextPiece(line, '\t', pos);
      Collects(fields, field, PiecesFrom(line, '\t', next));
      fields := fields + [field];
      pos := next;
    }
  }

  /** One turn of the parser's loop: a line is skipped, is the header, adds a record, or is refused. */
  method TakeLine(header: string, line: string, headerSeen: bool, records: seq<Record>, ghost rest: seq<string>)
    returns (refused: Option<Error>, seen: bool, taken: seq<Record>)
    ensures refused.Some? ==>
              ParseLines(header, ReadLine, [line] + rest, headerSeen, records) == Rejected(refused.value)
    ensures refused.None? ==>
              ParseLines(header, ReadLine, [line] + rest, headerSeen, records) ==
              ParseLines(header, ReadLine, rest, seen, taken)
  {
    ParseOneLine(header, ReadLine, line, rest, headerSeen, records);
    refused, seen, taken := None, headerSeen, records;
    var stripped := StripCr(line);
    if stripped == [] {
      return;
    }
    if !headerSeen {
      seen := true;
      refused := if stripped != header then Some(MissingHeader) else None;
      return;
    }
    var fields, tooMany := SplitFields(stripped);
    if tooMany || |fields| != 6 {
      return Some(MalformedLine), seen, taken;
    }
    var record := ReadFields(fields);
    if record.None? {
      return Some(MalformedLine), seen, taken;
    }
    taken := records + [record.value];
  }

  method ParseWith(header: string, text: string) returns (result: Result)
    ensures result == ParseLines(header, ReadLine, Split(text, '\n'), false, [])
  {
    var records: seq<Record> := [];
    var headerSeen := false;
    var pos := 0;
    ghost var expected := ParseLines(header, ReadLine, Split(text, '\n'), false, []);
    PiecesFromStart(text, '\n');
    while pos <= |text|
      invariant ParseLines(header, ReadLine, PiecesFrom(text, '\n', pos), headerSeen, records) == expected
      decreases |text| + 1 - pos
    {
      var line, next := NextPiece(text, '\n', pos);
      var refused: Option<Error>;
      refused, headerSeen, records := TakeLine(header, line, headerSeen, records, PiecesFrom(text, '\n', next));
      pos := next;
      if refused.Some? {
        return Rejected(refused.value);
      }
    }
    result := if headerSeen then Parsed(records) else Rejected(MissingHeader);
  }

  method Parse(text: string) returns (result: Result)
    ensures result == ParsedText(text)
  {
    result := ParseWith(HEADER, text);
  }
}
