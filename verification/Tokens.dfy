/**
 The value tokens of a manifest: numbers, booleans and offset lists, as they are written and as they are
 read back with surrounding blanks, either case and a sign.
 */
module Tokens {
  import opened MachineInts
  import opened Options
  import opened Ascii
  import opened Numerals
  import opened Splitting

  predicate IsSpace(c: char)
  {
    c == ' ' || c == '\t' || c == '\r' || c == '\n'
  }

  function TrimLeft(s: string): (r: string)
  {
    if s != [] && IsSpace(s[0]) then TrimLeft(s[1..]) else s
  }

  function TrimRight(s: string): (r: string)
  {
    if s != [] && IsSpace(s[|s| - 1]) then TrimRight(s[..|s| - 1]) else s
  }

  function Trim(s: string): (r: string)
  {
    TrimRight(TrimLeft(s))
  }

  predicate AllBlank(s: string)
  {
    forall i :: 0 <= i < |s| ==> IsSpace(s[i])
  }

  lemma {:induction false} TrimLeftMeans(s: string) returns (before: string)
    ensures s == before + TrimLeft(s) && AllBlank(before)
    ensures TrimLeft(s) == [] || !IsSpace(TrimLeft(s)[0])
  {
    before := [];
    if s != [] && IsSpace(s[0]) {
      var rest := TrimLeftMeans(s[1..]);
      before := [s[0]] + rest;
    }
  }

  lemma {:induction false} TrimRightMeans(s: string) returns (after: string)
    ensures s == TrimRight(s) + after && AllBlank(after)
    ensures TrimRight(s) == [] || (TrimRight(s)[0] == s[0] && !IsSpace(TrimRight(s)[|TrimRight(s)| - 1]))
  {
    after := [];
    if s != [] && IsSpace(s[|s| - 1]) {
      var rest := TrimRightMeans(s[..|s| - 1]);
      after := rest + [s[|s| - 1]];
    }
  }

  /** Trimming takes away blanks at both ends, and all of them. */
  lemma TrimMeans(s: string) returns (before: string, after: string)
    ensures s == before + Trim(s) + after && AllBlank(before) && AllBlank(after)
    ensures Trim(s) == [] || (!IsSpace(Trim(s)[0]) && !IsSpace(Trim(s)[|Trim(s)| - 1]))
  {
    before := TrimLeftMeans(s);
    after := TrimRightMeans(TrimLeft(s));
  }

  function Lower(s: string): (r: string)
    ensures |r| == |s| && forall i :: 0 <= i < |s| ==> r[i] == LowerChar(s[i])
  {
    if s == [] then [] else [LowerChar(s[0])] + Lower(s[1..])
  }

  /** Neither blank nor upper case. */
  predicate Plain(s: string)
  {
    forall i :: 0 <= i < |s| ==> !IsSpace(s[i]) && LowerChar(s[i]) == s[i]
  }

  predicate NoBlanks(s: string)
  {
    forall i :: 0 <= i < |s| ==> !IsSpace(s[i])
  }

  lemma TrimKeeps(s: string)
    requires NoBlanks(s)
    ensures Trim(s) == s && Trim(" " + s) == s
  {
    assert (" " + s)[1..] == s;
  }

  /** Normalising a plain token leaves it alone. */
  lemma PlainReads(s: string)
    requires Plain(s)
    ensures Lower(Trim(s)) == s
  {
    TrimKeeps(s);
  }

  // Numbers.

  predicate HasHexPrefix(s: string)
  {
    |s| >= 2 && s[0] == '0' && (s[1] == 'x' || s[1] == 'X')
  }

  function ParseMagnitude(body: string): (r: Option<nat>)
    ensures r.Some? ==> r.value < TWO_64
  {
    if HasHexPrefix(body) then Read(body[2..], 16, TWO_64) else Read(body, 10, TWO_64)
  }

  function ParseSigned(token: string): (r: Option<i64>)
  {
    var t := Trim(token);
    if t == [] then None
    else
      var negative := t[0] == '-';
      var m := ParseMagnitude(if t[0] == '+' || t[0] == '-' then t[1..] else t);
      if m.None? then None
      else if negative then (if m.value > TWO_63 then None else Some(-(m.value as int)))
      else if m.value >= TWO_63 then None else Some(m.value)
  }

  function ParseUnsigned(token: string): (r: Option<nat>)
    ensures r.Some? ==> r.value < TWO_64
  {
    var t := Trim(token);
    if t == [] || t[0] == '-' then None else ParseMagnitude(if t[0] == '+' then t[1..] else t)
  }

  function ParseByte(token: string): (r: Option<u8>)
  {
    var v := ParseUnsigned(token);
    if v.None? || v.value > 0xFF then None else Some(v.value)
  }

  function Hex(n: nat): (s: string)
    ensures |s| > 2
  {
    "0x" + Print(n, 16)
  }

  function SignedHex(n: i64): (s: string)
    ensures |s| > 2
  {
    if n < 0 then "-" + Hex(-(n as int)) else Hex(n)
  }

  lemma NumeralHasNoBlanks(s: string, base: nat)
    requires IsNumeral(s, base) && base <= 16
    ensures NoBlanks(s)
  {
  }

  lemma HexReads(n: nat)
    requires n < TWO_64
    ensures ParseMagnitude(Hex(n)) == Some(n) && NoBlanks(Hex(n)) && Hex(n)[0] == '0'
  {
    ReadPrinted(n, 16, TWO_64);
    PrintedIsNumeral(n, 16);
    NumeralHasNoBlanks(Print(n, 16), 16);
    assert Hex(n)[2..] == Print(n, 16);
  }

  lemma DecimalReads(n: nat)
    requires n < TWO_64
    ensures ParseMagnitude(Print(n, 10)) == Some(n) && NoBlanks(Print(n, 10))
    ensures Print(n, 10)[0] != '-' && Print(n, 10)[0] != '+'
  {
    ReadPrinted(n, 10, TWO_64);
    PrintedIsNumeral(n, 10);
    NumeralHasNoBlanks(Print(n, 10), 10);
  }

  /** Signed hex tokens read back for every 64-bit value, the least one included. */
  lemma SignedHexReads(n: i64)
    ensures ParseSigned(SignedHex(n)) == Some(n) && NoBlanks(SignedHex(n))
  {
    var m := if n < 0 then -(n as int) else n as int;
    HexReads(m);
    TrimKeeps(SignedHex(n));
    if n < 0 {
      assert SignedHex(n)[1..] == Hex(m);
    }
  }

  lemma DecimalTokenReads(n: u64)
    ensures ParseUnsigned(Print(n, 10)) == Some(n)
    ensures n <= 0xFF ==> ParseByte(Print(n, 10)) == Some(n)
  {
    DecimalReads(n);
    TrimKeeps(Print(n, 10));
  }

  lemma HexTokenReads(n: u64)
    ensures ParseUnsigned(Hex(n)) == Some(n)
  {
    HexReads(n);
    TrimKeeps(Hex(n));
  }

  // Booleans.

  function BoolToken(b: bool): (s: string)
  {
    if b then "true" else "false"
  }

  function ParseBool(token: string): (r: Option<bool>)
  {
    var t := Lower(Trim(token));
    if t == "true" || t == "1" || t == "yes" || t == "on" then Some(true)
    else if t == "false" || t == "0" || t == "no" || t == "off" then Some(false)
    else None
  }

  lemma BoolReads(b: bool)
    ensures ParseBool(BoolToken(b)) == Some(b)
  {
    PlainReads(BoolToken(b));
  }

  // Offset lists.

  function OffsetPiece(n: i64, first: bool): (s: string)
  {
    if first then SignedHex(n) else " " + SignedHex(n)
  }

  /** One piece per offset, each after the first behind a blank. */
  function OffsetPieces(offsets: seq<i64>): (r: seq<string>)
    ensures |r| == |offsets| && forall i :: 0 <= i < |offsets| ==> r[i] == OffsetPiece(offsets[i], i == 0)
  {
    seq(|offsets|, i requires 0 <= i < |offsets| => OffsetPiece(offsets[i], i == 0))
  }

  function OffsetsToken(offsets: seq<i64>): (s: string)
  {
    Join(OffsetPieces(offsets), ',')
  }

  datatype Piece = Blank | Bad | Offset(value: i64)

  function ReadPiece(piece: string): (r: Piece)
  {
    var t := Trim(piece);
    if t == [] then Blank
    else
      var v := ParseSigned(t);
      if v.None? then Bad else Offset(v.value)
  }

  /** Blank pieces are skipped, and one bad piece rejects the list. */
  function ReadPieces(read: string -> Piece, pieces: seq<string>): (r: Option<seq<i64>>)
  {
    if pieces == [] then Some([])
    else
      var rest := ReadPieces(read, pieces[..|pieces| - 1]);
      match read(pieces[|pieces| - 1])
      case Blank => rest
      case Bad => None
      case Offset(v) => if rest.None? then None else Some(rest.value + [v])
  }

  function ParseOffsets(token: string): (r: Option<seq<i64>>)
  {
    ReadPieces(ReadPiece, Split(token, ','))
  }

  lemma TokenIsOffset(t: string, n: i64)
    requires NoBlanks(t) && t != [] && ParseSigned(t) == Some(n)
    ensures ReadPiece(t) == Offset(n) && ReadPiece(" " + t) == Offset(n)
  {
    TrimKeeps(t);
  }

  lemma SignedHexHasNoComma(n: i64)
    ensures ',' !in SignedHex(n) && ',' !in " " + SignedHex(n)
  {
    PrintedHasNo(if n < 0 then -(n as int) else n as int, 16, ',');
  }

  lemma OffsetPieceReads(n: i64, first: bool)
    ensures ReadPiece(OffsetPiece(n, first)) == Offset(n) && ',' !in OffsetPiece(n, first)
  {
    SignedHexReads(n);
    TokenIsOffset(SignedHex(n), n);
    SignedHexHasNoComma(n);
  }

  lemma {:induction false} PiecesRead(read: string -> Piece, pieces: seq<string>, offsets: seq<i64>)
    requires |pieces| == |offsets| && forall i :: 0 <= i < |offsets| ==> read(pieces[i]) == Offset(offsets[i])
    ensures ReadPieces(read, pieces) == Some(offsets)
  {
    if pieces != [] {
      var k := |pieces| - 1;
      PiecesRead(read, pieces[..k], offsets[..k]);
      assert offsets == offsets[..k] + [offsets[k]];
    }
  }

  /** Every list of 64-bit offsets reads back. */
  lemma OffsetsRead(offsets: seq<i64>)
    ensures ParseOffsets(OffsetsToken(offsets)) == Some(offsets)
  {
    forall i | 0 <= i < |offsets|
      ensures ReadPiece(OffsetPieces(offsets)[i]) == Offset(offsets[i]) && ',' !in OffsetPieces(offsets)[i]
    {
      OffsetPieceReads(offsets[i], i == 0);
    }
    if offsets == [] {
      assert Split("", ',') == [""] && [""][..0] == [];
      assert ReadPiece("") == Blank;
    } else {
      SplitJoined(OffsetPieces(offsets), ',');
      PiecesRead(ReadPiece, OffsetPieces(offsets), offsets);
    }
  }

  lemma ReadOneMore(read: string -> Piece, done: seq<string>, piece: string)
    ensures ReadPieces(read, done + [piece]) ==
            match read(piece)
            case Blank => ReadPieces(read, done)
            case Bad => None
            case Offset(v) =>
              if ReadPieces(read, done).None? then None else Some(ReadPieces(read, done).value + [v])
  {
    assert (done + [piece])[..|done|] == done;
  }

  lemma {:induction false} BadPieceRejects(read: string -> Piece, done: seq<string>, rest: seq<string>)
    requires ReadPieces(read, done).None?
    ensures ReadPieces(read, done + rest).None?
  {
    if rest == [] {
      assert done + rest == done;
    } else {
      var k := |rest| - 1;
      BadPieceRejects(read, done, rest[..k]);
      assert done + rest == done + rest[..k] + [rest[k]];
      ReadOneMore(read, done + rest[..k], rest[k]);
    }
  }

  /** The parser's loop over the commas. */
  method ReadOffsets(token: string) returns (r: Option<seq<i64>>)
    ensures r == ParseOffsets(token)
  {
    var offsets: seq<i64> := [];
    var pos := 0;
    ghost var all := Split(token, ',');
    ghost var done: seq<string> := [];
    PiecesFromStart(token, ',');
    while pos <= |token|
      invariant all == done + PiecesFrom(token, ',', pos)
      invariant ReadPieces(ReadPiece, done) == Some(offsets)
      decreases |token| + 1 - pos
    {
      var piece, next := NextPiece(token, ',', pos);
      Collects(done, piece, PiecesFrom(token, ',', next));
      ReadOneMore(ReadPiece, done, piece);
      done := done + [piece];
      pos := next;
      match ReadPiece(piece) {
        case Blank =>
        case Bad =>
          BadPieceRejects(ReadPiece, done, PiecesFrom(token, ',', next));
          return None;
        case Offset(v) =>
          offsets := offsets + [v];
      }
    }
    assert all == done;
    r := Some(offsets);
  }

  lemma {:induction false} JoinAppend(pieces: seq<string>, piece: string, sep: char)
    requires pieces != []
    ensures Join(pieces + [piece], sep) == Join(pieces, sep) + [sep] + piece
  {
    if |pieces| == 1 {
      assert (pieces + [piece])[1..] == [piece];
    } else {
      assert (pieces + [piece])[1..] == pieces[1..] + [piece];
      JoinAppend(pieces[1..], piece, sep);
      var a, b := pieces[0] + [sep], Join(pieces[1..], sep);
      assert a + (b + [sep] + piece) == a + b + [sep] + piece;
    }
  }

  /** The writer's loop: ", " before every offset but the first. */
  method WriteOffsets(offsets: seq<i64>) returns (s: string)
    ensures s == OffsetsToken(offsets)
  {
    s := "";
    var i := 0;
    while i < |offsets|
      invariant 0 <= i <= |offsets|
      invariant s == OffsetsToken(offsets[..i])
    {
      var piece := OffsetPiece(offsets[i], i == 0);
      assert OffsetPieces(offsets[..i + 1]) == OffsetPieces(offsets[..i]) + [piece];
      if i != 0 {
        JoinAppend(OffsetPieces(offsets[..i]), piece, ',');
        Comma(s, SignedHex(offsets[i]));
        s := s + ", ";
      }
      s := s + SignedHex(offsets[i]);
      i := i + 1;
    }
    assert offsets[..i] == offsets;
  }

  lemma Comma(s: string, t: string)
    ensures s + [','] + (" " + t) == s + ", " + t
  {
  }
}
