/**
 Splitting text at a separator and joining it again.
 */
module Splitting {

  /** The pieces with a separator between each two. */
  function Join(pieces: seq<string>, sep: char): (s: string)
  {
    if pieces == [] then [] else if |pieces| == 1 then pieces[0]
    else pieces[0] + [sep] + Join(pieces[1..], sep)
  }

  /** The position of the first `c`, or the length. */
  function Find(s: string, c: char): (i: nat)
    ensures i <= |s| && (i < |s| ==> s[i] == c) && c !in s[..i]
  {
    if s == [] || s[0] == c then 0 else 1 + Find(s[1..], c)
  }

  /** The pieces between separators; always at least one. */
  function Split(s: string, sep: char): (pieces: seq<string>)
    ensures |pieces| > 0
    decreases |s|
  {
    var i := Find(s, sep);
    if i == |s| then [s] else [s[..i]] + Split(s[i + 1..], sep)
  }

  lemma {:induction false} FindIn(a: string, sep: char, b: string)
    requires sep !in a
    ensures Find(a + [sep] + b, sep) == |a|
  {
    if a != [] {
      assert (a + [sep] + b)[1..] == a[1..] + [sep] + b;
      FindIn(a[1..], sep, b);
    }
  }

  lemma {:induction false} FindNone(a: string, sep: char)
    requires sep !in a
    ensures Find(a, sep) == |a|
  {
    if a != [] {
      FindNone(a[1..], sep);
    }
  }

  lemma SplitFirst(a: string, sep: char, b: string)
    requires sep !in a
    ensures Split(a + [sep] + b, sep) == [a] + Split(b, sep)
  {
    FindIn(a, sep, b);
    var s := a + [sep] + b;
    assert s[..|a|] == a && s[|a| + 1..] == b;
  }

  /** Splitting undoes joining when no piece holds the separator. */
  lemma {:induction false} SplitJoined(pieces: seq<string>, sep: char)
    requires |pieces| > 0 && forall i :: 0 <= i < |pieces| ==> sep !in pieces[i]
    ensures Split(Join(pieces, sep), sep) == pieces
  {
    if |pieces| == 1 {
      FindNone(pieces[0], sep);
    } else {
      SplitJoined(pieces[1..], sep);
      SplitFirst(pieces[0], sep, Join(pieces[1..], sep));
    }
  }

  lemma {:induction false} SplitPieces(s: string, sep: char)
    ensures forall i :: 0 <= i < |Split(s, sep)| ==> sep !in Split(s, sep)[i]
    decreases |s|
  {
    var i := Find(s, sep);
    if i < |s| {
      SplitPieces(s[i + 1..], sep);
    }
  }

  lemma {:induction false} SplitCharacters(s: string, sep: char, k: nat, c: char)
    requires k < |Split(s, sep)| && c in Split(s, sep)[k]
    ensures c in s
    decreases |s|
  {
    var i := Find(s, sep);
    if i < |s| && k > 0 {
      SplitCharacters(s[i + 1..], sep, k - 1, c);
    }
  }

  lemma {:induction false} JoinedHasNo(pieces: seq<string>, sep: char, c: char)
    requires c != sep && forall i :: 0 <= i < |pieces| ==> c !in pieces[i]
    ensures c !in Join(pieces, sep)
  {
    if |pieces| > 1 {
      JoinedHasNo(pieces[1..], sep, c);
    }
  }

  lemma {:induction false} JoinEnds(pieces: seq<string>, sep: char)
    requires |pieces| > 0 && pieces[|pieces| - 1] != []
    ensures var last := pieces[|pieces| - 1];
            Join(pieces, sep) != [] && Join(pieces, sep)[|Join(pieces, sep)| - 1] == last[|last| - 1]
  {
    if |pieces| > 1 {
      JoinEnds(pieces[1..], sep);
    }
  }

  /** The next piece from `pos` on, and where the one after it starts: past the end if there is none. */
  method NextPiece(s: string, sep: char, pos: nat) returns (piece: string, next: nat)
    requires pos <= |s|
    ensures pos < next <= |s| + 1
    ensures PiecesFrom(s, sep, pos) == [piece] + PiecesFrom(s, sep, next)
    ensures next == |s| + 1 ==> PiecesFrom(s, sep, pos) == [piece]
  {
    var rest := s[pos..];
    var i := Find(rest, sep);
    piece, next := rest[..i], pos + i + 1;
    if i == |rest| {
      assert piece == rest;
    } else {
      assert rest[i + 1..] == s[next..];
    }
  }

  function PiecesFrom(s: string, sep: char, pos: nat): (r: seq<string>)
    ensures pos <= |s| ==> |r| > 0
  {
    if pos <= |s| then Split(s[pos..], sep) else []
  }

  lemma PiecesFromStart(s: string, sep: char)
    ensures PiecesFrom(s, sep, 0) == Split(s, sep)
  {
    assert s[0..] == s;
  }

  lemma Collects(done: seq<string>, piece: string, rest: seq<string>)
    ensures done + ([piece] + rest) == done + [piece] + rest
  {
  }
}
