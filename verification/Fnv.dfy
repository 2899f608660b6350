/**
 The 64-bit FNV-1a fold used for drift fingerprints (xor the byte in, then multiply by an odd
 prime modulo 2^64), and why editing one folded byte, or up to four adjacent ones, can never leave
 the hash unchanged.
 */
module Fnv {
  import opened MachineInts

  const OFFSET_BASIS: u64 := 14695981039346656037
  const PRIME: u64 := 1099511628211
  // The inverse of PRIME modulo 2^64; PrimeIsInvertible checks it.
  const PRIME_INVERSE: u64 := 0xce965057aff6957b

  function XorBit(a: nat, b: nat): (r: nat)
  {
    if a == b then 0 else 1
  }

  /** Bitwise exclusive or. */
  function Xor(a: nat, b: nat): (r: nat)
    decreases a + b
  {
    if a == 0 && b == 0 then 0 else XorBit(a % 2, b % 2) + 2 * Xor(a / 2, b / 2)
  }

  function Pow2(n: nat): (r: nat)
    ensures r > 0
  {
    if n == 0 then 1 else 2 * Pow2(n - 1)
  }

  lemma {:induction false} XorRange(a: nat, b: nat, bits: nat)
    requires a < Pow2(bits) && b < Pow2(bits)
    ensures Xor(a, b) < Pow2(bits)
    decreases bits
  {
    if bits > 0 && (a > 0 || b > 0) {
      XorRange(a / 2, b / 2, bits - 1);
    }
  }

  /** Xor acts on the lowest bit and on the remaining bits separately. */
  lemma XorSplits(a: nat, b: nat)
    ensures Xor(a, b) % 2 == XorBit(a % 2, b % 2)
    ensures Xor(a, b) / 2 == Xor(a / 2, b / 2)
  {
    var low, high := XorBit(a % 2, b % 2), Xor(a / 2, b / 2);
    assert Xor(a, b) == low + 2 * high;
    HalvesOf(low, high);
  }

  lemma HalvesOf(low: nat, high: nat)
    requires low < 2
    ensures (low + 2 * high) % 2 == low && (low + 2 * high) / 2 == high
  {
  }

  lemma SameHalves(x: nat, y: nat)
    requires x / 2 == y / 2 && x % 2 == y % 2
    ensures x == y
  {
  }

  /** Xor with a fixed operand undoes itself, so it loses nothing. */
  lemma {:induction false} XorUndoes(a: nat, b: nat)
    ensures Xor(Xor(a, b), b) == a
    decreases a + b
  {
    if a > 0 || b > 0 {
      var x := Xor(a, b);
      XorSplits(a, b);
      XorSplits(x, b);
      XorUndoes(a / 2, b / 2);
      SameHalves(Xor(x, b), a);
    }
  }

  lemma {:induction false} XorSymmetric(a: nat, b: nat)
    ensures Xor(a, b) == Xor(b, a)
    decreases a + b
  {
    if a > 0 || b > 0 {
      XorSymmetric(a / 2, b / 2);
    }
  }

  lemma {:induction false} Pow2Adds(m: nat, n: nat)
    ensures Pow2(m + n) == Pow2(m) * Pow2(n)
  {
    if m > 0 {
      Pow2Adds(m - 1, n);
    }
  }

  lemma WordSize()
    ensures Pow2(64) == TWO_64
  {
    assert Pow2(4) == 16;
    Pow2Adds(4, 4);
    Pow2Adds(8, 8);
    Pow2Adds(16, 16);
    Pow2Adds(32, 32);
  }

  /** The 64-bit word `hash ^ value`. */
  function XorWord(hash: u64, value: u8): (r: u64)
  {
    WordSize();
    XorRange(hash, value, 64);
    Xor(hash, value)
  }

  /** One FNV-1a step. */
  function Step(hash: u64, value: u8): (r: u64)
  {
    XorWord(hash, value) * PRIME % TWO_64
  }

  /** The fold of a whole byte stream. */
  function Fold(hash: u64, stream: seq<u8>): (r: u64)
    decreases |stream|
  {
    if stream == [] then hash else Fold(Step(hash, stream[0]), stream[1..])
  }

  /** Xor as a function value, to chain its bits without unfolding it. */
  ghost predicate IsXor(xor: (nat, nat) -> nat)
  {
    forall a: nat, b: nat {:trigger Xor(a, b)} :: xor(a, b) == Xor(a, b)
  }

  lemma XorBits(a: nat, b: nat, r: nat, i: nat, j: nat)
    requires i < 2 && j < 2 && Xor(a, b) == r
    ensures Xor(2 * a + i, 2 * b + j) == 2 * r + if i == j then 0 else 1
  {
  }

  lemma XorNext(xor: (nat, nat) -> nat, a: nat, b: nat, r: nat, i: nat, j: nat)
    requires IsXor(xor) && i < 2 && j < 2 && xor(a, b) == r
    ensures xor(2 * a + i, 2 * b + j) == 2 * r + if i == j then 0 else 1
  {
    XorBits(a, b, r, i, j);
  }

  lemma XorLetter(xor: (nat, nat) -> nat, h: nat)
    requires IsXor(xor) && xor(h, 0) == h
    ensures xor(128 * h + 37, 97) == 128 * h + 68
  {
    XorNext(xor, h, 0, h, 0, 1);
    XorNext(xor, 2 * h, 1, 2 * h + 1, 1, 1);
    XorNext(xor, 4 * h + 1, 3, 4 * h + 2, 0, 0);
    XorNext(xor, 8 * h + 2, 6, 8 * h + 4, 0, 0);
    XorNext(xor, 16 * h + 4, 12, 16 * h + 8, 1, 0);
    XorNext(xor, 32 * h + 9, 24, 32 * h + 17, 0, 0);
    XorNext(xor, 64 * h + 18, 48, 64 * h + 34, 1, 1);
  }

  lemma XorKnown(xor: (nat, nat) -> nat, basis: u64, letter: u8)
    requires IsXor(xor) && basis == 14695981039346656037 && letter == 0x61
    ensures xor(basis, letter) == 14695981039346656068
  {
    XorZero(114812351869895750);
    XorLetter(xor, 114812351869895750);
  }

  lemma StepIs(xor: (nat, nat) -> nat, h: u64, value: u8)
    requires IsXor(xor)
    ensures Fold(h, [value]) == xor(h, value) * PRIME % TWO_64
  {
    assert [value][1..] == [];
  }

  lemma KnownProduct(x: nat)
    requires x == 14695981039346656068
    ensures x * PRIME % TWO_64 == 0xaf63dc4c8601ec8c
  {
  }

  lemma KnownFold(xor: (nat, nat) -> nat, fold: u64, basis: u64, letter: u8)
    requires IsXor(xor) && basis == 14695981039346656037 && letter == 0x61
    requires fold == xor(basis, letter) * PRIME % TWO_64
    ensures fold == 0xaf63dc4c8601ec8c
  {
    XorKnown(xor, basis, letter);
    KnownProduct(xor(basis, letter));
  }

  /** The published test value of FNV-1a 64: the hash of the letter a. */
  lemma KnownAnswer(basis: u64, letter: u8)
    requires basis == OFFSET_BASIS && letter == 0x61
    ensures Fold(basis, [letter]) == 0xaf63dc4c8601ec8c
  {
    var xor := (a: nat, b: nat) => Xor(a, b);
    StepIs(xor, basis, letter);
    KnownFold(xor, Fold(basis, [letter]), basis, letter);
  }

  lemma XorWordInjective(h: u64, g: u64, a: u8, b: u8)
    requires XorWord(h, a) == XorWord(g, b)
    requires h == g || a == b
    ensures h == g && a == b
  {
    if a == b {
      XorUndoes(h, a);
      XorUndoes(g, a);
    } else {
      XorSymmetric(h, a);
      XorSymmetric(h, b);
      XorUndoes(a, h);
      XorUndoes(b, h);
    }
  }

  /** Multiplying by the FNV prime is invertible modulo 2^64, because the prime is odd. */
  lemma PrimeIsInvertible(x: u64, y: u64)
    requires x * PRIME % TWO_64 == y * PRIME % TWO_64
    ensures x == y
  {
    var d := x - y;
    var q := x * PRIME / TWO_64 - y * PRIME / TWO_64;
    assert d * PRIME == q * TWO_64;
    var k := PRIME * PRIME_INVERSE / TWO_64;
    assert PRIME * PRIME_INVERSE == 1 + k * TWO_64;
    var t := q * PRIME_INVERSE - d * k;
    calc {
      d;
      d * (1 + k * TWO_64) - d * (k * TWO_64);
      d * (PRIME * PRIME_INVERSE) - d * k * TWO_64;
      (d * PRIME) * PRIME_INVERSE - d * k * TWO_64;
      q * TWO_64 * PRIME_INVERSE - d * k * TWO_64;
      t * TWO_64;
    }
    assert -TWO_64 < t * TWO_64 < TWO_64;
    assert t == 0;
  }

  /** A step loses neither the hash (for a fixed byte) nor the byte (for a fixed hash). */
  lemma StepInjective(h: u64, g: u64, a: u8, b: u8)
    requires Step(h, a) == Step(g, b)
    requires h == g || a == b
    ensures h == g && a == b
  {
    PrimeIsInvertible(XorWord(h, a), XorWord(g, b));
    XorWordInjective(h, g, a, b);
  }

  lemma {:induction false} FoldConcat(hash: u64, s: seq<u8>, t: seq<u8>)
    ensures Fold(hash, s + t) == Fold(Fold(hash, s), t)
    decreases |s|
  {
    if s == [] {
      assert s + t == t;
    } else {
      assert (s + t)[0] == s[0] && (s + t)[1..] == s[1..] + t;
      FoldConcat(Step(hash, s[0]), s[1..], t);
    }
  }

  lemma FoldThree(h: u64, x: u8, y: u8, z: u8)
    ensures Fold(h, [x, y, z]) == Step(Step(Step(h, x), y), z)
  {
    assert [x, y, z][1..] == [y, z] && [y, z][1..] == [z] && [z][1..] == [];
    assert Fold(h, [x, y, z]) == Fold(Step(h, x), [y, z]) == Fold(Step(Step(h, x), y), [z]);
  }

  /** For a fixed stream, different starting hashes end in different hashes. */
  lemma {:induction false} FoldInjective(h: u64, g: u64, stream: seq<u8>)
    ensures Fold(h, stream) == Fold(g, stream) <==> h == g
    decreases |stream|
  {
    if stream != [] {
      FoldInjective(Step(h, stream[0]), Step(g, stream[0]), stream[1..]);
      if Step(h, stream[0]) == Step(g, stream[0]) {
        StepInjective(h, g, stream[0], stream[0]);
      }
    }
  }

  /** Streams of equal length that differ at index `at` and nowhere else. */
  predicate DifferOnlyAt(s: seq<u8>, t: seq<u8>, at: nat)
  {
    && |s| == |t|
    && at < |s|
    && s[at] != t[at]
    && forall i :: 0 <= i < |s| && i != at ==> s[i] == t[i]
  }

  /** No one-byte edit of a folded stream collides, wherever it is and whatever surrounds it. */
  lemma OneByteEditChangesHash(hash: u64, s: seq<u8>, t: seq<u8>, at: nat)
    requires DifferOnlyAt(s, t, at)
    ensures Fold(hash, s) != Fold(hash, t)
  {
    var before, after := s[..at], s[at + 1..];
    assert s == before + [s[at]] + after;
    assert t == before + [t[at]] + after;
    FoldConcat(hash, before + [s[at]], after);
    FoldConcat(hash, before + [t[at]], after);
    FoldConcat(hash, before, [s[at]]);
    FoldConcat(hash, before, [t[at]]);
    var h := Fold(hash, before);
    assert Fold(h, [s[at]]) == Step(h, s[at]) by { assert [s[at]][1..] == []; }
    assert Fold(h, [t[at]]) == Step(h, t[at]) by { assert [t[at]][1..] == []; }
    if Fold(hash, s) == Fold(hash, t) {
      FoldInjective(Step(h, s[at]), Step(h, t[at]), after);
      StepInjective(h, h, s[at], t[at]);
    }
  }

  // ---------------------------------------------------------------------------------------
  // Edits of up to four adjacent bytes
  // ---------------------------------------------------------------------------------------

  function Halved(x: nat, times: nat): (r: nat)
  {
    if times == 0 then x else Halved(x / 2, times - 1)
  }

  lemma FourHalves(x: nat, more: nat)
    ensures Halved(x, more + 4) == Halved(x / 16, more)
  {
    assert Halved(x, more + 4) == Halved(x / 2, more + 3) == Halved(x / 2 / 2, more + 2);
    assert Halved(x / 2 / 2, more + 2) == Halved(x / 2 / 2 / 2, more + 1) == Halved(x / 2 / 2 / 2 / 2, more);
    assert x / 2 / 2 / 2 / 2 == x / 16;
  }

  lemma EightHalves(x: nat)
    ensures Halved(x, 8) == x / 256
  {
    FourHalves(x, 4);
    FourHalves(x / 16, 0);
  }

  lemma {:induction false} XorZero(a: nat)
    ensures Xor(a, 0) == a
  {
    if a > 0 {
      XorZero(a / 2);
    }
  }

  lemma {:induction false} XorKeepsHigh(h: nat, a: nat, bits: nat)
    requires a < Pow2(bits)
    ensures Halved(Xor(h, a), bits) == Halved(h, bits)
    decreases bits
  {
    if bits == 0 {
      XorZero(h);
    } else {
      XorSplits(h, a);
      XorKeepsHigh(h / 2, a / 2, bits - 1);
    }
  }

  /** A byte xored in changes the low byte only. */
  lemma XorWordNear(h: u64, a: u8)
    ensures XorWord(h, a) / 256 == h / 256
  {
    assert Pow2(4) == 16;
    Pow2Adds(4, 4);
    XorKeepsHigh(h, a, 8);
    EightHalves(h);
    EightHalves(XorWord(h, a));
  }

  lemma NearBy(x: nat, y: nat)
    requires x / 256 == y / 256
    ensures -255 <= x - y <= 255
  {
  }

  lemma ProductsDiffer(x: u64, y: u64) returns (k: int)
    ensures x * PRIME % TWO_64 - y * PRIME % TWO_64 == (x - y) * PRIME + k * TWO_64
  {
    k := y * PRIME / TWO_64 - x * PRIME / TWO_64;
  }

  lemma XorGap(h: u64, g: u64, a: u8, b: u8) returns (e: int)
    ensures -510 <= e <= 510 && (h == g ==> -255 <= e <= 255)
    ensures XorWord(h, a) - XorWord(g, b) == h - g + e
  {
    XorWordNear(h, a);
    XorWordNear(g, b);
    NearBy(XorWord(h, a), h);
    NearBy(XorWord(g, b), g);
    if h == g {
      NearBy(XorWord(h, a), XorWord(g, b));
    }
    e := XorWord(h, a) - XorWord(g, b) - (h - g);
  }

  /** Multiplication of a gap by the prime, modulo 2^64. */
  ghost predicate Times(x: int, y: int)
  {
    exists k :: y == x * PRIME + k * TWO_64
  }

  /** The step and the multiplication as functions, to keep proofs about chains of them apart from arithmetic. */
  ghost predicate Arithmetic(step: (u64, u8) -> u64, times: (int, int) -> bool)
  {
    && (forall h: u64, a: u8 {:trigger Step(h, a)} :: step(h, a) == Step(h, a))
    && (forall x, y {:trigger Times(x, y)} :: times(x, y) == Times(x, y))
  }

  /** One more step multiplies the gap of two hashes by the prime, after a nudge of at most two bytes. */
  lemma StepGap(step: (u64, u8) -> u64, times: (int, int) -> bool, h: u64, g: u64, a: u8, b: u8) returns (e: int)
    requires Arithmetic(step, times)
    ensures -510 <= e <= 510 && times(h - g + e, step(h, a) - step(g, b))
  {
    e := XorGap(h, g, a, b);
    var k := ProductsDiffer(XorWord(h, a), XorWord(g, b));
    assert step(h, a) == Step(h, a) && step(g, b) == Step(g, b);
    assert Times(h - g + e, step(h, a) - step(g, b));
  }

  /** From one hash only a change of the byte opens a gap. */
  lemma FirstGap(step: (u64, u8) -> u64, times: (int, int) -> bool, h: u64, a: u8, b: u8) returns (d: int)
    requires Arithmetic(step, times)
    ensures -255 <= d <= 255 && times(d, step(h, a) - step(h, b))
    ensures d == 0 ==> a == b
  {
    d := XorGap(h, h, a, b);
    var k := ProductsDiffer(XorWord(h, a), XorWord(h, b));
    assert step(h, a) == Step(h, a) && step(h, b) == Step(h, b);
    assert Times(d, step(h, a) - step(h, b));
    if d == 0 {
      XorWordInjective(h, h, a, b);
    }
  }

  /** Hashes that meet in a step were within two bytes of each other. */
  lemma LastGap(step: (u64, u8) -> u64, times: (int, int) -> bool, h: u64, g: u64, a: u8, b: u8) returns (e: int)
    requires Arithmetic(step, times) && step(h, a) == step(g, b)
    ensures -510 <= e <= 510 && h - g + e == 0
  {
    assert step(h, a) == Step(h, a) && step(g, b) == Step(g, b);
    PrimeIsInvertible(XorWord(h, a), XorWord(g, b));
    e := XorGap(h, g, a, b);
  }

  /** The cube and the square of the prime, modulo 2^64, split at 2^40. */
  lemma PrimePowers(d: int, e: int, f: int)
    ensures ((d * 1099511628211 + e) * 1099511628211 + f) * 1099511628211 ==
            0x100_0000_0000 * (567675 * d + 870 * e + f) + 82312875 * d + 189225 * e + 435 * f
            + (d * 72057594123452416 + e * 65536) * 0x1_0000_0000_0000_0000
  {
  }

  lemma NoSmallGap(d: int, e: int, f: int, g: int, k: int)
    requires -255 <= d <= 255 && -510 <= e <= 510 && -510 <= f <= 510 && -510 <= g <= 510
    requires 0x100_0000_0000 * (567675 * d + 870 * e + f) + 82312875 * d + 189225 * e + 435 * f + g ==
             k * 0x1_0000_0000_0000_0000
    ensures d == 0
  {
    var high := 567675 * d + 870 * e + f - k * 0x100_0000;
    var low := 82312875 * d + 189225 * e + 435 * f + g;
    assert 0x100_0000_0000 * high + low == 0;
    assert high == 0 && low == 0;
    assert -1 <= d <= 1;
  }

  /** A gap that four bytes close again was never open. */
  lemma GapsCompose(step: (u64, u8) -> u64, times: (int, int) -> bool, d: int, e: int, f: int, g: int,
                    x1: int, x2: int, x3: int)
    requires Arithmetic(step, times)
    requires -255 <= d <= 255 && -510 <= e <= 510 && -510 <= f <= 510 && -510 <= g <= 510
    requires times(d, x1) && times(x1 + e, x2) && times(x2 + f, x3) && x3 + g == 0
    ensures d == 0
  {
    assert Times(d, x1) && Times(x1 + e, x2) && Times(x2 + f, x3);
    var k1 :| x1 == d * PRIME + k1 * TWO_64;
    var k2 :| x2 == (x1 + e) * PRIME + k2 * TWO_64;
    var k3 :| x3 == (x2 + f) * PRIME + k3 * TWO_64;
    PrimePowers(d, e, f);
    NoSmallGap(d, e, f, g, -(k1 * PRIME + k2) * PRIME - k3 - (d * 72057594123452416 + e * 65536));
  }

  /** Two runs of four bytes from one hash that meet begin with the same byte. */
  lemma FirstOfFour(step: (u64, u8) -> u64, times: (int, int) -> bool, h: u64, a: seq<u8>, b: seq<u8>)
    requires Arithmetic(step, times) && |a| == 4 && |b| == 4
    requires step(step(step(step(h, a[0]), a[1]), a[2]), a[3]) ==
             step(step(step(step(h, b[0]), b[1]), b[2]), b[3])
    ensures a[0] == b[0]
  {
    var h1, g1 := step(h, a[0]), step(h, b[0]);
    var h2, g2 := step(h1, a[1]), step(g1, b[1]);
    var h3, g3 := step(h2, a[2]), step(g2, b[2]);
    var d := FirstGap(step, times, h, a[0], b[0]);
    var e := StepGap(step, times, h1, g1, a[1], b[1]);
    var f := StepGap(step, times, h2, g2, a[2], b[2]);
    var g := LastGap(step, times, h3, g3, a[3], b[3]);
    GapsCompose(step, times, d, e, f, g, h1 as int - g1, h2 as int - g2, h3 as int - g3);
  }

  /** The fold with the step given as a function. */
  function FoldBy(step: (u64, u8) -> u64, h: u64, s: seq<u8>): (r: u64)
    decreases |s|
  {
    if s == [] then h else FoldBy(step, step(h, s[0]), s[1..])
  }

  lemma {:induction false} FoldByIs(step: (u64, u8) -> u64, times: (int, int) -> bool, h: u64, s: seq<u8>)
    requires Arithmetic(step, times)
    ensures FoldBy(step, h, s) == Fold(h, s)
    decreases |s|
  {
    if s != [] {
      assert step(h, s[0]) == Step(h, s[0]);
      FoldByIs(step, times, Step(h, s[0]), s[1..]);
    }
  }

  lemma FourSteps(step: (u64, u8) -> u64, h: u64, a: seq<u8>)
    requires |a| == 4
    ensures FoldBy(step, h, a) == step(step(step(step(h, a[0]), a[1]), a[2]), a[3])
  {
    var h2 := step(step(h, a[0]), a[1]);
    assert FoldBy(step, h, a) == FoldBy(step, step(h, a[0]), a[1..]) == FoldBy(step, h2, a[2..]) by {
      assert a[1..][1..] == a[2..];
    }
    assert a[2..][1..] == a[3..] && a[3..][1..] == [];
    var h3 := step(h2, a[2]);
    assert FoldBy(step, h2, a[2..]) == FoldBy(step, h3, a[3..]);
    assert FoldBy(step, h3, a[3..]) == FoldBy(step, step(h3, a[3]), []) == step(h3, a[3]);
  }

  /** Two runs of four bytes that fold alike from one hash begin with the same byte. */
  lemma FirstByteOfFour(h: u64, a: seq<u8>, b: seq<u8>)
    requires |a| == 4 && |b| == 4 && Fold(h, a) == Fold(h, b)
    ensures a[0] == b[0]
  {
    var step := (h: u64, a: u8) => Step(h, a);
    var times := (x: int, y: int) => Times(x, y);
    FoldByIs(step, times, h, a);
    FoldByIs(step, times, h, b);
    FourSteps(step, h, a);
    FourSteps(step, h, b);
    FirstOfFour(step, times, h, a, b);
  }

  /** From one hash, different runs of up to four bytes never fold alike. */
  lemma {:induction false} ShortRunsInjective(h: u64, x: seq<u8>, y: seq<u8>)
    requires |x| == |y| <= 4 && Fold(h, x) == Fold(h, y)
    ensures x == y
    decreases |x|
  {
    if x != [] {
      var pad := seq(4 - |x|, _ => 0);
      FoldConcat(h, x, pad);
      FoldConcat(h, y, pad);
      FirstByteOfFour(h, x + pad, y + pad);
      ShortRunsInjective(Step(h, x[0]), x[1..], y[1..]);
      assert x == [x[0]] + x[1..] && y == [y[0]] + y[1..];
    }
  }

  /** Streams of equal length that are the same outside the four bytes from `at` on. */
  predicate AlikeOutsideFour(s: seq<u8>, t: seq<u8>, at: nat)
  {
    && |s| == |t|
    && forall i :: 0 <= i < |s| && (i < at || at + 4 <= i) ==> s[i] == t[i]
  }

  /** No edit within four adjacent bytes of a folded stream collides, wherever it is and whatever surrounds it. */
  lemma FourByteEditChangesHash(hash: u64, s: seq<u8>, t: seq<u8>, at: nat)
    requires AlikeOutsideFour(s, t, at)
    ensures Fold(hash, s) == Fold(hash, t) <==> s == t
  {
    var from := if at < |s| then at else |s|;
    var to := if at + 4 < |s| then at + 4 else |s|;
    AlikeSplit(s, t, at, from, to);
    RunEditChangesHash(hash, s[..from], s[from..to], t[from..to], s[to..]);
  }

  lemma AlikeSplit(s: seq<u8>, t: seq<u8>, at: nat, from: nat, to: nat)
    requires AlikeOutsideFour(s, t, at) && from <= to <= |s| && from <= at && (to == |s| || at + 4 <= to)
    ensures s == s[..from] + s[from..to] + s[to..]
    ensures t == s[..from] + t[from..to] + s[to..]
    ensures s[from..to] == t[from..to] <==> s == t
  {
    assert s[..from] == t[..from] && s[to..] == t[to..];
    assert t == t[..from] + t[from..to] + t[to..];
  }

  lemma RunEditChangesHash(hash: u64, before: seq<u8>, x: seq<u8>, y: seq<u8>, after: seq<u8>)
    requires |x| == |y| <= 4
    ensures Fold(hash, before + x + after) == Fold(hash, before + y + after) <==> x == y
  {
    FoldConcat(hash, before + x, after);
    FoldConcat(hash, before + y, after);
    FoldConcat(hash, before, x);
    FoldConcat(hash, before, y);
    var h := Fold(hash, before);
    FoldInjective(Fold(h, x), Fold(h, y), after);
    if Fold(h, x) == Fold(h, y) {
      ShortRunsInjective(h, x, y);
    }
  }

  /** The low `count` bytes of a word, least significant first. */
  function LittleEndian(value: nat, count: nat): (r: seq<u8>)
    ensures |r| == count
  {
    if count == 0 then [] else [value % TWO_8] + LittleEndian(value / TWO_8, count - 1)
  }

  lemma {:induction false} LittleEndianAt(value: nat, count: nat, i: nat)
    requires i < count
    ensures LittleEndian(value, count)[i] == value / Pow256(i) % 256
  {
    if i > 0 {
      LittleEndianAt(value / TWO_8, count - 1, i - 1);
      DivideTwice(value, Pow256(i - 1));
    }
  }

  lemma DivideTwice(value: nat, p: nat)
    requires p > 0
    ensures TWO_8 * p > 0 && value / TWO_8 / p == value / (TWO_8 * p)
  {
    var q := value / TWO_8;
    var r := q / p;
    assert value == q * TWO_8 + value % TWO_8 && q == r * p + q % p;
    var rest := q % p * TWO_8 + value % TWO_8;
    assert value == r * (TWO_8 * p) + rest;
    assert 0 <= rest < TWO_8 * p;
    QuotientIs(value, TWO_8 * p, r, rest);
  }

  lemma AtLeast(k: int, d: nat)
    requires k >= 1
    ensures k * d >= d
  {
    assert k * d == d + (k - 1) * d;
  }

  lemma QuotientIs(x: nat, d: nat, q: nat, rest: nat)
    requires d > 0 && x == q * d + rest && rest < d
    ensures x / d == q
  {
    SameQuotient(d, x / d, x % d, q, rest);
  }

  lemma SameQuotient(d: nat, k: int, r: nat, q: int, s: nat)
    requires r < d && s < d && k * d + r == q * d + s
    ensures k == q
  {
    assert (k - q) * d == s - r && (q - k) * d == r - s;
    if k > q {
      AtLeast(k - q, d);
    } else if k < q {
      AtLeast(q - k, d);
    }
  }

  /** The bytes a signed 64-bit field contributes: its two's complement, low byte first. */
  function SignedBytes(value: i64): (r: seq<u8>)
    ensures |r| == 8
  {
    LittleEndian(Wrap64(value), 8)
  }

  /** The loop that folds an integer field byte by byte is the fold of its little-endian bytes. */
  method FoldInt(hash: u64, value: u64, width: nat) returns (r: u64)
    ensures r == Fold(hash, LittleEndian(value, width))
  {
    r := hash;
    var bits: nat := value;
    for i := 0 to width
      invariant Fold(r, LittleEndian(bits, width - i)) == Fold(hash, LittleEndian(value, width))
    {
      ghost var rest := LittleEndian(bits, width - i);
      assert rest[0] == bits % TWO_8 && rest[1..] == LittleEndian(bits / TWO_8, width - i - 1);
      r := Step(r, bits % TWO_8);
      bits := bits / TWO_8;
    }
  }

  /** Little-endian bytes keep the whole value, so a field edit is always visible in the stream. */
  lemma {:induction false} LittleEndianInjective(x: nat, y: nat, count: nat)
    requires LittleEndian(x, count) == LittleEndian(y, count)
    requires x < Pow256(count) && y < Pow256(count)
    ensures x == y
  {
    if count > 0 {
      var lx, ly := LittleEndian(x, count), LittleEndian(y, count);
      assert lx[0] == x % TWO_8 && ly[0] == y % TWO_8;
      assert lx[1..] == LittleEndian(x / TWO_8, count - 1);
      assert ly[1..] == LittleEndian(y / TWO_8, count - 1);
      LittleEndianInjective(x / TWO_8, y / TWO_8, count - 1);
    }
  }

  function Pow256(n: nat): (r: nat)
    ensures r > 0
  {
    if n == 0 then 1 else TWO_8 * Pow256(n - 1)
  }
}
