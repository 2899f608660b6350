/**
 Printing and reading whole numbers in base 10 and 16, as std::to_string, std::format and
 std::from_chars do.
 */
module Numerals {
  import opened MachineInts
  import opened Options

  predicate IsBase(base: nat)
  {
    base == 10 || base == 16
  }

  /** Upper-case digits. */
  function Digit(d: nat): (c: char)
    requires d < 16
  {
    if d < 10 then ('0' as int + d) as char else ('A' as int + d - 10) as char
  }

  /** What a digit counts for; letters of either case, or 16 for any other character. */
  function DigitValue(c: char): (d: nat)
    ensures d <= 16
  {
    if '0' <= c <= '9' then c as int - '0' as int
    else if 'A' <= c <= 'F' then c as int - 'A' as int + 10
    else if 'a' <= c <= 'f' then c as int - 'a' as int + 10
    else 16
  }

  lemma DigitReadsBack(d: nat)
    requires d < 16
    ensures DigitValue(Digit(d)) == d
  {
  }

  /** The digits by name; letters count the same in either case, and no other character is a digit. */
  lemma DigitsSpelled(d: nat, c: char)
    requires d < 16
    ensures Digit(d) == "0123456789ABCDEF"[d]
    ensures DigitValue(c) == d <==> c == "0123456789ABCDEF"[d] || c == "0123456789abcdef"[d]
  {
  }

  function Print(n: nat, base: nat): (s: string)
    requires IsBase(base)
    ensures |s| > 0
  {
    if n < base then [Digit(n)] else Print(n / base, base) + [Digit(n % base)]
  }

  predicate IsNumeral(s: string, base: nat)
  {
    forall i :: 0 <= i < |s| ==> DigitValue(s[i]) < base
  }

  /** The value of a string of digits. */
  function Value(s: string, base: nat): (n: nat)
    requires IsNumeral(s, base)
  {
    if s == [] then 0 else Value(s[..|s| - 1], base) * base + DigitValue(s[|s| - 1])
  }

  function Power(base: nat, n: nat): (p: nat)
  {
    if n == 0 then 1 else base * Power(base, n - 1)
  }

  /** Digits count by position: what stands before t is worth base to the length of t as much. */
  lemma {:induction false} ValueJoins(s: string, t: string, base: nat)
    requires IsNumeral(s, base) && IsNumeral(t, base)
    ensures IsNumeral(s + t, base) && Value(s + t, base) == Value(s, base) * Power(base, |t|) + Value(t, base)
    decreases |t|
  {
    if t == [] {
      assert s + t == s;
    } else {
      var n := |t| - 1;
      var front, d := t[..n], DigitValue(t[n]);
      ValueJoins(s, front, base);
      assert (s + t)[..|s + t| - 1] == s + front;
      Shifted(Value(s, base), Power(base, n), Value(front, base), base);
    }
  }

  lemma Shifted(s: nat, p: nat, t: nat, base: nat)
    ensures (s * p + t) * base == s * (base * p) + t * base
  {
    assert s * p * base == s * (base * p);
  }

  /** std::from_chars over a whole unsigned field: digits only, and below the limit. */
  function Read(s: string, base: nat, limit: nat): (r: Option<nat>)
    requires IsBase(base)
    ensures r.Some? ==> r.value < limit
  {
    if s != [] && IsNumeral(s, base) && Value(s, base) < limit then Some(Value(s, base)) else None
  }

  lemma {:induction false} PrintedIsNumeral(n: nat, base: nat)
    requires IsBase(base)
    ensures IsNumeral(Print(n, base), base)
    ensures Value(Print(n, base), base) == n
  {
    if n < base {
      DigitReadsBack(n);
      assert Print(n, base)[..0] == [];
    } else {
      var front := Print(n / base, base);
      PrintedIsNumeral(n / base, base);
      DigitReadsBack(n % base);
      assert Print(n, base)[..|front|] == front;
      assert n == n / base * base + n % base;
    }
  }

  /** Reading undoes printing for every number below the limit. */
  lemma ReadPrinted(n: nat, base: nat, limit: nat)
    requires IsBase(base) && n < limit
    ensures Read(Print(n, base), base, limit) == Some(n)
  {
    PrintedIsNumeral(n, base);
  }

  /** A printed number holds digits only, so none of the separators used around it. */
  lemma PrintedHasNo(n: nat, base: nat, c: char)
    requires IsBase(base) && DigitValue(c) == 16
    ensures c !in Print(n, base)
  {
    PrintedIsNumeral(n, base);
  }

  // Signed decimals.

  function PrintSigned(n: int): (s: string)
    ensures |s| > 0
  {
    if n < 0 then "-" + Print(-n, 10) else Print(n, 10)
  }

  /** std::from_chars over a whole signed 64-bit field: an optional minus, then digits. */
  function ReadSigned(s: string): (r: Option<i64>)
  {
    if s != [] && s[0] == '-' then
      var m := Read(s[1..], 10, TWO_63 + 1);
      if m.Some? then Some(-(m.value as int)) else None
    else
      var m := Read(s, 10, TWO_63);
      if m.Some? then Some(m.value) else None
  }

  lemma ReadPrintedSigned(n: i64)
    ensures ReadSigned(PrintSigned(n)) == Some(n)
  {
    if n < 0 {
      ReadPrinted(-(n as int), 10, TWO_63 + 1);
      assert PrintSigned(n)[1..] == Print(-(n as int), 10);
    } else {
      ReadPrinted(n, 10, TWO_63);
      PrintedHasNo(n, 10, '-');
    }
  }

  lemma SignedHasNo(n: int, c: char)
    requires DigitValue(c) == 16 && c != '-'
    ensures c !in PrintSigned(n)
  {
    PrintedHasNo(if n < 0 then -n else n, 10, c);
  }
}
