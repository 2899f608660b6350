/**
 Process memory as the guarded reads see it: which bytes can be read, and what they hold. It does not
 change while an image is examined, and readability is decided page by page.
 */
module Image {
  import opened MachineInts
  import opened Options

  const PAGE: int := 0x1000
  const LOWEST: int := 0x1_0000

  datatype Memory = Memory(readable: u64 -> bool, byte: u64 -> u8)

  ghost predicate PageGranular(m: Memory)
  {
    forall a: u64, b: u64 :: a / PAGE == b / PAGE ==> m.readable(a) == m.readable(b)
  }

  /** What guarded_read_bytes accepts: nothing, or a range above the null pages that does not wrap or fault. */
  predicate Readable(m: Memory, a: int, n: nat)
  {
    n == 0 || (LOWEST <= a && a + n < TWO_64 && forall b: u64 :: a <= b < a + n ==> m.readable(b))
  }

  /** A little-endian value. */
  function Value(m: Memory, a: nat, n: nat): (r: nat)
    requires a + n <= TWO_64
    decreases n
  {
    if n == 0 then 0 else m.byte(a) + 256 * Value(m, a + 1, n - 1)
  }

  /** A 16-bit and a 32-bit field. */
  function Half(m: Memory, a: nat): (r: u16)
    requires a + 2 <= TWO_64
  {
    m.byte(a) + 0x100 * m.byte(a + 1)
  }

  function Dword(m: Memory, a: nat): (r: u32)
    requires a + 4 <= TWO_64
  {
    Half(m, a) + 0x1_0000 * Half(m, a + 2)
  }

  function Read(m: Memory, a: int, n: nat): (r: Option<nat>)
  {
    if n > 0 && Readable(m, a, n) then Some(Value(m, a, n)) else None
  }

  /** A half-open range of addresses; the empty ones contain nothing. */
  datatype Span = Span(base: u64, end: u64) {
    predicate Valid() { base != 0 && end > base }
    predicate Contains(a: int) { Valid() && base <= a < end }
  }
}
