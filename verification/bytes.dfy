/**
 Fixed-width machine integers and their little-endian byte encodings.
 Every width is a subset of the unbounded `int`, so wrap-around is always
 written out explicitly where the converter relies on it.
 */
module Bytes {

  const TwoTo8: int := 0x100
  const TwoTo16: int := 0x1_0000
  const TwoTo31: int := 0x8000_0000
  const TwoTo32: int := 0x1_0000_0000

  type u8 = x: int | 0 <= x < 0x100
  type u16 = x: int | 0 <= x < 0x1_0000
  type u32 = x: int | 0 <= x < 0x1_0000_0000
  type i32 = x: int | -0x8000_0000 <= x < 0x8000_0000

  function Max(a: int, b: int): int {
    if a < b then b else a
  }

  /** The low 32 bits of `x`, as an unsigned value (Rust's `as u32`). */
  function WrapU32(x: int): (r: u32)
    ensures (r - x) % TwoTo32 == 0
  {
    x % TwoTo32
  }

  /** The low 32 bits of `x`, read as two's complement (Rust's `as i32`). */
  function WrapI32(x: int): (r: i32)
    ensures (r - x) % TwoTo32 == 0
  {
    var u := x % TwoTo32;
    if u < TwoTo31 then u else u - TwoTo32
  }

  /** Two's complement addition on 32 bits, overflow wrapping around. */
  function WrappingAddI32(a: i32, b: i32): (r: i32)
    ensures (r - (a + b)) % TwoTo32 == 0
  {
    WrapI32(a + b)
  }

  /** Little-endian encoding of a 16-bit word. */
  function LeBytes16(w: u16): (bs: seq<u8>)
    ensures |bs| == 2
  {
    [w % TwoTo8, w / TwoTo8]
  }

  /** Little-endian decoding of two bytes (`u16::from_le_bytes`). */
  function LeWord16(lo: u8, hi: u8): (w: u16)
    ensures LeBytes16(w) == [lo, hi]
  {
    lo + TwoTo8 * hi
  }

  /** Little-endian encoding of a 32-bit value, least significant byte first. */
  function LeBytes32(v: u32): (bs: seq<u8>)
    ensures |bs| == 4
  {
    [v % TwoTo8, (v / TwoTo8) % TwoTo8, (v / TwoTo16) % TwoTo8, v / 0x100_0000]
  }

  /** Little-endian decoding of four bytes. */
  function LeWord32(bs: seq<u8>): (v: u32)
    requires |bs| == 4
  {
    var b0: int, b1: int, b2: int, b3: int := bs[0], bs[1], bs[2], bs[3];
    b0 + TwoTo8 * (b1 + TwoTo8 * (b2 + TwoTo8 * b3))
  }

  /** `i32::to_le_bytes`: the two's complement bit pattern, least significant byte first. */
  function I32LeBytes(x: i32): (bs: seq<u8>)
    ensures |bs| == 4
  {
    LeBytes32(WrapU32(x))
  }

  /** Decoding inverts encoding: the four bytes carry exactly the value. */
  lemma LeWord32OfLeBytes32(v: u32)
    ensures LeWord32(LeBytes32(v)) == v
  {
    var q1 := v / TwoTo8;
    var q2 := q1 / TwoTo8;
    var q3 := q2 / TwoTo8;
    DivDiv(v, q1);
    DivDiv3(v, q2);
    assert LeBytes32(v) == [v % TwoTo8, q1 % TwoTo8, q2 % TwoTo8, q3];
    assert q2 % TwoTo8 + TwoTo8 * q3 == q2;
    assert q1 % TwoTo8 + TwoTo8 * q2 == q1;
    assert v % TwoTo8 + TwoTo8 * q1 == v;
  }

  /** Encoding inverts decoding: every four-byte string is the encoding of its value. */
  lemma LeBytes32OfLeWord32(bs: seq<u8>)
    requires |bs| == 4
    ensures LeBytes32(LeWord32(bs)) == bs
  {
    var b0: int, b1: int, b2: int, b3: int := bs[0], bs[1], bs[2], bs[3];
    var v := LeWord32(bs);
    var hi2 := b2 + TwoTo8 * b3;
    var hi1 := b1 + TwoTo8 * hi2;
    assert v == b0 + TwoTo8 * hi1;
    DigitSplit(b0, hi1);
    DigitSplit(b1, hi2);
    assert v / TwoTo16 == hi2 by { DivDiv(v, hi1); }
    DigitSplit(b2, b3);
    assert v / 0x100_0000 == b3 by { DivDiv(v, hi1); DivDiv(hi1, hi2); DivDiv3(v, hi2); }
  }

  /** Splitting off the lowest base-256 digit. */
  lemma DigitSplit(d: int, q: int)
    requires 0 <= d < TwoTo8
    ensures (d + TwoTo8 * q) % TwoTo8 == d
    ensures (d + TwoTo8 * q) / TwoTo8 == q
  {
  }

  lemma DivDiv(v: int, q: int)
    requires 0 <= v && v / TwoTo8 == q
    ensures v / TwoTo16 == q / TwoTo8
  {
  }

  lemma DivDiv3(v: int, q: int)
    requires 0 <= v && v / TwoTo16 == q
    ensures v / 0x100_0000 == q / TwoTo8
  {
  }

  /** A signed 32-bit sum and the unsigned sum modulo 2^32 have the same bytes. */
  lemma SignedSumBytes(a: int, b: int)
    ensures I32LeBytes(WrappingAddI32(WrapI32(a), WrapI32(b))) == LeBytes32((a + b) % TwoTo32)
  {
    var s := WrappingAddI32(WrapI32(a), WrapI32(b));
    assert (s - (a + b)) % TwoTo32 == 0;
    SameResidue(s, a + b);
  }

  /** Values congruent modulo 2^32 have the same unsigned 32-bit reading. */
  lemma SameResidue(x: int, y: int)
    requires (x - y) % TwoTo32 == 0
    ensures WrapU32(x) == y % TwoTo32
  {
    var k := (x - y) / TwoTo32;
    assert x == y + k * TwoTo32;
  }

  /** The all-zero byte string of length `n`. */
  function Zeros(n: nat): (z: seq<u8>)
    ensures |z| == n
    ensures forall i :: 0 <= i < n ==> z[i] == 0
  {
    seq(n, _ => 0)
  }
}
