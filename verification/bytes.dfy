/** Fixed-width integer types of the C sources and their little-endian byte layouts.

    The rotator protocol structures are `PACKED` and copied to the wire straight from host
    memory, and both receivers rebuild the timestamp least-significant byte first, so every
    multi-byte field travels little-endian. Signed fields use two's complement.
 */
module Bytes {

  type byte = x: int | 0 <= x < 0x100
  type u16 = x: int | 0 <= x < 0x1_0000
  type u32 = x: int | 0 <= x < 0x1_0000_0000
  type u64 = x: int | 0 <= x < 0x1_0000_0000_0000_0000
  type i16 = x: int | -0x8000 <= x < 0x8000
  type i32 = x: int | -0x8000_0000 <= x < 0x8000_0000

  /** A C `int` that only ever holds 0 or 1. */
  type bit = x: int | 0 <= x <= 1

  /** C division of `int`s by a positive divisor: the quotient is truncated toward zero, so
      the remainder takes the sign of the dividend. */
  function CDiv(a: int, b: int): (q: int)
    requires b > 0
    ensures a >= 0 ==> 0 <= a - q * b < b
    ensures a < 0 ==> -b < a - q * b <= 0
  {
    if a >= 0 then a / b else -((-a) / b)
  }

  /** Reinterpretation of any integer as the low 16 bits (C conversion to `uint16_t`). */
  function ToU16(x: int): (r: u16)
    ensures 0 <= x < 0x1_0000 ==> r == x
  {
    x % 0x1_0000
  }

  /** C conversion to `uint32_t`: wrap-around modulo 2^32. */
  function ToU32(x: int): (r: u32)
    ensures 0 <= x < 0x1_0000_0000 ==> r == x
    ensures (r - x) % 0x1_0000_0000 == 0
  {
    x % 0x1_0000_0000
  }

  /** Unsigned 64-bit difference `a - b` as computed on `uint64_t` clocks. */
  function ElapsedU64(now: u64, before: u64): (r: u64)
    ensures before <= now ==> r == now - before
    ensures now < before ==> r == now - before + 0x1_0000_0000_0000_0000
  {
    (now - before) % 0x1_0000_0000_0000_0000
  }

  /** Unsigned 32-bit difference `a - b` as computed on `uint32_t` values. */
  function ElapsedU32(now: u32, before: u32): (r: u32)
    ensures before <= now ==> r == now - before
    ensures now < before ==> r == now - before + 0x1_0000_0000
  {
    (now - before) % 0x1_0000_0000
  }

  /** gcc's conversion of an out-of-range value to `int16_t` (modulo 2^16). */
  function ToI16(x: int): (r: i16)
    ensures -0x8000 <= x < 0x8000 ==> r == x
    ensures (r - x) % 0x1_0000 == 0
  {
    var u := x % 0x1_0000;
    if u < 0x8000 then u else u - 0x1_0000
  }

  /** gcc's conversion of an out-of-range value to `int` (modulo 2^32). */
  function ToI32(x: int): (r: i32)
    ensures -0x8000_0000 <= x < 0x8000_0000 ==> r == x
    ensures (r - x) % 0x1_0000_0000 == 0
  {
    var u := x % 0x1_0000_0000;
    if u < 0x8000_0000 then u else u - 0x1_0000_0000
  }

  // ---- little-endian layouts -------------------------------------------------------------

  function U16Le(x: u16): (r: seq<byte>)
    ensures |r| == 2
  {
    [x % 0x100, x / 0x100]
  }

  function LeU16(b: seq<byte>): u16
    requires |b| == 2
  {
    b[0] as int + 0x100 * b[1] as int
  }

  function U32Le(x: u32): (r: seq<byte>)
    ensures |r| == 4
  {
    var x1 := x / 0x100;
    var x2 := x1 / 0x100;
    [x % 0x100, x1 % 0x100, x2 % 0x100, x2 / 0x100]
  }

  function LeU32(b: seq<byte>): u32
    requires |b| == 4
  {
    b[0] as int + 0x100 * (b[1] as int + 0x100 * (b[2] as int + 0x100 * b[3] as int))
  }

  /** Two's-complement bit pattern of a signed 16-bit value. */
  function I16Bits(x: i16): (r: u16)
    ensures (r - x) % 0x1_0000 == 0
  {
    if x < 0 then x + 0x1_0000 else x
  }

  function I32Bits(x: i32): (r: u32)
    ensures (r - x) % 0x1_0000_0000 == 0
  {
    if x < 0 then x + 0x1_0000_0000 else x
  }

  function I16Le(x: i16): (r: seq<byte>)
    ensures |r| == 2
  {
    U16Le(I16Bits(x))
  }

  function LeI16(b: seq<byte>): i16
    requires |b| == 2
  {
    ToI16(LeU16(b))
  }

  function I32Le(x: i32): (r: seq<byte>)
    ensures |r| == 4
  {
    U32Le(I32Bits(x))
  }

  function LeI32(b: seq<byte>): i32
    requires |b| == 4
  {
    ToI32(LeU32(b))
  }

  // ---- round trips -----------------------------------------------------------------------

  lemma U16RoundTrip(x: u16)
    ensures LeU16(U16Le(x)) == x
  {
  }

  lemma U16Inverse(b: seq<byte>)
    requires |b| == 2
    ensures U16Le(LeU16(b)) == b
  {
  }

  lemma U32RoundTrip(x: u32)
    ensures LeU32(U32Le(x)) == x
  {
  }

  lemma U32Inverse(b: seq<byte>)
    requires |b| == 4
    ensures U32Le(LeU32(b)) == b
  {
    var y2 := b[2] as int + 0x100 * b[3] as int;
    var y1 := b[1] as int + 0x100 * y2;
    DivMod256(b[3], 0);
    DivMod256(b[2], b[3]);
    DivMod256(b[1], y2);
    DivMod256(b[0], y1);
  }

  lemma DivMod256(lo: byte, hi: int)
    ensures (lo + 0x100 * hi) % 0x100 == lo
    ensures (lo + 0x100 * hi) / 0x100 == hi
  {
  }

  lemma I16RoundTrip(x: i16)
    ensures LeI16(I16Le(x)) == x
  {
    U16RoundTrip(I16Bits(x));
  }

  lemma I32RoundTrip(x: i32)
    ensures LeI32(I32Le(x)) == x
  {
    U32RoundTrip(I32Bits(x));
  }

  lemma I16Inverse(b: seq<byte>)
    requires |b| == 2
    ensures I16Le(LeI16(b)) == b
  {
    U16Inverse(b);
  }

  lemma I32Inverse(b: seq<byte>)
    requires |b| == 4
    ensures I32Le(LeI32(b)) == b
  {
    U32Inverse(b);
  }

  /** Feeding one byte into the top of a 32-bit accumulator that shifts right by 8
      (`ts = byte << 24 | ts >> 8`) moves its little-endian image one byte to the left. */
  function ShiftInByte(acc: u32, b: byte): (r: u32)
  {
    b * 0x100_0000 + acc / 0x100
  }

  lemma ShiftInByteLe(acc: u32, b: byte)
    ensures U32Le(ShiftInByte(acc, b)) == U32Le(acc)[1..] + [b]
  {
    var a := U32Le(acc);
    U32Inverse(a[1..] + [b]);
    U32RoundTrip(acc);
    assert ShiftInByte(acc, b) == LeU32(a[1..] + [b]);
  }
}
