/** CRC-8 of ETSI EN 302 307 (DVB-S2), clause 5.1.4: generator polynomial
    x^8 + x^7 + x^6 + x^4 + x^2 + 1 (0xD5), initial value 0, no reflection, no final XOR.
 */
module Crc8 {
  import opened Bytes

  const Poly: bv8 := 0xD5

  /** One "shift left, XOR the polynomial if the vacated top bit was set" round. Shifting a
      `bv8` drops bit 7, exactly as storing `crc << 1` back into a `uint8_t` does. */
  function Round(c: bv8): bv8
  {
    if c & 0x80 != 0 then (c << 1) ^ Poly else c << 1
  }

  /** The eight rounds of the inner loop. */
  function Rounds8(c: bv8): bv8
  {
    Round(Round(Round(Round(Round(Round(Round(Round(c))))))))
  }

  /** `crc8_dvb_s2`: XOR the input byte into the accumulator, then eight rounds. Equal
      operands cancel, and zero stays zero through every round. */
  function Step(crc: byte, a: byte): (r: byte)
    ensures crc == a ==> r == 0
  {
    assert Round(0) == 0;
    Rounds8((crc as bv8) ^ (a as bv8)) as int
  }

  /** Left fold of `Step` over `data`, starting from the accumulator `crc`. */
  function Fold(crc: byte, data: seq<byte>): byte
    decreases |data|
  {
    if |data| == 0 then crc else Fold(Step(crc, data[0]), data[1..])
  }

  /** `crc8_data`: the CRC of a whole buffer, starting from 0. */
  function Data(data: seq<byte>): (r: byte)
    ensures |data| == 0 ==> r == 0
  {
    Fold(0, data)
  }

  /** The fold over a concatenation continues from the fold over the prefix. */
  lemma {:induction false} FoldAppend(crc: byte, a: seq<byte>, b: seq<byte>)
    ensures Fold(crc, a + b) == Fold(Fold(crc, a), b)
    decreases |a|
  {
    if |a| > 0 {
      assert (a + b)[1..] == a[1..] + b;
      FoldAppend(Step(crc, a[0]), a[1..], b);
    } else {
      assert a + b == b;
    }
  }

  lemma DataAppend(a: seq<byte>, b: seq<byte>)
    ensures Data(a + b) == Fold(Data(a), b)
  {
    FoldAppend(0, a, b);
  }

  /** Appending a buffer's own CRC yields a zero CRC: the receiver-side check. */
  lemma AppendOwnCrc(d: seq<byte>)
    ensures Data(d + [Data(d)]) == 0
  {
    DataAppend(d, [Data(d)]);
    assert [Data(d)][1..] == [];
  }

  /** Leading zero bytes do not change the CRC, because `Step(0, 0) == 0`. */
  lemma {:induction false} LeadingZeros(n: nat, d: seq<byte>)
    ensures Data(seq(n, _ => 0) + d) == Data(d)
  {
    var z: seq<byte> := seq(n, _ => 0);
    if n > 0 {
      var rest: seq<byte> := seq(n - 1, _ => 0) + d;
      assert z + d == [0] + rest;
      assert ([0] + rest)[1..] == rest;
      assert Step(0, 0) == 0;
      LeadingZeros(n - 1, d);
    } else {
      assert z + d == d;
    }
  }

  /** The standard check value of the CRC-8/DVB-S2 catalogue entry: the nine ASCII digits
      "123456789" give 0xBC. */
  lemma CheckValue()
    ensures Data([0x31, 0x32, 0x33, 0x34, 0x35, 0x36, 0x37, 0x38, 0x39]) == 0xBC
  {
    var s: seq<byte> := [0x31, 0x32, 0x33, 0x34, 0x35, 0x36, 0x37, 0x38, 0x39];
    assert Step(0x00, 0x31) == 0x23;
    assert Step(0x23, 0x32) == 0x87;
    assert Step(0x87, 0x33) == 0xE7;
    assert Step(0xE7, 0x34) == 0x8A;
    assert Step(0x8A, 0x35) == 0x64;
    assert Step(0x64, 0x36) == 0xB0;
    assert Step(0xB0, 0x37) == 0xBB;
    assert Step(0xBB, 0x38) == 0x45;
    assert Step(0x45, 0x39) == 0xBC;
    assert Data(s) == Fold(0x23, s[1..]);
  }
}
