/** The rotator wire format: an 8-byte packed header (start byte, version, type, payload
    length, 32-bit timestamp), the payload, then one CRC-8 byte computed over the timestamp
    and the payload. Command and Status payloads are packed structures.
 */
module Protocol {
  import opened Bytes
  import Crc8

  const StartByte: byte := 0xE1
  const Version: byte := 1
  const TypeStatus: byte := 1
  const TypeCommand: byte := 2

  /** Offsets inside the packed header. */
  const TimestampOffset := 4
  const HeaderSize := 8

  /** `sizeof` of the packed payload structures. */
  const CommandSize: byte := 8
  const StatusSize: byte := 5

  /** Status bits. */
  const PowerBit := 0
  const LowPowerBit := 1

  /** Switch bits of a Command. */
  const SwitchAntennaNum := 0
  const SwitchEncoderNum := 1
  const SwitchRecordNum := 2
  const SwitchCount := 3

  /** `BIT(num)` for a switch number. */
  function SwitchMask(num: nat): (m: nat)
    requires num < SwitchCount
    ensures m == 1 || m == 2 || m == 4
  {
    if num == 0 then 1 else if num == 1 then 2 else 4
  }

  /** `word & BIT(num)` is non-zero. The switch bits are among the three lowest, and
      Dafny's `%` is never negative, so `word % 8` holds them for a negative `int32_t` too,
      as two's complement does. */
  predicate SwitchOn(word: int, num: nat)
    requires num < SwitchCount
  {
    var low := word % 8;
    if num == 0 then low % 2 == 1
    else if num == 1 then low == 2 || low == 3 || low == 6 || low == 7
    else low >= 4
  }

  /** `word | BIT(num)` on a `uint32_t`. */
  function WithSwitch(word: u32, num: nat): (r: u32)
    requires num < SwitchCount
    ensures SwitchOn(r, num)
    ensures forall k :: 0 <= k < SwitchCount && k != num ==> (SwitchOn(r, k) <==> SwitchOn(word, k))
  {
    if SwitchOn(word, num) then word
    else
      var q := word / 8;
      assert word == 8 * q + word % 8;
      assert (word + SwitchMask(num)) % 8 == word % 8 + SwitchMask(num);
      word + SwitchMask(num)
  }

  /** `word & ~BIT(num)` on a `uint32_t`. */
  function WithoutSwitch(word: u32, num: nat): (r: u32)
    requires num < SwitchCount
    ensures !SwitchOn(r, num)
    ensures forall k :: 0 <= k < SwitchCount && k != num ==> (SwitchOn(r, k) <==> SwitchOn(word, k))
  {
    if SwitchOn(word, num) then
      var r := word - SwitchMask(num);
      // setting the bit again gives back `word`, whose other bits `WithSwitch` keeps
      assert !SwitchOn(r, num);
      assert WithSwitch(r, num) == word;
      r
    else word
  }

  /** Storing the `uint32_t` switch word into the `int32_t` Command field keeps every switch
      bit: the receiver reads the same switches the sender set. */
  lemma SwitchesSurviveSignedField(word: u32, num: nat)
    requires num < SwitchCount
    ensures SwitchOn(ToI32(word), num) <==> SwitchOn(word, num)
  {
    if word >= 0x8000_0000 {
      assert ToI32(word) == word - 0x1_0000_0000;
      assert (word - 0x1_0000_0000) % 8 == word % 8;
    }
  }

  /** Command payload: absolute encoder position and the switch word. */
  datatype Command = Command(position: i32, switches: i32)

  /** Status payload: antenna angle in degrees, status bits, battery millivolts. */
  datatype Status = Status(angle: i16, status: byte, vbat: u16)

  function EncodeCommand(c: Command): (r: seq<byte>)
    ensures |r| == CommandSize as int
    ensures r[..4] == I32Le(c.position) && r[4..] == I32Le(c.switches)
  {
    I32Le(c.position) + I32Le(c.switches)
  }

  function DecodeCommand(b: seq<byte>): Command
    requires |b| == CommandSize as int
  {
    Command(LeI32(b[..4]), LeI32(b[4..]))
  }

  function EncodeStatus(s: Status): (r: seq<byte>)
    ensures |r| == StatusSize as int
    ensures r[..2] == I16Le(s.angle) && r[2] == s.status && r[3..] == U16Le(s.vbat)
  {
    I16Le(s.angle) + [s.status] + U16Le(s.vbat)
  }

  function DecodeStatus(b: seq<byte>): Status
    requires |b| == StatusSize as int
  {
    Status(LeI16(b[..2]), b[2], LeU16(b[3..]))
  }

  lemma CommandRoundTrip(c: Command)
    ensures DecodeCommand(EncodeCommand(c)) == c
  {
    I32RoundTrip(c.position);
    I32RoundTrip(c.switches);
  }

  lemma CommandBytesRoundTrip(b: seq<byte>)
    requires |b| == CommandSize as int
    ensures EncodeCommand(DecodeCommand(b)) == b
  {
    I32Inverse(b[..4]);
    I32Inverse(b[4..]);
    assert b == b[..4] + b[4..];
  }

  lemma StatusRoundTrip(s: Status)
    ensures DecodeStatus(EncodeStatus(s)) == s
  {
    var r := EncodeStatus(s);
    assert r[..2] == I16Le(s.angle);
    assert r[3..] == U16Le(s.vbat);
    I16RoundTrip(s.angle);
    U16RoundTrip(s.vbat);
  }

  lemma StatusBytesRoundTrip(b: seq<byte>)
    requires |b| == StatusSize as int
    ensures EncodeStatus(DecodeStatus(b)) == b
  {
    I16Inverse(b[..2]);
    U16Inverse(b[3..]);
    assert b == b[..2] + [b[2]] + b[3..];
  }

  /** The bytes the CRC covers: the timestamp as laid out in memory, then the payload. */
  function CrcInput(timestamp: u32, payload: seq<byte>): seq<byte>
  {
    U32Le(timestamp) + payload
  }

  /** A whole frame: header, payload, CRC. */
  function EncodeFrame(typ: byte, timestamp: u32, payload: seq<byte>): (f: seq<byte>)
    requires |payload| < 0x100
    ensures |f| == HeaderSize + |payload| + 1
    ensures f[0] == StartByte && f[1] == Version && f[2] == typ && f[3] == |payload|
    ensures f[TimestampOffset..HeaderSize] == U32Le(timestamp)
    ensures f[HeaderSize..HeaderSize + |payload|] == payload
    ensures f[|f| - 1] == Crc8.Data(f[TimestampOffset..|f| - 1])
  {
    var body := CrcInput(timestamp, payload);
    var f := [StartByte, Version, typ, |payload|] + body + [Crc8.Data(body)];
    assert f[TimestampOffset..|f| - 1] == body;
    f
  }

  /** The CRC over the timestamp, the payload and the CRC byte itself is zero, which is what
      makes a received frame checkable. */
  lemma FrameCrcResidue(typ: byte, timestamp: u32, payload: seq<byte>)
    requires |payload| < 0x100
    ensures var f := EncodeFrame(typ, timestamp, payload); Crc8.Data(f[TimestampOffset..]) == 0
  {
    var f := EncodeFrame(typ, timestamp, payload);
    assert f[TimestampOffset..] == f[TimestampOffset..|f| - 1] + [f[|f| - 1]];
    Crc8.AppendOwnCrc(f[TimestampOffset..|f| - 1]);
  }

  /** `send_message` on the panel: a 17-byte Command frame. */
  function CommandFrame(timestamp: u32, c: Command): (f: seq<byte>)
    ensures |f| == 17 && f[2] == TypeCommand && f[3] == CommandSize
  {
    EncodeFrame(TypeCommand, timestamp, EncodeCommand(c))
  }

  /** `send_status` on the antenna: a 14-byte Status frame. */
  function StatusFrame(timestamp: u32, s: Status): (f: seq<byte>)
    ensures |f| == 14 && f[2] == TypeStatus && f[3] == StatusSize
  {
    EncodeFrame(TypeStatus, timestamp, EncodeStatus(s))
  }
}
