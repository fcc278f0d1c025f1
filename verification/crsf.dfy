/** The CRSF frame splitter of the bridge (crsf-bridge.c, `parser_init` and `parser`). A
    frame is an address byte, a length byte L counting the bytes after it, and L more bytes;
    the splitter only delimits frames and does not check their CRC. The UART side and the
    TCP side each have a parser, but the inter-byte timeout is measured against one clock
    reading shared by both.

    The shared `static last_timestamp` is passed in and returned; the millisecond clock is
    the `now` parameter.
 */
module Crsf {
  import opened Bytes

  /** Address bytes that start a frame: the radio transmitter and the CRSF transmitter. */
  const AddressRadioTransmitter: byte := 0xEA
  const AddressCrsfTransmitter: byte := 0xEE
  /** Largest frame, address and length bytes included, and largest payload. */
  const MaxPacketSize := 64
  const MaxPayloadLen := MaxPacketSize - 4
  /** Longest gap, in ms, allowed between two bytes of one frame. */
  const ByteTimeout := 1

  datatype Phase = Source | Length | Payload

  /** `struct parser_state`. `length` counts the bytes stored so far and `expected` the
      bytes the frame will have; `packets` and `errs` count frames delimited and dropped. */
  datatype Parser = Parser(phase: Phase, length: int, expected: int, packets: nat, errs: nat, buffer: seq<byte>)

  /** What holds between calls: a frame being collected has its two header bytes stored and
      still fits the buffer. */
  ghost predicate Inv(p: Parser)
  {
    && |p.buffer| == MaxPacketSize
    && (p.phase == Payload ==> 2 <= p.length < p.expected <= MaxPacketSize && p.expected >= 5)
  }

  predicate IsAddress(b: byte)
  {
    b == AddressRadioTransmitter || b == AddressCrsfTransmitter
  }

  /** The zero-initialised global parser, before any call. */
  function Zeroed(): (p: Parser)
    ensures Inv(p)
  {
    Parser(Source, 0, 0, 0, 0, seq(MaxPacketSize, _ => 0))
  }

  /** `parser_init`: back to waiting for an address; counters and buffer are kept. */
  function ParserInit(p: Parser): (r: Parser)
    requires Inv(p)
    ensures Inv(r) && r.phase == Source && r.length == 0 && r.expected == 0
    ensures r.packets == p.packets && r.errs == p.errs && r.buffer == p.buffer
  {
    p.(phase := Source, length := 0, expected := 0)
  }

  /** Whether the byte arriving at `now` ends a frame in progress for lateness: a previous
      byte of either parser was seen, and more than 1 ms ago. */
  predicate TimedOut(p: Parser, last: u64, now: u64)
  {
    last != 0 && p.phase != Source && ElapsedU64(now, last) > ByteTimeout
  }

  /** `parser`: one byte at time `now`, with the shared last-byte time. The result is the new
      parser, the new shared time, and the frame length on the byte that completes a frame,
      0 otherwise. */
  function Step(p: Parser, last: u64, b: byte, now: u64): (r: (Parser, u64, int))
    requires Inv(p)
    ensures Inv(r.0) && r.1 == now
    ensures r.2 == 0 || (5 <= r.2 <= MaxPacketSize && r.2 == r.0.length)
    ensures r.2 != 0 <==> r.0.packets == p.packets + 1
    ensures r.2 != 0 ==> r.0.phase == Source && r.2 == p.expected
    ensures r.0.packets == p.packets || r.0.packets == p.packets + 1
    ensures p.errs <= r.0.errs <= p.errs + 2
    ensures TimedOut(p, last, now) ==> r.0.errs >= p.errs + 1 && r.2 == 0
  {
    var q := if TimedOut(p, last, now) then p.(phase := Source, errs := p.errs + 1) else p;
    match q.phase
    case Source =>
      if IsAddress(b) then (q.(buffer := q.buffer[0 := b], phase := Length), now, 0)
      else (q, now, 0)
    case Length =>
      if b < 3 || b > MaxPayloadLen + 2 then (q.(length := 0, phase := Source, errs := q.errs + 1), now, 0)
      else (q.(buffer := q.buffer[1 := b], length := 2, expected := b + 2, phase := Payload), now, 0)
    case Payload =>
      var stored := q.(buffer := q.buffer[q.length := b], length := q.length + 1);
      if stored.length >= q.expected then (stored.(phase := Source, packets := q.packets + 1), now, stored.length)
      else (stored, now, 0)
  }

  /** Bytes arriving together (within the same millisecond), one `parser` call each. */
  function Feed(p: Parser, last: u64, bs: seq<byte>, now: u64): (r: (Parser, u64, seq<int>))
    requires Inv(p)
    ensures Inv(r.0) && |r.2| == |bs|
    ensures r.0.packets >= p.packets && r.0.errs >= p.errs
    decreases |bs|
  {
    if |bs| == 0 then (p, last, [])
    else
      var s := Step(p, last, bs[0], now);
      var rest := Feed(s.0, s.1, bs[1..], now);
      (rest.0, rest.1, [s.2] + rest.2)
  }

  /** `n` zero results. */
  function Zeros(n: nat): (z: seq<int>)
    ensures |z| == n && forall i :: 0 <= i < n ==> z[i] == 0
  {
    seq(n, _ => 0)
  }

  /** The rest of a frame, fed to a parser collecting it, completes it on its last byte and
      lands in the buffer after the bytes already stored. */
  lemma {:induction false} PayloadCompletes(p: Parser, bs: seq<byte>, now: u64)
    requires Inv(p) && p.phase == Payload && |bs| == p.expected - p.length
    ensures var r := Feed(p, now, bs, now);
      && r.2 == Zeros(|bs| - 1) + [p.expected]
      && r.0.phase == Source && r.0.length == p.expected
      && r.0.buffer[..p.length] == p.buffer[..p.length]
      && r.0.buffer[p.length..p.expected] == bs
      && r.0.packets == p.packets + 1 && r.0.errs == p.errs
    decreases |bs|
  {
    var s := Step(p, now, bs[0], now);
    assert !TimedOut(p, now, now);
    if |bs| == 1 {
      assert Feed(s.0, s.1, bs[1..], now).2 == [];
      assert s.0.buffer[p.length..p.expected] == [bs[0]];
    } else {
      PayloadCompletes(s.0, bs[1..], now);
      var r := Feed(s.0, now, bs[1..], now);
      assert r.2 == Zeros(|bs| - 2) + [p.expected];
      assert [s.2] + r.2 == Zeros(|bs| - 1) + [p.expected];
      assert r.0.buffer[..s.0.length] == s.0.buffer[..s.0.length];
      assert r.0.buffer[..p.length] == r.0.buffer[..s.0.length][..p.length];
      assert r.0.buffer[p.length] == bs[0];
      assert r.0.buffer[p.length..p.expected] == [bs[0]] + r.0.buffer[s.0.length..p.expected];
    }
  }

  /** A well-formed frame fed to a parser waiting for an address, its bytes arriving within
      the timeout, is delimited on its last byte, with length L + 2, and the buffer holds
      exactly the frame. */
  lemma FrameDelimited(p: Parser, last: u64, address: byte, payload: seq<byte>, now: u64)
    requires Inv(p) && p.phase == Source && IsAddress(address)
    requires 3 <= |payload| <= MaxPayloadLen + 2
    ensures var frame := [address, |payload| as byte] + payload;
      var r := Feed(p, last, frame, now);
      && r.2 == Zeros(|payload| + 1) + [|payload| + 2]
      && r.0.phase == Source
      && r.0.buffer[..|frame|] == frame
      && r.0.packets == p.packets + 1 && r.0.errs == p.errs
  {
    var len := |payload| as byte;
    var frame := [address, len] + payload;
    var s0 := Step(p, last, address, now);
    var s1 := Step(s0.0, now, len, now);
    assert frame[1..][1..] == payload;
    assert Feed(p, last, frame, now) == (Feed(s0.0, now, frame[1..], now).0,
      Feed(s0.0, now, frame[1..], now).1, [0] + Feed(s0.0, now, frame[1..], now).2);
    assert Feed(s0.0, now, frame[1..], now) == (Feed(s1.0, now, payload, now).0,
      Feed(s1.0, now, payload, now).1, [0] + Feed(s1.0, now, payload, now).2);
    PayloadCompletes(s1.0, payload, now);
    var r := Feed(s1.0, now, payload, now);
    assert r.0.buffer[..2] == s1.0.buffer[..2] == [address, len];
    assert r.0.buffer[..|frame|] == r.0.buffer[..2] + r.0.buffer[2..|frame|];
  }

  /** A length byte outside [3, 62] sends the parser back to waiting for an address and
      counts an error. */
  lemma BadLengthRejected(p: Parser, last: u64, b: byte, now: u64)
    requires Inv(p) && p.phase == Length && !TimedOut(p, last, now)
    requires b < 3 || b > MaxPayloadLen + 2
    ensures var r := Step(p, last, b, now);
      r.0.phase == Source && r.0.errs == p.errs + 1 && r.2 == 0 && r.0.packets == p.packets
  {
  }

  /** A frame whose next byte comes late is abandoned with one error, and that byte is
      taken as a possible start of a new frame. */
  lemma LateByteRestarts(p: Parser, last: u64, b: byte, now: u64)
    requires Inv(p) && TimedOut(p, last, now)
    ensures var r := Step(p, last, b, now);
      && r.0.errs == p.errs + 1 && r.2 == 0 && r.0.packets == p.packets
      && (r.0.phase == Length <==> IsAddress(b))
      && (r.0.phase == Source <==> !IsAddress(b))
  {
  }

  /** The timeout clock is shared: a byte handled by the other parser in between hides a
      gap of more than 1 ms in this parser's frame, and the frame goes on being collected. */
  lemma SharedClockHidesGap(mine: Parser, other: Parser, t0: u64, b: byte, t1: u64, c: byte, t2: u64)
    requires Inv(mine) && Inv(other) && mine.phase == Payload
    requires 0 < t0 <= t1 <= t2 && t2 - t0 > ByteTimeout && t2 - t1 <= ByteTimeout
    ensures var shared := Step(other, t0, b, t1).1;
      var r := Step(mine, shared, c, t2);
      r.0.errs == mine.errs && r.0.length == mine.length + 1
    ensures TimedOut(mine, t0, t2)
  {
  }
}
