/** The byte-at-a-time receiver of the rotator protocol. Both nodes carry a copy of the same
    state machine (`parse_byte` in antenna.c and in station.c); they differ only in which
    message type they act on, which payload length they insist on, and in a second length
    check that only the antenna copy has. `Role` captures those differences, and the
    function-static locals of the C code become the explicit `Parser` record.
 */
module FrameParser {
  import opened Bytes
  import opened Protocol
  import Crc8

  datatype Phase =
    | AwaitStart
    | AwaitVersion
    | AwaitType
    | AwaitLength
    | AwaitTimestamp
    | AwaitPayload
    | AwaitCrc

  /** What one receiving node accepts. Whatever the declared type, a frame whose length is
      not `length` is rejected at the length byte; a frame of the other known type but of
      the right length is consumed and dropped at the CRC byte. */
  datatype Role = Role(accepts: byte, length: byte, rechecksLength: bool)

  /** antenna.c: Command frames only, length `sizeof(struct rotator_command)`. */
  const Actuator := Role(TypeCommand, CommandSize, true)

  /** station.c: Status frames only, length `sizeof(struct rotator_status)`. */
  const Panel := Role(TypeStatus, StatusSize, false)

  /** The static locals of `parse_byte`: state, the header fields received so far, the
      timestamp accumulator, the count of timestamp bytes, the payload bytes received so far
      and the wrong-type flag. */
  datatype Parser = Parser(
    phase: Phase,
    typ: byte,
    length: byte,
    timestamp: u32,
    count: nat,
    payload: seq<byte>,
    wrong: bool)

  /** Zero-initialised statics. */
  const Initial := Parser(AwaitStart, 0, 0, 0, 0, [], false)

  /** The return value of `parse_byte`: 0, or 1 together with the dispatched frame. */
  datatype Outcome = NoMessage | Message(timestamp: u32, payload: seq<byte>)

  predicate KnownType(b: byte)
  {
    b == TypeStatus || b == TypeCommand
  }

  /** One call of `parse_byte`. */
  function Step(role: Role, p: Parser, b: byte): (r: (Parser, Outcome))
    ensures p.phase == AwaitStart && b != StartByte ==> r == (p, NoMessage)
    ensures p.phase == AwaitStart && b == StartByte ==> r.0.phase == AwaitVersion
    ensures p.phase == AwaitVersion && b != Version ==> r.0.phase == AwaitStart
    ensures p.phase == AwaitType && !KnownType(b) ==> r.0.phase == AwaitStart
    ensures p.phase == AwaitType && KnownType(b) ==> r.0.phase == AwaitLength && r.0.wrong == (b != role.accepts)
    ensures p.phase == AwaitLength && b != role.length ==> r.0.phase == AwaitStart
    ensures p.phase == AwaitCrc ==> r.0.phase == AwaitStart
    ensures r.1.Message? <==>
      p.phase == AwaitCrc && !p.wrong && b == Crc8.Data(CrcInput(p.timestamp, p.payload))
    ensures r.1.Message? ==> r.1 == Message(p.timestamp, p.payload)
  {
    match p.phase
    case AwaitStart =>
      if b != StartByte then (p, NoMessage) else (p.(phase := AwaitVersion), NoMessage)
    case AwaitVersion =>
      // the header and payload buffer are cleared before the version is looked at
      var cleared := Parser(AwaitStart, 0, 0, 0, p.count, [], false);
      if b != Version then (cleared, NoMessage) else (cleared.(phase := AwaitType), NoMessage)
    case AwaitType =>
      if !KnownType(b) then (p.(phase := AwaitStart), NoMessage)
      else (p.(phase := AwaitLength, typ := b, wrong := b != role.accepts), NoMessage)
    case AwaitLength =>
      if b != role.length then (p.(phase := AwaitStart, length := b), NoMessage)
      else (p.(phase := AwaitTimestamp, length := b, count := 0), NoMessage)
    case AwaitTimestamp =>
      var q := p.(timestamp := ShiftInByte(p.timestamp, b), count := p.count + 1);
      if q.count != 4 then (q, NoMessage)
      else if role.rechecksLength && q.length != role.length then (q.(phase := AwaitStart), NoMessage)
      else (q.(phase := AwaitPayload, payload := []), NoMessage)
    case AwaitPayload =>
      var q := p.(payload := p.payload + [b]);
      if |q.payload| == q.length as int then (q.(phase := AwaitCrc), NoMessage) else (q, NoMessage)
    case AwaitCrc =>
      var q := p.(phase := AwaitStart);
      if p.wrong then (q, NoMessage)
      else if b != Crc8.Data(CrcInput(p.timestamp, p.payload)) then (q, NoMessage)
      else (q, Message(p.timestamp, p.payload))
  }

  /** Consistency of the statics that every reachable state keeps. */
  ghost predicate Inv(role: Role, p: Parser)
  {
    && (p.phase in {AwaitLength, AwaitTimestamp, AwaitPayload, AwaitCrc} ==>
          KnownType(p.typ) && p.wrong == (p.typ != role.accepts))
    && (p.phase in {AwaitTimestamp, AwaitPayload, AwaitCrc} ==> p.length == role.length)
    && (p.phase == AwaitTimestamp ==> p.count < 4)
    && (p.phase == AwaitPayload ==> |p.payload| < p.length as int)
    && (p.phase == AwaitCrc ==> |p.payload| == p.length as int)
  }

  lemma InitialInv(role: Role)
    ensures Inv(role, Initial)
  {
  }

  /** Every call keeps the invariant, provided the role expects a non-empty payload. */
  lemma StepInv(role: Role, p: Parser, b: byte)
    requires role.length > 0
    requires Inv(role, p)
    ensures Inv(role, Step(role, p, b).0)
  {
  }

  /** The second length check after the timestamp (antenna.c) can never fire: on every
      reachable state the parser with and without it behaves the same. */
  lemma RecheckIsDead(role: Role, p: Parser, b: byte)
    requires Inv(role, p)
    ensures Step(role, p, b) == Step(role.(rechecksLength := false), p, b)
  {
  }

  // ---- feeding byte strings --------------------------------------------------------------

  /** Feeding bytes one at a time: the final state and the return value of each call. */
  function Feed(role: Role, p: Parser, bs: seq<byte>): (r: (Parser, seq<Outcome>))
    ensures |r.1| == |bs|
    decreases |bs|
  {
    if |bs| == 0 then (p, [])
    else
      var first := Step(role, p, bs[0]);
      var rest := Feed(role, first.0, bs[1..]);
      (rest.0, [first.1] + rest.1)
  }

  lemma FeedOne(role: Role, p: Parser, b: byte)
    ensures Feed(role, p, [b]) == (Step(role, p, b).0, [Step(role, p, b).1])
  {
    var s := Step(role, p, b);
    assert [b][0] == b && [b][1..] == [];
    assert Feed(role, s.0, []) == (s.0, []);
    assert [s.1] + [] == [s.1];
  }

  /** Feeding one more byte after a string. */
  lemma FeedSnoc(role: Role, p: Parser, bs: seq<byte>, b: byte)
    ensures var f := Feed(role, p, bs);
            var s := Step(role, f.0, b);
            Feed(role, p, bs + [b]) == (s.0, f.1 + [s.1])
  {
    FeedAppend(role, p, bs, [b]);
    FeedOne(role, Feed(role, p, bs).0, b);
  }

  function Quiet(n: nat): seq<Outcome>
  {
    seq(n, _ => NoMessage)
  }

  lemma {:induction false} FeedAppend(role: Role, p: Parser, a: seq<byte>, b: seq<byte>)
    ensures var fa := Feed(role, p, a);
            var fb := Feed(role, fa.0, b);
            Feed(role, p, a + b) == (fb.0, fa.1 + fb.1)
    decreases |a|
  {
    if |a| == 0 {
      assert a + b == b;
      assert [] + Feed(role, p, b).1 == Feed(role, p, b).1;
    } else {
      assert (a + b)[0] == a[0];
      assert (a + b)[1..] == a[1..] + b;
      var first := Step(role, p, a[0]);
      FeedAppend(role, first.0, a[1..], b);
      var fa' := Feed(role, first.0, a[1..]);
      var fb := Feed(role, fa'.0, b);
      assert [first.1] + (fa'.1 + fb.1) == ([first.1] + fa'.1) + fb.1;
    }
  }

  /** In the start state every byte other than the start byte is dropped without effect. */
  lemma {:induction false} NoiseIgnored(role: Role, p: Parser, noise: seq<byte>)
    requires p.phase == AwaitStart
    requires forall i :: 0 <= i < |noise| ==> noise[i] != StartByte
    ensures Feed(role, p, noise) == (p, Quiet(|noise|))
    decreases |noise|
  {
    if |noise| > 0 {
      assert Step(role, p, noise[0]) == (p, NoMessage);
      NoiseIgnored(role, p, noise[1..]);
      assert Quiet(|noise|) == [NoMessage] + Quiet(|noise| - 1);
    }
  }

  /** Shifting bytes into the timestamp accumulator one at a time. */
  function ShiftIn(acc: u32, bs: seq<byte>): u32
    decreases |bs|
  {
    if |bs| == 0 then acc else ShiftIn(ShiftInByte(acc, bs[0]), bs[1..])
  }

  lemma {:induction false} ShiftInLe(acc: u32, bs: seq<byte>)
    requires |bs| <= 4
    ensures U32Le(ShiftIn(acc, bs)) == U32Le(acc)[|bs|..] + bs
    decreases |bs|
  {
    if |bs| > 0 {
      ShiftInByteLe(acc, bs[0]);
      var acc1 := ShiftInByte(acc, bs[0]);
      ShiftInLe(acc1, bs[1..]);
      assert U32Le(acc1)[|bs| - 1..] == U32Le(acc)[|bs|..] + [bs[0]];
      assert [bs[0]] + bs[1..] == bs;
    }
  }

  /** Four timestamp bytes rebuild the little-endian value they encode. */
  lemma ShiftInFour(bs: seq<byte>)
    requires |bs| == 4
    ensures ShiftIn(0, bs) == LeU32(bs)
  {
    ShiftInLe(0, bs);
    U32RoundTrip(ShiftIn(0, bs));
  }

  lemma {:induction false} FeedTimestamp(role: Role, p: Parser, bs: seq<byte>)
    requires p.phase == AwaitTimestamp && p.length == role.length
    requires 1 <= |bs| && p.count + |bs| == 4
    ensures Feed(role, p, bs) ==
      (p.(phase := AwaitPayload, timestamp := ShiftIn(p.timestamp, bs), count := 4, payload := []),
       Quiet(|bs|))
    decreases |bs|
  {
    if |bs| > 1 {
      var p1 := p.(timestamp := ShiftInByte(p.timestamp, bs[0]), count := p.count + 1);
      assert Step(role, p, bs[0]) == (p1, NoMessage);
      FeedTimestamp(role, p1, bs[1..]);
      assert Quiet(|bs|) == [NoMessage] + Quiet(|bs| - 1);
    } else {
      assert bs == [bs[0]] && bs[1..] == [];
      assert ShiftIn(p.timestamp, bs) == ShiftInByte(p.timestamp, bs[0]);
      FeedOne(role, p, bs[0]);
      assert Quiet(1) == [NoMessage];
    }
  }

  lemma {:induction false} FeedPayload(role: Role, p: Parser, bs: seq<byte>)
    requires p.phase == AwaitPayload
    requires 1 <= |bs| && |p.payload| + |bs| == p.length as int
    ensures Feed(role, p, bs) == (p.(phase := AwaitCrc, payload := p.payload + bs), Quiet(|bs|))
    decreases |bs|
  {
    var p1 := p.(payload := p.payload + [bs[0]]);
    if |bs| > 1 {
      assert Step(role, p, bs[0]) == (p1, NoMessage);
      FeedPayload(role, p1, bs[1..]);
      assert p1.payload + bs[1..] == p.payload + bs;
      assert Quiet(|bs|) == [NoMessage] + Quiet(|bs| - 1);
    } else {
      assert bs == [bs[0]];
      FeedOne(role, p, bs[0]);
      assert Quiet(1) == [NoMessage];
    }
  }

  /** The state after a frame's header and timestamp have been fed from the start state. */
  function HeaderParsed(role: Role, typ: byte, timestamp: u32): Parser
  {
    Parser(AwaitPayload, typ, role.length, timestamp, 4, [], typ != role.accepts)
  }

  lemma FeedHeader(role: Role, p: Parser, typ: byte, timestamp: u32)
    requires p.phase == AwaitStart && KnownType(typ)
    ensures Feed(role, p, [StartByte, Version, typ, role.length] + U32Le(timestamp)) ==
      (HeaderParsed(role, typ, timestamp), Quiet(8))
  {
    var head: seq<byte> := [StartByte, Version, typ, role.length];
    var ts := U32Le(timestamp);
    var p1 := p.(phase := AwaitVersion);
    var p2 := Parser(AwaitType, 0, 0, 0, p.count, [], false);
    var p3 := p2.(phase := AwaitLength, typ := typ, wrong := typ != role.accepts);
    var p4 := p3.(phase := AwaitTimestamp, length := role.length, count := 0);
    assert Feed(role, p, head) == (p4, Quiet(4)) by {
      assert Step(role, p, StartByte) == (p1, NoMessage);
      assert Step(role, p1, Version) == (p2, NoMessage);
      assert Step(role, p2, typ) == (p3, NoMessage);
      assert Step(role, p3, role.length) == (p4, NoMessage);
      FeedOne(role, p, StartByte);
      assert Feed(role, p, [StartByte]) == (p1, [NoMessage]);
      assert [StartByte] + [Version] == [StartByte, Version];
      FeedSnoc(role, p, [StartByte], Version);
      assert [NoMessage] + [NoMessage] == [NoMessage, NoMessage];
      assert Feed(role, p, [StartByte, Version]) == (p2, [NoMessage, NoMessage]);
      assert [StartByte, Version] + [typ] == [StartByte, Version, typ];
      FeedSnoc(role, p, [StartByte, Version], typ);
      assert [NoMessage, NoMessage] + [NoMessage] == [NoMessage, NoMessage, NoMessage];
      assert Feed(role, p, [StartByte, Version, typ]) == (p3, [NoMessage, NoMessage, NoMessage]);
      assert [StartByte, Version, typ] + [role.length] == head;
      FeedSnoc(role, p, [StartByte, Version, typ], role.length);
      assert [NoMessage, NoMessage, NoMessage] + [NoMessage] == [NoMessage, NoMessage, NoMessage, NoMessage];
      assert Feed(role, p, head) == (p4, [NoMessage, NoMessage, NoMessage, NoMessage]);
      assert Quiet(4) == [NoMessage, NoMessage, NoMessage, NoMessage];
    }
    FeedTimestamp(role, p4, ts);
    ShiftInFour(ts);
    U32RoundTrip(timestamp);
    FeedAppend(role, p, head, ts);
    assert Quiet(4) + Quiet(4) == Quiet(8);
  }

  /** Feeding a well-formed frame of either known type, with an arbitrary last byte, from
      the start state: the parser ends in the start state and returns 1 on the last byte
      exactly when the frame has the type this node accepts and the last byte is the CRC. */
  lemma FeedFrame(role: Role, p: Parser, typ: byte, timestamp: u32, payload: seq<byte>, last: byte)
    requires p.phase == AwaitStart && KnownType(typ)
    requires |payload| == role.length as int && role.length > 0
    ensures
      var f := EncodeFrame(typ, timestamp, payload);
      var sent := f[..|f| - 1] + [last];
      var ok := typ == role.accepts && last == Crc8.Data(CrcInput(timestamp, payload));
      var (q, outs) := Feed(role, p, sent);
      && q.phase == AwaitStart
      && outs == Quiet(|f| - 1) + [if ok then Message(timestamp, payload) else NoMessage]
  {
    var head: seq<byte> := [StartByte, Version, typ, role.length] + U32Le(timestamp);
    FrameBytes(typ, timestamp, payload, last);
    FeedBody(role, p, typ, timestamp, payload);
    var pc := HeaderParsed(role, typ, timestamp).(phase := AwaitCrc, payload := payload);
    FeedOne(role, pc, last);
    FeedAppend(role, p, head + payload, [last]);
  }

  /** A frame with its CRC byte replaced is the header, the payload and the new last byte. */
  lemma FrameBytes(typ: byte, timestamp: u32, payload: seq<byte>, last: byte)
    requires |payload| < 0x100
    ensures var f := EncodeFrame(typ, timestamp, payload);
      && f[..|f| - 1] + [last] == [StartByte, Version, typ, |payload|] + U32Le(timestamp) + payload + [last]
      && |f| - 1 == 8 + |payload|
  {
    var f := EncodeFrame(typ, timestamp, payload);
    assert f[..|f| - 1] == [StartByte, Version, typ, |payload|] + U32Le(timestamp) + payload;
  }

  /** Everything before the CRC byte leaves the parser awaiting it, having returned 0 on
      every byte. */
  lemma FeedBody(role: Role, p: Parser, typ: byte, timestamp: u32, payload: seq<byte>)
    requires p.phase == AwaitStart && KnownType(typ)
    requires |payload| == role.length as int && role.length > 0
    ensures Feed(role, p, [StartByte, Version, typ, role.length] + U32Le(timestamp) + payload) ==
      (HeaderParsed(role, typ, timestamp).(phase := AwaitCrc, payload := payload), Quiet(8 + |payload|))
  {
    var head: seq<byte> := [StartByte, Version, typ, role.length] + U32Le(timestamp);
    var ph := HeaderParsed(role, typ, timestamp);
    FeedHeader(role, p, typ, timestamp);
    FeedPayload(role, ph, payload);
    assert ph.payload + payload == payload;
    FeedAppend(role, p, head, payload);
    QuietAppend(8, |payload|);
  }

  /** Round trip: a frame encoded for this node, fed byte by byte from the start state,
      yields exactly one dispatch, on the last byte, of the same timestamp and payload. */
  lemma RoundTrip(role: Role, p: Parser, timestamp: u32, payload: seq<byte>)
    requires p.phase == AwaitStart && KnownType(role.accepts)
    requires |payload| == role.length as int && role.length > 0
    ensures
      var f := EncodeFrame(role.accepts, timestamp, payload);
      var (q, outs) := Feed(role, p, f);
      q.phase == AwaitStart && outs == Quiet(|f| - 1) + [Message(timestamp, payload)]
  {
    var f := EncodeFrame(role.accepts, timestamp, payload);
    FeedFrame(role, p, role.accepts, timestamp, payload, f[|f| - 1]);
    assert f[..|f| - 1] + [f[|f| - 1]] == f;
    assert f[TimestampOffset..|f| - 1] == CrcInput(timestamp, payload);
  }

  /** A frame of the other known type with the accepted length is consumed to its end and
      never dispatched. */
  lemma WrongTypeDropped(role: Role, p: Parser, typ: byte, timestamp: u32, payload: seq<byte>)
    requires p.phase == AwaitStart && KnownType(typ) && typ != role.accepts
    requires |payload| == role.length as int && role.length > 0
    ensures
      var f := EncodeFrame(typ, timestamp, payload);
      var (q, outs) := Feed(role, p, f);
      q.phase == AwaitStart && outs == Quiet(|f|)
  {
    var f := EncodeFrame(typ, timestamp, payload);
    FeedFrame(role, p, typ, timestamp, payload, f[|f| - 1]);
    assert f[..|f| - 1] + [f[|f| - 1]] == f;
    assert Quiet(|f| - 1) + [NoMessage] == Quiet(|f|);
  }

  /** A frame whose CRC byte is corrupted is never dispatched, and the parser is back in the
      start state, ready for the next frame. */
  lemma BadCrcDropped(role: Role, p: Parser, timestamp: u32, payload: seq<byte>, last: byte)
    requires p.phase == AwaitStart && KnownType(role.accepts)
    requires |payload| == role.length as int && role.length > 0
    requires last != Crc8.Data(CrcInput(timestamp, payload))
    ensures
      var f := EncodeFrame(role.accepts, timestamp, payload);
      var (q, outs) := Feed(role, p, f[..|f| - 1] + [last]);
      q.phase == AwaitStart && outs == Quiet(|f|)
  {
    var f := EncodeFrame(role.accepts, timestamp, payload);
    FeedFrame(role, p, role.accepts, timestamp, payload, last);
    assert Quiet(|f| - 1) + [NoMessage] == Quiet(|f|);
  }

  /** Scenario: a frame with a corrupted CRC byte, then an intact frame. Only the second is
      dispatched, on its last byte. */
  lemma BadCrcThenFrame(role: Role, p: Parser, t1: u32, p1: seq<byte>, last: byte, t2: u32, p2: seq<byte>)
    requires p.phase == AwaitStart && KnownType(role.accepts) && role.length > 0
    requires |p1| == role.length as int && |p2| == role.length as int
    requires last != Crc8.Data(CrcInput(t1, p1))
    ensures
      var f1 := EncodeFrame(role.accepts, t1, p1);
      var bad := f1[..|f1| - 1] + [last];
      var good := EncodeFrame(role.accepts, t2, p2);
      var r := Feed(role, p, bad + good);
      r.0.phase == AwaitStart && r.1 == Quiet(|bad| + |good| - 1) + [Message(t2, p2)]
  {
    var f1 := EncodeFrame(role.accepts, t1, p1);
    var bad := f1[..|f1| - 1] + [last];
    var good := EncodeFrame(role.accepts, t2, p2);
    BadCrcDropped(role, p, t1, p1, last);
    var q := Feed(role, p, bad).0;
    RoundTrip(role, q, t2, p2);
    FeedAppend(role, p, bad, good);
    QuietAppend(|bad|, |good| - 1);
    ConcatAssoc(Quiet(|bad|), Quiet(|good| - 1), [Message(t2, p2)]);
  }

  lemma ConcatAssoc<T>(a: seq<T>, b: seq<T>, c: seq<T>)
    ensures a + (b + c) == (a + b) + c
  {
  }

  /** A frame whose declared length is not the one this node expects is abandoned at the
      length byte: after the four header bytes the parser is back in the start state. */
  lemma WrongLengthRejected(role: Role, p: Parser, typ: byte, length: byte)
    requires p.phase == AwaitStart && KnownType(typ) && length != role.length
    ensures Feed(role, p, [StartByte, Version, typ, length]).0.phase == AwaitStart
  {
    var p1 := p.(phase := AwaitVersion);
    var p2 := Parser(AwaitType, 0, 0, 0, p.count, [], false);
    var p3 := p2.(phase := AwaitLength, typ := typ, wrong := typ != role.accepts);
    var p4 := p3.(phase := AwaitStart, length := length);
    assert Step(role, p, StartByte).0 == p1;
    assert Step(role, p1, Version).0 == p2;
    assert Step(role, p2, typ).0 == p3;
    assert Step(role, p3, length).0 == p4;
    FeedOne(role, p, StartByte);
    assert [StartByte] + [Version] == [StartByte, Version];
    FeedSnoc(role, p, [StartByte], Version);
    assert [StartByte, Version] + [typ] == [StartByte, Version, typ];
    FeedSnoc(role, p, [StartByte, Version], typ);
    assert [StartByte, Version, typ] + [length] == [StartByte, Version, typ, length];
    FeedSnoc(role, p, [StartByte, Version, typ], length);
  }

  /** How many bytes of a frame the parser has taken since its start byte was seen (zero
      in the start state). Every call adds at most one, and only the call that consumes a
      frame's last byte, with `8 + length` bytes behind it, can dispatch. */
  function Progress(p: Parser): nat
  {
    match p.phase
    case AwaitStart => 0
    case AwaitVersion => 1
    case AwaitType => 2
    case AwaitLength => 3
    case AwaitTimestamp => 4 + p.count
    case AwaitPayload => 8 + |p.payload|
    case AwaitCrc => 8 + |p.payload|
  }

  lemma StepProgress(role: Role, p: Parser, b: byte)
    requires role.length > 0 && Inv(role, p)
    ensures Progress(Step(role, p, b).0) <= Progress(p) + 1
    ensures Step(role, p, b).1.Message? ==> Progress(p) == 8 + role.length as int
  {
  }

  /** Fewer bytes than it takes to finish a frame never produce a message, whatever they
      are: a dispatch needs a complete header, payload and CRC after a start byte. */
  lemma {:induction false} ShortInputQuiet(role: Role, p: Parser, bs: seq<byte>)
    requires role.length > 0 && Inv(role, p)
    requires Progress(p) + |bs| <= 8 + role.length as int
    ensures Feed(role, p, bs).1 == Quiet(|bs|)
    decreases |bs|
  {
    if |bs| > 0 {
      var first := Step(role, p, bs[0]);
      StepProgress(role, p, bs[0]);
      StepInv(role, p, bs[0]);
      ShortInputQuiet(role, first.0, bs[1..]);
      assert Quiet(|bs|) == [NoMessage] + Quiet(|bs| - 1);
    }
  }

  lemma QuietAppend(a: nat, b: nat)
    ensures Quiet(a) + Quiet(b) == Quiet(a + b)
  {
  }

  /** Noise free of start bytes in front of any input changes nothing but the extra
      zero returns. */
  lemma NoiseThen(role: Role, p: Parser, noise: seq<byte>, bs: seq<byte>)
    requires p.phase == AwaitStart
    requires forall i :: 0 <= i < |noise| ==> noise[i] != StartByte
    ensures Feed(role, p, noise + bs) == (Feed(role, p, bs).0, Quiet(|noise|) + Feed(role, p, bs).1)
  {
    NoiseIgnored(role, p, noise);
    FeedAppend(role, p, noise, bs);
  }

  /** Noise free of start bytes, followed by a frame for this node: exactly one dispatch, on
      the frame's last byte. */
  lemma NoiseThenFrame(role: Role, p: Parser, noise: seq<byte>, timestamp: u32, payload: seq<byte>)
    requires p.phase == AwaitStart && KnownType(role.accepts)
    requires |payload| == role.length as int && role.length > 0
    requires forall i :: 0 <= i < |noise| ==> noise[i] != StartByte
    ensures
      var f := EncodeFrame(role.accepts, timestamp, payload);
      var r := Feed(role, p, noise + f);
      r.0.phase == AwaitStart && r.1 == Quiet(|noise| + |f| - 1) + [Message(timestamp, payload)]
  {
    var f := EncodeFrame(role.accepts, timestamp, payload);
    var m := Message(timestamp, payload);
    NoiseThen(role, p, noise, f);
    RoundTrip(role, p, timestamp, payload);
    QuietAppend(|noise|, |f| - 1);
    assert Quiet(|noise|) + (Quiet(|f| - 1) + [m]) == (Quiet(|noise|) + Quiet(|f| - 1)) + [m];
  }
}
