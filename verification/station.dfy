/** The control-panel node (station.c). A quadrature encoder and three switches are sampled
    from GPIO edge events, debounced by timestamps, and reported to the antenna as Command
    frames; Status frames coming back update the antenna telemetry; a watchdog drops the
    connection when the antenna falls silent.

    The `gpio_data` structure, `antenna_status`, `status_timestamp`, the static
    `prev_timestamp` of `button_callback` and the statics of `parse_byte` together become
    the `Panel` record. Every event takes the monotonic clock in milliseconds as `now`, and
    the frames that `send_message` writes towards the antenna are returned.
 */
module Station {
  import opened Bytes
  import opened Protocol
  import FrameParser

  /** Minimum spacing, in ms, of encoder steps and of button events. */
  const Debounce := 5
  /** `STATUS_TIMEOUT`: silence, in ms, after which the watchdog drops the connection. */
  const StatusTimeout := 2000

  datatype Edge = Rising | Falling
  datatype EncoderPin = PinA | PinB

  /** The line level after an edge. */
  function Level(e: Edge): bit
  {
    if e == Rising then 1 else 0
  }

  /** `antenna_status`: what the panel knows about the antenna. */
  datatype Telemetry = Telemetry(updated: bool, angle: int, powerStatus: int, vbat: int, connected: bool)

  /** The state of the panel process. `pinA`/`pinB` are the recorded levels of the encoder
      lines, `lastA`/`lastB` the levels at the last counted transition. */
  datatype Panel = Panel(
    switchStatus: u32,
    pinA: bit,
    pinB: bit,
    lastA: bit,
    lastB: bit,
    encoderPrev: u64,
    counter: i32,
    diffCounter: i32,
    swTimestamp: seq<u32>,
    swChange: u32,
    buttonPrev: u64,
    telemetry: Telemetry,
    statusTimestamp: u64,
    parser: FrameParser.Parser)

  const Role := FrameParser.Panel

  /** What every reachable state satisfies: one debounce timestamp per switch, a parser
      invariant, and encoder levels that have all been accounted for. */
  ghost predicate Valid(p: Panel)
  {
    && |p.swTimestamp| == SwitchCount
    && FrameParser.Inv(Role, p.parser)
    && p.pinA == p.lastA && p.pinB == p.lastB
  }

  /** `main`: everything zero, except that the antenna switch bit starts set when the
      (active-low) master switch line reads low. */
  function Boot(masterLineLow: bool): (p: Panel)
    ensures Valid(p)
    ensures SwitchOn(p.switchStatus, SwitchAntennaNum) <==> masterLineLow
    ensures !p.telemetry.connected && p.statusTimestamp == 0
  {
    FrameParser.InitialInv(Role);
    Panel(if masterLineLow then 1 else 0, 0, 0, 0, 0, 0, 0, 0, [0, 0, 0], 0, 0,
          Telemetry(false, 0, 0, 0, false), 0, FrameParser.Initial)
  }

  // ---- reporting -------------------------------------------------------------------------

  /** The Command `send_message` reports: the encoder counter and the switch word (a
      `uint32_t` stored into an `int32_t`). */
  function CommandOf(p: Panel): Command
  {
    Command(p.counter, ToI32(p.switchStatus))
  }

  /** `send_message`: nothing while no antenna is connected, otherwise one Command frame
      stamped with the millisecond clock cut to 32 bits. */
  function SendMessage(p: Panel, now: u64): (frames: seq<seq<byte>>)
    ensures !p.telemetry.connected ==> frames == []
    ensures p.telemetry.connected ==> |frames| == 1 && |frames[0]| == 17
  {
    if !p.telemetry.connected then [] else [CommandFrame(ToU32(now), CommandOf(p))]
  }

  // ---- encoder ---------------------------------------------------------------------------

  /** The step of one transition: on line A, -1 when the lines are now equal and +1
      otherwise; on line B the other way round. */
  function EncoderStep(pin: EncoderPin, a: bit, b: bit): int
  {
    if pin == PinA then (if a == b then -1 else 1) else (if a == b then 1 else -1)
  }

  /** Position of the line levels (A, B) in the forward Gray sequence 00, 10, 11, 01. */
  function GrayIndex(a: bit, b: bit): int
  {
    if a == 0 && b == 0 then 0 else if a == 1 && b == 0 then 1 else if a == 1 then 2 else 3
  }

  /** The step of every single-line transition is +1 when it moves one place forward in the
      Gray sequence and -1 when it moves one place back. */
  lemma StepFollowsGrayOrder(pin: EncoderPin, a: bit, b: bit, a': bit, b': bit)
    requires pin == PinA ==> b' == b && a' != a
    requires pin == PinB ==> a' == a && b' != b
    ensures EncoderStep(pin, a', b') == 1 <==> (GrayIndex(a', b') - GrayIndex(a, b)) % 4 == 1
    ensures EncoderStep(pin, a', b') == -1 <==> (GrayIndex(a', b') - GrayIndex(a, b)) % 4 == 3
  {
  }

  /** `encoder_callback`. While the antenna switch is off edges are ignored altogether.
      Otherwise the line level is recorded, and if the pair of levels changed the step is
      counted, provided more than 5 ms passed since the previous counted transition; the
      time of the transition is recorded either way. */
  function EncoderEdge(p: Panel, pin: EncoderPin, edge: Edge, now: u64): (r: (Panel, seq<seq<byte>>))
    requires Valid(p)
    ensures Valid(r.0)
    ensures !SwitchOn(p.switchStatus, SwitchAntennaNum) ==> r == (p, [])
    ensures r.0.switchStatus == p.switchStatus && r.0.swChange == p.swChange
    ensures SwitchOn(p.switchStatus, SwitchAntennaNum) ==>
      (if pin == PinA then r.0.pinA == Level(edge) && r.0.pinB == p.pinB
       else r.0.pinB == Level(edge) && r.0.pinA == p.pinA)
    ensures (r.0.pinA, r.0.pinB) == (p.pinA, p.pinB) ==> r == (p, [])
    ensures r.0.counter != p.counter ==> ElapsedU64(now, p.encoderPrev) > Debounce
    ensures r.1 != [] ==> r.1 == SendMessage(r.0, now)
    ensures SwitchOn(p.switchStatus, SwitchAntennaNum) && (r.0.pinA, r.0.pinB) != (p.pinA, p.pinB) ==>
      r.0.encoderPrev == now &&
      (if ElapsedU64(now, p.encoderPrev) > Debounce then
         && r.0.counter == ToI32(p.counter + EncoderStep(pin, r.0.pinA, r.0.pinB))
         && r.0.diffCounter == ToI32(p.diffCounter + EncoderStep(pin, r.0.pinA, r.0.pinB))
         && r.1 == SendMessage(r.0, now)
       else r.0.counter == p.counter && r.0.diffCounter == p.diffCounter && r.1 == [])
  {
    if !SwitchOn(p.switchStatus, SwitchAntennaNum) then (p, [])
    else
      var q := if pin == PinA then p.(pinA := Level(edge)) else p.(pinB := Level(edge));
      if q.pinA == q.lastA && q.pinB == q.lastB then (q, [])
      else
        var step := EncoderStep(pin, q.pinA, q.pinB);
        var moved := q.(lastA := q.pinA, lastB := q.pinB, encoderPrev := now);
        if ElapsedU64(now, p.encoderPrev) > Debounce then
          var counted := moved.(counter := ToI32(moved.counter + step),
                                diffCounter := ToI32(moved.diffCounter + step));
          (counted, SendMessage(counted, now))
        else (moved, [])
  }

  /** Turning the encoder one full forward cycle, with more than 5 ms between edges, adds
      4 to the counter; one full backward cycle subtracts 4. */
  lemma GrayCycle(p: Panel, t: u64)
    requires Valid(p) && SwitchOn(p.switchStatus, SwitchAntennaNum)
    requires p.pinA == 0 && p.pinB == 0
    requires -0x8000_0000 + 4 <= p.counter < 0x8000_0000 - 4
    requires p.encoderPrev + Debounce < t && t + 3 * (Debounce + 1) < 0x1_0000_0000_0000_0000
    ensures var t1, t2, t3 := t + Debounce + 1, t + 2 * (Debounce + 1), t + 3 * (Debounce + 1);
      var forward :=
        EncoderEdge(EncoderEdge(EncoderEdge(EncoderEdge(p, PinA, Rising, t).0,
          PinB, Rising, t1).0, PinA, Falling, t2).0, PinB, Falling, t3).0;
      var backward :=
        EncoderEdge(EncoderEdge(EncoderEdge(EncoderEdge(p, PinB, Rising, t).0,
          PinA, Rising, t1).0, PinB, Falling, t2).0, PinA, Falling, t3).0;
      forward.counter == p.counter + 4 && backward.counter == p.counter - 4
  {
  }

  // ---- switches --------------------------------------------------------------------------

  /** `button_callback` for switch `num`. A rising edge (released, the lines are pulled up)
      clears the switch bit and a falling edge sets it, always. The change is latched for
      reporting only when at least 5 ms passed since the previous edge of any button: the
      debounce clock is shared by all buttons. */
  function ButtonEdge(p: Panel, num: nat, edge: Edge, now: u64): (r: Panel)
    requires Valid(p) && num < SwitchCount
    ensures Valid(r)
    ensures edge == Rising ==> !SwitchOn(r.switchStatus, num)
    ensures edge == Falling ==> SwitchOn(r.switchStatus, num)
    ensures forall k :: 0 <= k < SwitchCount && k != num ==>
      (SwitchOn(r.switchStatus, k) <==> SwitchOn(p.switchStatus, k))
    ensures r.buttonPrev == now
    ensures ElapsedU64(now, p.buttonPrev) < Debounce ==> r.swChange == p.swChange && r.swTimestamp == p.swTimestamp
    ensures ElapsedU64(now, p.buttonPrev) >= Debounce ==>
      SwitchOn(r.swChange, num) && r.swTimestamp == p.swTimestamp[num := ToU32(now)]
    ensures r.counter == p.counter && r.diffCounter == p.diffCounter
  {
    var word := if edge == Rising then WithoutSwitch(p.switchStatus, num) else WithSwitch(p.switchStatus, num);
    var q := p.(switchStatus := word, buttonPrev := now);
    if ElapsedU64(now, p.buttonPrev) < Debounce then q
    else q.(swChange := WithSwitch(q.swChange, num), swTimestamp := q.swTimestamp[num := ToU32(now)])
  }

  /** Two edges less than 5 ms apart, even on different buttons: the second one changes its
      switch bit but is not latched. */
  lemma SharedDebounce(p: Panel, first: nat, second: nat, e1: Edge, e2: Edge, t1: u64, t2: u64)
    requires Valid(p) && first < SwitchCount && second < SwitchCount
    requires t1 <= t2 < t1 + Debounce
    ensures var q := ButtonEdge(p, first, e1, t1);
      ButtonEdge(q, second, e2, t2).swChange == q.swChange
  {
  }

  /** `check_switch`: report a latched switch once it has been stable for 5 ms (measured on
      the 32-bit clock); returns whether it was reported. */
  function CheckSwitch(p: Panel, num: nat, now: u64): (r: (Panel, seq<seq<byte>>, bool))
    requires Valid(p) && num < SwitchCount
    ensures Valid(r.0)
    ensures !r.2 <==> ElapsedU32(ToU32(now), p.swTimestamp[num]) < Debounce
    ensures !r.2 ==> r.0 == p && r.1 == []
    ensures r.2 ==> !SwitchOn(r.0.swChange, num) && r.1 == SendMessage(r.0, now)
    ensures r.0.switchStatus == p.switchStatus && r.0.counter == p.counter
    ensures r.0.diffCounter == p.diffCounter && r.0.telemetry == p.telemetry
  {
    if ElapsedU32(ToU32(now), p.swTimestamp[num]) < Debounce then (p, [], false)
    else
      var q := p.(swChange := WithoutSwitch(p.swChange, num));
      (q, SendMessage(q, now), true)
  }

  /** Settle one latched switch: check it, then forget the latch whatever the check said. */
  function Settle(p: Panel, num: nat, now: u64): (r: (Panel, seq<seq<byte>>))
    requires Valid(p) && num < SwitchCount
    ensures Valid(r.0) && !SwitchOn(r.0.swChange, num)
    ensures r.0.switchStatus == p.switchStatus && r.0.counter == p.counter
    ensures r.0.diffCounter == p.diffCounter && r.0.telemetry == p.telemetry
  {
    var checked := CheckSwitch(p, num, now);
    (checked.0.(swChange := WithoutSwitch(checked.0.swChange, num)), checked.1)
  }

  /** The poll-timeout branch of `reader` (100 ms without GPIO events): the per-interval
      encoder difference is reset; latched switches are settled, the encoder switch first,
      and one more report is sent. Afterwards no change is latched. */
  function PollTimeout(p: Panel, now: u64): (r: (Panel, seq<seq<byte>>))
    requires Valid(p)
    ensures Valid(r.0)
    ensures r.0.diffCounter == 0 && r.0.swChange == 0
    ensures r.0.switchStatus == p.switchStatus && r.0.counter == p.counter
    ensures p.swChange == 0 ==> r.1 == []
    ensures p.swChange != 0 && p.telemetry.connected ==> |r.1| >= 1
    ensures !p.telemetry.connected ==> r.1 == []
  {
    var q := p.(diffCounter := 0);
    if q.swChange == 0 then (q, [])
    else
      var enc := if SwitchOn(q.swChange, SwitchEncoderNum) then Settle(q, SwitchEncoderNum, now) else (q, []);
      var ant := if SwitchOn(enc.0.swChange, SwitchAntennaNum) then Settle(enc.0, SwitchAntennaNum, now) else (enc.0, []);
      // any other latched switch is dropped without a check of its own
      var cleared := ant.0.(swChange := 0);
      (cleared, enc.1 + ant.1 + SendMessage(cleared, now))
  }

  // ---- the link to the antenna -----------------------------------------------------------

  /** `process_message`: the antenna's Status updates the telemetry. */
  function ProcessMessage(t: Telemetry, s: Status): (r: Telemetry)
    ensures r.updated && r.connected == t.connected
    ensures r.angle == s.angle && r.powerStatus == s.status && r.vbat == s.vbat
  {
    t.(angle := s.angle, powerStatus := s.status, updated := true, vbat := s.vbat)
  }

  /** The server accepting a connection: connected, and one report to prime the antenna.
      Neither the parser nor the watchdog timestamp is reset. */
  function Accept(p: Panel, now: u64): (r: (Panel, seq<seq<byte>>))
    requires Valid(p)
    ensures Valid(r.0) && r.0.telemetry.connected
    ensures r.0.parser == p.parser && r.0.statusTimestamp == p.statusTimestamp
    ensures |r.1| == 1
  {
    var q := p.(telemetry := p.telemetry.(connected := true));
    (q, SendMessage(q, now))
  }

  /** One received byte: `parse_byte`, and on a complete Status frame the telemetry update
      and the watchdog timestamp. */
  function ReceiveByte(p: Panel, b: byte, now: u64): (r: Panel)
    requires Valid(p)
    ensures Valid(r)
    ensures r.parser == FrameParser.Step(Role, p.parser, b).0
    ensures FrameParser.Step(Role, p.parser, b).1.NoMessage? ==> r == p.(parser := r.parser)
    ensures FrameParser.Step(Role, p.parser, b).1.Message? ==> r.statusTimestamp == now && r.telemetry.updated
    ensures r.switchStatus == p.switchStatus && r.counter == p.counter
  {
    var s := FrameParser.Step(Role, p.parser, b);
    FrameParser.StepInv(Role, p.parser, b);
    match s.1
    case NoMessage => p.(parser := s.0)
    case Message(_, payload) =>
      p.(parser := s.0, telemetry := ProcessMessage(p.telemetry, DecodeStatus(payload)), statusTimestamp := now)
  }

  /** The loop over the bytes of one `read` from the antenna. */
  function Receive(p: Panel, bs: seq<byte>, now: u64): (r: Panel)
    requires Valid(p)
    ensures Valid(r)
    ensures r.parser == FrameParser.Feed(Role, p.parser, bs).0
    decreases |bs|
  {
    if |bs| == 0 then p else Receive(ReceiveByte(p, bs[0], now), bs[1..], now)
  }

  lemma {:induction false} ReceiveAppend(p: Panel, a: seq<byte>, b: seq<byte>, now: u64)
    requires Valid(p)
    ensures Receive(p, a + b, now) == Receive(Receive(p, a, now), b, now)
    decreases |a|
  {
    if |a| == 0 {
      assert a + b == b;
    } else {
      assert (a + b)[0] == a[0];
      assert (a + b)[1..] == a[1..] + b;
      ReceiveAppend(ReceiveByte(p, a[0], now), a[1..], b, now);
    }
  }

  /** Bytes on which the parser dispatches nothing change nothing but the parser. */
  lemma {:induction false} ReceiveQuiet(p: Panel, bs: seq<byte>, now: u64)
    requires Valid(p)
    requires FrameParser.Feed(Role, p.parser, bs).1 == FrameParser.Quiet(|bs|)
    ensures Receive(p, bs, now) == p.(parser := FrameParser.Feed(Role, p.parser, bs).0)
    decreases |bs|
  {
    if |bs| > 0 {
      var s := FrameParser.Step(Role, p.parser, bs[0]);
      var rest := FrameParser.Feed(Role, s.0, bs[1..]);
      assert FrameParser.Feed(Role, p.parser, bs).1 == [s.1] + rest.1;
      assert s.1 == FrameParser.Quiet(|bs|)[0];
      assert rest.1 == FrameParser.Quiet(|bs|)[1..];
      ReceiveQuiet(ReceiveByte(p, bs[0], now), bs[1..], now);
    }
  }

  /** End to end: a Status frame received from the start state updates the telemetry with
      exactly the Status that was encoded, and re-arms the watchdog. */
  lemma StatusDelivered(p: Panel, timestamp: u32, s: Status, now: u64)
    requires Valid(p) && p.parser.phase == FrameParser.AwaitStart
    ensures var r := Receive(p, StatusFrame(timestamp, s), now);
      && r.telemetry == ProcessMessage(p.telemetry, s)
      && r.statusTimestamp == now
      && r.parser.phase == FrameParser.AwaitStart
      && r.switchStatus == p.switchStatus && r.counter == p.counter
  {
    var payload := EncodeStatus(s);
    var f := StatusFrame(timestamp, s);
    var m := FrameParser.Message(timestamp, payload);
    var pre := f[..13];
    var last := f[13];
    assert f == pre + [last];
    FrameParser.RoundTrip(Role, p.parser, timestamp, payload);
    FrameParser.FeedAppend(Role, p.parser, pre, [last]);
    var fa := FrameParser.Feed(Role, p.parser, pre);
    FrameParser.FeedOne(Role, fa.0, last);
    assert fa.1 == (FrameParser.Quiet(13) + [m])[..13];
    assert FrameParser.Quiet(13) == (FrameParser.Quiet(13) + [m])[..13];
    assert FrameParser.Step(Role, fa.0, last).1 == m;
    ReceiveQuiet(p, pre, now);
    ReceiveAppend(p, pre, [last], now);
    StatusRoundTrip(s);
    var mid := p.(parser := fa.0);
    assert Receive(mid, [last], now) == ReceiveByte(mid, last, now) by {
      assert [last][0] == last && [last][1..] == [];
    }
  }

  /** The watchdog of the server loop, on a poll with nothing to read: disconnect exactly
      when a Status has been received at some time and the last one is more than 2000 ms
      old. Its result says whether the connection was dropped. */
  function IdlePoll(p: Panel, now: u64): (r: (Panel, bool))
    ensures r.1 <==> p.statusTimestamp != 0 && ElapsedU64(now, p.statusTimestamp) > StatusTimeout
    ensures r.1 ==> r.0 == p.(telemetry := p.telemetry.(connected := false))
    ensures !r.1 ==> r.0 == p
  {
    if p.statusTimestamp != 0 && ElapsedU64(now, p.statusTimestamp) > StatusTimeout then
      (p.(telemetry := p.telemetry.(connected := false)), true)
    else (p, false)
  }

  /** Scenario: 2001 ms after the last Status the connection is dropped; at 2000 ms it is
      kept. */
  lemma WatchdogAt2001(p: Panel, t: u64)
    requires p.statusTimestamp == t && t > 0 && t + 2001 < 0x1_0000_0000_0000_0000
    ensures IdlePoll(p, t + 2001).1
    ensures !IdlePoll(p, t + 2000).1
  {
  }

  /** The watchdog timestamp survives a reconnect: an idle poll right after accepting a new
      antenna drops it again if the previous antenna's last Status is more than 2000 ms
      old, before the new one has had a chance to answer. */
  lemma StaleWatchdogAfterReconnect(p: Panel, t: u64, now: u64)
    requires Valid(p) && p.statusTimestamp == t && t > 0 && t + StatusTimeout < now
    ensures var q := Accept(p, now).0;
      IdlePoll(q, now).1 && !IdlePoll(q, now).0.telemetry.connected
  {
  }
}
