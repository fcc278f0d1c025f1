/** The antenna node (antenna.c). It receives Command frames, turns encoder positions into a
    servo pulse width, drives the master power switch and keeps the pulse width in the
    `control.ini` file. Writes that should outlive a power cut are deferred: every device
    change restarts a five-second one-shot timer, and the alarm commits the pulse width to
    the file and the requested switch state to the power line.

    The statics of the C file become the `Rotator` record; device and file writes become
    `Effect`s; whether the sysfs duty-cycle file and the ini file can be opened are the
    parameters `pwmOk` and `fileOk`; the monotonic clock is the parameter `now` (ms).
 */
module Antenna {
  import opened Bytes
  import opened Options
  import opened Text
  import opened Protocol
  import FrameParser

  const PwmMin := 600000
  const PwmMax := 2400000
  const PwmCenter := (PwmMin + PwmMax) / 2
  const AngleMin := -120
  const AngleMax := 120
  /** Pulse width per degree: (PwmMax - PwmMin) / (AngleMax - AngleMin). */
  const PwmPerDegree := 7500
  /** Pulse-width change per encoder step, and its factor while the encoder switch is on. */
  const FineStep := 3000
  const CoarseFactor := 10
  /** `set_timeout(5)`: five seconds, in the milliseconds of `now`. */
  const CommitDelay := 5000

  predicate InRange(pwm: int)
  {
    PwmMin <= pwm <= PwmMax
  }

  function Clamp(pwm: int): (r: int)
    ensures InRange(r)
    ensures InRange(pwm) ==> r == pwm
  {
    if pwm < PwmMin then PwmMin else if pwm > PwmMax then PwmMax else pwm
  }

  /** A device or file write. */
  datatype Effect =
    | PwmDuty(duty: int)           // the sysfs `duty_cycle` file
    | PowerLine(level: bit)        // the master switch GPIO line
    | IniFile(lines: seq<string>)  // `control.ini` rewritten with these lines

  /** The statics of antenna.c: `current_pwm`, `stored_pwm`, `master_sw.sw_status`,
      `master_sw.power_status`, `first` and `last_position` of `process_command`, and the
      interval timer (`alarmAt` is the time it fires, `None` when it is not running). */
  datatype Rotator = Rotator(
    currentPwm: i32,
    storedPwm: i32,
    swStatus: bit,
    powerStatus: bit,
    first: bool,
    lastPosition: i32,
    alarmAt: Option<int>)

  /** The pulse width is always a valid servo position. The stored one is too, except that
      it keeps its initial 0 until the ini file is first read or written. */
  predicate Valid(a: Rotator)
  {
    InRange(a.currentPwm) && (a.storedPwm == 0 || InRange(a.storedPwm))
  }

  // ---- control.ini -----------------------------------------------------------------------

  /** The value a line of the ini file assigns to `pwm`, already checked against the servo
      range, or `None` when the line does not assign `pwm`: it starts with '#', has no '=',
      or its key (white space around it removed) is not exactly "pwm". */
  function PwmSetting(line: string): (r: Option<int>)
    ensures |line| > 0 && line[0] == '#' ==> r.None?
    ensures '=' !in line ==> r.None?
    ensures r.Some? ==> InRange(r.value)
  {
    if |line| > 0 && line[0] == '#' then None
    else
      var name := SkipSpaces(line);
      match IndexOf(name, '=')
      case None => None
      case Some(eq) =>
        if TrimEnd(name[..eq]) != "pwm" then None
        else
          var pwm := ToI32(Atol(name[eq + 1..]));
          Some(if pwm < PwmMin || pwm > PwmMax then PwmCenter else pwm)
  }

  /** The first value present in `settings`, or `otherwise` when there is none. */
  function FirstSome(settings: seq<Option<int>>, otherwise: int): (r: int)
    ensures (forall i :: 0 <= i < |settings| ==> settings[i].None?) ==> r == otherwise
    ensures r == otherwise || exists i :: 0 <= i < |settings| && settings[i] == Some(r)
    decreases |settings|
  {
    if |settings| == 0 then otherwise
    else
      match settings[0]
      case Some(v) => v
      case None =>
        var r := FirstSome(settings[1..], otherwise);
        assert forall i :: 0 <= i < |settings| - 1 ==> settings[1..][i] == settings[i + 1];
        r
  }

  /** The first value present wins; later ones are not looked at. */
  lemma {:induction false} FirstSomeWins(settings: seq<Option<int>>, otherwise: int, i: nat)
    requires i < |settings| && settings[i].Some?
    requires forall j :: 0 <= j < i ==> settings[j].None?
    ensures FirstSome(settings, otherwise) == settings[i].value
    decreases i
  {
    if i > 0 {
      assert settings[1..][i - 1] == settings[i];
      FirstSomeWins(settings[1..], otherwise, i - 1);
    }
  }

  /** The `pwm` setting of each line of the file. */
  function Settings(lines: seq<string>): (r: seq<Option<int>>)
    ensures |r| == |lines|
    ensures forall i :: 0 <= i < |lines| ==> r[i] == PwmSetting(lines[i])
  {
    seq(|lines|, i requires 0 <= i < |lines| => PwmSetting(lines[i]))
  }

  /** `nv_get_pwm`: the setting of the first line that assigns `pwm`; the centre when the
      file is missing (`None`) or no line assigns `pwm`. */
  function NvGetPwm(ini: Option<seq<string>>): (r: int)
    ensures InRange(r)
    ensures ini.None? ==> r == PwmCenter
  {
    match ini
    case None => PwmCenter
    case Some(lines) => FirstSome(Settings(lines), PwmCenter)
  }

  /** The two lines `nv_set_pwm` writes. */
  function IniLines(pwm: int): seq<string>
  {
    ["# DO NOT EDIT\n", "pwm = " + IntToString(pwm) + "\n"]
  }

  /** The key part of the line `nv_set_pwm` writes. */
  lemma WrittenLineKey(line: string, digits: string)
    requires line == "pwm = " + digits + "\n"
    ensures SkipSpaces(line) == line
    ensures IndexOf(line, '=') == Some(4)
    ensures TrimEnd(line[..4]) == "pwm"
  {
    assert line[0] == 'p' && line[1] == 'w' && line[2] == 'm' && line[3] == ' ' && line[4] == '=';
    assert line[..4] == "pwm ";
    assert "pwm "[..3] == "pwm";
  }

  /** The value part of the line `nv_set_pwm` writes. */
  lemma WrittenLineValue(line: string, pwm: int)
    requires InRange(pwm) && line == "pwm = " + NatToString(pwm) + "\n"
    ensures ToI32(Atol(line[5..])) == pwm
  {
    assert line[5..] == " " + NatToString(pwm) + "\n";
    AtolOfPrinted(pwm);
  }

  /** The line `nv_set_pwm` writes for an in-range value assigns exactly that value. */
  lemma SettingOfWrittenLine(pwm: int)
    requires InRange(pwm)
    ensures PwmSetting("pwm = " + IntToString(pwm) + "\n") == Some(pwm)
  {
    var line := "pwm = " + NatToString(pwm) + "\n";
    assert IntToString(pwm) == NatToString(pwm);
    WrittenLineKey(line, NatToString(pwm));
    WrittenLineValue(line, pwm);
    var name := SkipSpaces(line);
    assert name == line;
    assert !(|line| > 0 && line[0] == '#');
    assert IndexOf(name, '=') == Some(4);
    assert TrimEnd(name[..4]) == "pwm";
    assert ToI32(Atol(name[4 + 1..])) == pwm;
  }

  /** A file of a line without a setting followed by a line with one. */
  lemma SecondLineDecides(first: string, second: string, pwm: int)
    requires PwmSetting(first).None? && PwmSetting(second) == Some(pwm)
    ensures NvGetPwm(Some([first, second])) == pwm
  {
    var lines := [first, second];
    assert lines[0] == first && lines[1] == second;
    FirstSettingWins(lines, 1);
  }

  /** Reading back the file `nv_set_pwm` wrote gives the same pulse width. */
  lemma IniRoundTrip(pwm: int)
    requires InRange(pwm)
    ensures NvGetPwm(Some(IniLines(pwm))) == pwm
  {
    var comment := "# DO NOT EDIT\n";
    assert PwmSetting(comment).None? by {
      assert comment[0] == '#';
    }
    SettingOfWrittenLine(pwm);
    SecondLineDecides(comment, "pwm = " + IntToString(pwm) + "\n", pwm);
  }

  /** A file in which no line assigns `pwm` gives the centre position. */
  lemma NoSettingGivesCenter(lines: seq<string>)
    requires forall i :: 0 <= i < |lines| ==> PwmSetting(lines[i]).None?
    ensures NvGetPwm(Some(lines)) == PwmCenter
  {
    var settings := Settings(lines);
    assert forall i :: 0 <= i < |settings| ==> settings[i].None?;
  }

  /** The first line that assigns `pwm` decides, whatever follows it. */
  lemma FirstSettingWins(lines: seq<string>, i: nat)
    requires i < |lines| && PwmSetting(lines[i]).Some?
    requires forall j :: 0 <= j < i ==> PwmSetting(lines[j]).None?
    ensures NvGetPwm(Some(lines)) == PwmSetting(lines[i]).value
  {
    FirstSomeWins(Settings(lines), PwmCenter, i);
  }

  // ---- deferred commits ------------------------------------------------------------------

  /** `set_pwm`: write the duty cycle and restart the timer, unless the value equals the
      stored one; when the device file cannot be opened nothing happens, not even the timer. */
  function SetPwm(a: Rotator, duty: i32, pwmOk: bool, now: int): (r: (Rotator, seq<Effect>))
    ensures a.storedPwm == duty || !pwmOk ==> r == (a, [])
    ensures a.storedPwm != duty && pwmOk ==>
      r == (a.(alarmAt := Some(now + CommitDelay)), [PwmDuty(duty)])
  {
    if a.storedPwm == duty then (a, [])
    else if !pwmOk then (a, [])
    else (a.(alarmAt := Some(now + CommitDelay)), [PwmDuty(duty)])
  }

  /** `set_switch`: power on is applied at once, power off only restarts the timer. */
  function SetSwitch(a: Rotator, now: int): (r: (Rotator, seq<Effect>))
    ensures a.swStatus == 1 ==> r == (a.(powerStatus := 1), [PowerLine(1)])
    ensures a.swStatus == 0 ==> r == (a.(alarmAt := Some(now + CommitDelay)), [])
  {
    if a.swStatus != 0 then (a.(powerStatus := a.swStatus), [PowerLine(a.swStatus)])
    else (a.(alarmAt := Some(now + CommitDelay)), [])
  }

  /** `nv_set_pwm`: rewrite the ini file; `stored_pwm` follows only when the file opened. */
  function NvSetPwm(a: Rotator, pwm: i32, fileOk: bool): (r: (Rotator, seq<Effect>))
    ensures fileOk ==> r.0 == a.(storedPwm := pwm) && r.1 == [IniFile(IniLines(pwm))]
    ensures !fileOk ==> r == (a, [])
  {
    if fileOk then (a.(storedPwm := pwm), [IniFile(IniLines(pwm))]) else (a, [])
  }

  /** `signal_handler` for SIGALRM: persist the pulse width if it changed, then drive the
      power line to the requested switch state. */
  function SignalHandler(a: Rotator, fileOk: bool): (r: (Rotator, seq<Effect>))
    requires Valid(a)
    ensures Valid(r.0)
    ensures r.0.powerStatus == a.swStatus && r.0.currentPwm == a.currentPwm
    ensures fileOk ==> r.0.storedPwm == a.currentPwm
    ensures |r.1| > 0 && r.1[|r.1| - 1] == PowerLine(a.swStatus)
    ensures a.storedPwm == a.currentPwm ==> r.1 == [PowerLine(a.swStatus)]
    ensures forall e :: e in r.1 && e.IniFile? ==> NvGetPwm(Some(e.lines)) == a.currentPwm
  {
    var persisted := if a.storedPwm != a.currentPwm then NvSetPwm(a, a.currentPwm, fileOk) else (a, []);
    IniRoundTrip(a.currentPwm);
    var b := persisted.0;
    (b.(powerStatus := b.swStatus), persisted.1 + [PowerLine(b.swStatus)])
  }

  /** The passage of time: once the timer's deadline is reached it fires, once. */
  function Alarm(a: Rotator, now: int, fileOk: bool): (r: (Rotator, seq<Effect>))
    requires Valid(a)
    ensures Valid(r.0)
    ensures a.alarmAt.None? || now < a.alarmAt.value ==> r == (a, [])
    ensures a.alarmAt.Some? && a.alarmAt.value <= now ==>
      && r.0.alarmAt.None?
      && r.0.powerStatus == a.swStatus
      && (fileOk ==> r.0.storedPwm == r.0.currentPwm)
  {
    if a.alarmAt.Some? && a.alarmAt.value <= now then SignalHandler(a.(alarmAt := None), fileOk)
    else (a, [])
  }

  // ---- commands --------------------------------------------------------------------------

  /** Pulse-width change per encoder step: ten times coarser while the encoder switch is on. */
  function Increment(switches: int): int
  {
    (if SwitchOn(switches, SwitchEncoderNum) then CoarseFactor else 1) * FineStep
  }

  /** `(switches >> SWITCH_ANTENNA_NUM) & 1`. */
  function AntennaSwitch(switches: int): bit
  {
    if SwitchOn(switches, SwitchAntennaNum) then 1 else 0
  }

  /** `process_command`. The very first command only synchronises: it records the position,
      re-applies the current pulse width and applies the switch. The delta is taken against
      `last_position` even then, which starts at 0. `int` arithmetic wraps. */
  function ProcessCommand(a: Rotator, c: Command, pwmOk: bool, now: int): (r: (Rotator, seq<Effect>))
    ensures Valid(a) ==> Valid(r.0)
    ensures !r.0.first && r.0.lastPosition == c.position
    ensures r.0.swStatus == AntennaSwitch(c.switches)
    ensures r.0.storedPwm == a.storedPwm
    ensures Valid(a) ==> forall e :: e in r.1 && e.PwmDuty? ==> e.duty == r.0.currentPwm
  {
    var delta := ToI32(c.position - a.lastPosition);
    var sw := AntennaSwitch(c.switches);
    var moved :=
      if !a.first then (a.(currentPwm := ToI32(a.currentPwm + delta * Increment(c.switches))), [])
      else
        var synced := SetPwm(a.(first := false, lastPosition := c.position), a.currentPwm, pwmOk, now);
        var switched := SetSwitch(synced.0.(swStatus := sw), now);
        (switched.0, synced.1 + switched.1);
    var clamped :=
      if delta != 0 then
        var pwm := Clamp(moved.0.currentPwm);
        SetPwm(moved.0.(currentPwm := pwm), pwm, pwmOk, now)
      else (moved.0, []);
    var switched :=
      if clamped.0.swStatus != sw then SetSwitch(clamped.0.(swStatus := sw), now) else (clamped.0, []);
    (switched.0.(lastPosition := c.position), moved.1 + clamped.1 + switched.1)
  }

  /** The first command leaves the pulse width where it is and records the position. */
  lemma FirstCommandSynchronises(a: Rotator, c: Command, pwmOk: bool, now: int)
    requires a.first && Valid(a)
    ensures ProcessCommand(a, c, pwmOk, now).0.currentPwm == a.currentPwm
  {
  }

  /** Every later command moves the pulse width by the position delta times the step,
      clamped to the servo range, as long as the arithmetic does not leave `int`. */
  lemma LaterCommandMoves(a: Rotator, c: Command, pwmOk: bool, now: int)
    requires !a.first && Valid(a)
    requires -0x8000_0000 <= c.position - a.lastPosition < 0x8000_0000
    requires -0x8000_0000 <= a.currentPwm + (c.position - a.lastPosition) * Increment(c.switches) < 0x8000_0000
    ensures var pwm := ProcessCommand(a, c, pwmOk, now).0.currentPwm;
      pwm == if c.position == a.lastPosition then a.currentPwm
             else Clamp(a.currentPwm + (c.position - a.lastPosition) * Increment(c.switches))
  {
  }

  /** Scenario: starting at the centre, a first command at position 10 only synchronises;
      a second at position 13 with both switches off moves three fine steps, to 1509000. */
  lemma ThreeFineSteps(a: Rotator, pwmOk: bool, t1: int, t2: int)
    requires a.first && Valid(a) && a.currentPwm == PwmCenter
    ensures var a1 := ProcessCommand(a, Command(10, 0), pwmOk, t1).0;
      var a2 := ProcessCommand(a1, Command(13, 0), pwmOk, t2).0;
      a1.currentPwm == PwmCenter && a2.currentPwm == 1509000
  {
    FirstCommandSynchronises(a, Command(10, 0), pwmOk, t1);
    var a1 := ProcessCommand(a, Command(10, 0), pwmOk, t1).0;
    assert Increment(0) == FineStep;
    LaterCommandMoves(a1, Command(13, 0), pwmOk, t2);
  }

  /** A burst of device writes leaves a single alarm, five seconds after the last one:
      at any earlier time the alarm does nothing. */
  lemma BurstCommitsOnce(a: Rotator, d1: i32, t1: int, d2: i32, t2: int, now: int, fileOk: bool)
    requires Valid(a) && InRange(d1) && InRange(d2)
    requires a.storedPwm != d1 && a.storedPwm != d2 && t1 <= t2
    ensures var b := SetPwm(SetPwm(a, d1, true, t1).0, d2, true, t2).0;
      && b.alarmAt == Some(t2 + CommitDelay)
      && (now < t2 + CommitDelay ==> Alarm(b.(currentPwm := d2), now, fileOk) == (b.(currentPwm := d2), []))
  {
  }

  /** Once the alarm has committed the pulse width, a second alarm does not touch the file. */
  lemma CommitIsFinal(a: Rotator, now: int, later: int)
    requires Valid(a) && a.alarmAt.Some? && a.alarmAt.value <= now
    ensures var b := Alarm(a, now, true).0;
      b.storedPwm == b.currentPwm &&
      forall e :: e in SignalHandler(b, true).1 ==> !e.IniFile?
  {
  }

  // ---- status ----------------------------------------------------------------------------

  /** The angle `send_status` reports: C integer division, stored into an `int16_t`. */
  function Angle(pwm: int): (angle: i16)
    ensures InRange(pwm) ==> AngleMin <= angle <= AngleMax
  {
    ToI16(AngleMin + CDiv(pwm - PwmMin, PwmPerDegree))
  }

  /** The ends and the centre of the servo range map to -120, 120 and 0. */
  lemma AngleEnds()
    ensures Angle(PwmMin) == AngleMin && Angle(PwmCenter) == 0 && Angle(PwmMax) == AngleMax
  {
  }

  /** Each degree covers a band of 7500 pulse-width units, closed below and open above. */
  lemma AngleBand(pwm: int, degree: int)
    requires InRange(pwm)
    ensures Angle(pwm) == degree <==>
      PwmMin + (degree - AngleMin) * PwmPerDegree <= pwm < PwmMin + (degree - AngleMin + 1) * PwmPerDegree
  {
  }

  /** The payload of `send_status`. The battery voltage is not measured and is always 0. */
  function StatusOf(a: Rotator): (s: Status)
    ensures s.vbat == 0 && s.status == a.powerStatus
    ensures Valid(a) ==> AngleMin <= s.angle <= AngleMax
  {
    Status(Angle(a.currentPwm), a.powerStatus, 0)
  }

  /** The whole frame `send_status` writes; the millisecond clock is cut to 32 bits. */
  function StatusMessage(a: Rotator, now: u64): (f: seq<byte>)
    ensures |f| == 14
  {
    StatusFrame(ToU32(now), StatusOf(a))
  }

  // ---- the receiving side ----------------------------------------------------------------

  const Role := FrameParser.Actuator

  /** The node: the rotator statics and the statics of its `parse_byte`. */
  datatype Node = Node(rotator: Rotator, parser: FrameParser.Parser)

  /** `prepare_pwm` and `main`: the pulse width read from the ini file, switch off, no
      command seen yet, timer idle, parser waiting for a start byte. `nv_get_pwm` records
      the stored pulse width only when the file opens; without a file it stays 0. */
  function Boot(ini: Option<seq<string>>): (n: Node)
    ensures Valid(n.rotator) && FrameParser.Inv(Role, n.parser)
    ensures n.rotator.currentPwm == NvGetPwm(ini)
    ensures n.rotator.storedPwm == if ini.Some? then n.rotator.currentPwm else 0
  {
    var pwm := NvGetPwm(ini);
    FrameParser.InitialInv(Role);
    Node(Rotator(pwm, if ini.Some? then pwm else 0, 0, 0, true, 0, None), FrameParser.Initial)
  }

  /** Without an ini file, the first command writes the centre duty cycle, and five seconds
      later the alarm creates the file with the centre position in it. */
  lemma MissingIniWrittenAfterFirstCommand(c: Command, t: int)
    ensures var a := Boot(None).rotator;
      var first := ProcessCommand(a, c, true, t);
      var fired := Alarm(first.0, t + CommitDelay, true);
      && |first.1| > 0 && first.1[0] == PwmDuty(PwmCenter)
      && first.0.alarmAt == Some(t + CommitDelay)
      && |fired.1| > 0 && fired.1[0] == IniFile(IniLines(PwmCenter))
      && fired.0.storedPwm == PwmCenter
  {
  }

  /** `parse_byte`, including the `process_command` call when a frame completes. Its
      result is the new node, the writes, and whether a command was dispatched. */
  function ParseByte(n: Node, b: byte, pwmOk: bool, now: int): (r: (Node, seq<Effect>, bool))
    requires FrameParser.Inv(Role, n.parser)
    ensures FrameParser.Inv(Role, r.0.parser)
    ensures r.0.parser == FrameParser.Step(Role, n.parser, b).0
    ensures r.2 <==> FrameParser.Step(Role, n.parser, b).1.Message?
    ensures !r.2 ==> r.0.rotator == n.rotator && r.1 == []
    ensures Valid(n.rotator) ==> Valid(r.0.rotator)
  {
    var s := FrameParser.Step(Role, n.parser, b);
    FrameParser.StepInv(Role, n.parser, b);
    match s.1
    case NoMessage => (Node(n.rotator, s.0), [], false)
    case Message(_, payload) =>
      var done := ProcessCommand(n.rotator, DecodeCommand(payload), pwmOk, now);
      (Node(done.0, s.0), done.1, true)
  }

  /** The loop over the bytes of one `read`. */
  function Receive(n: Node, bs: seq<byte>, pwmOk: bool, now: int): (r: (Node, seq<Effect>))
    requires FrameParser.Inv(Role, n.parser)
    ensures FrameParser.Inv(Role, r.0.parser)
    ensures r.0.parser == FrameParser.Feed(Role, n.parser, bs).0
    ensures Valid(n.rotator) ==> Valid(r.0.rotator)
    decreases |bs|
  {
    if |bs| == 0 then (n, [])
    else
      var first := ParseByte(n, bs[0], pwmOk, now);
      var rest := Receive(first.0, bs[1..], pwmOk, now);
      (rest.0, first.1 + rest.1)
  }

  lemma {:induction false} ReceiveAppend(n: Node, a: seq<byte>, b: seq<byte>, pwmOk: bool, now: int)
    requires FrameParser.Inv(Role, n.parser)
    ensures var ra := Receive(n, a, pwmOk, now);
      var rb := Receive(ra.0, b, pwmOk, now);
      Receive(n, a + b, pwmOk, now) == (rb.0, ra.1 + rb.1)
    decreases |a|
  {
    if |a| == 0 {
      assert a + b == b;
      assert [] + Receive(n, b, pwmOk, now).1 == Receive(n, b, pwmOk, now).1;
    } else {
      assert (a + b)[0] == a[0];
      assert (a + b)[1..] == a[1..] + b;
      var first := ParseByte(n, a[0], pwmOk, now);
      ReceiveAppend(first.0, a[1..], b, pwmOk, now);
      var ra' := Receive(first.0, a[1..], pwmOk, now);
      var rb := Receive(ra'.0, b, pwmOk, now);
      var rab := Receive(first.0, a[1..] + b, pwmOk, now);
      assert Receive(n, a + b, pwmOk, now) == (rab.0, first.1 + rab.1);
      assert Receive(n, a, pwmOk, now) == (ra'.0, first.1 + ra'.1);
      FrameParser.ConcatAssoc(first.1, ra'.1, rb.1);
    }
  }

  /** Bytes on which the parser dispatches nothing leave the rotator alone. */
  lemma {:induction false} ReceiveQuiet(n: Node, bs: seq<byte>, pwmOk: bool, now: int)
    requires FrameParser.Inv(Role, n.parser)
    requires FrameParser.Feed(Role, n.parser, bs).1 == FrameParser.Quiet(|bs|)
    ensures Receive(n, bs, pwmOk, now) == (Node(n.rotator, FrameParser.Feed(Role, n.parser, bs).0), [])
    decreases |bs|
  {
    if |bs| > 0 {
      var s := FrameParser.Step(Role, n.parser, bs[0]);
      var rest := FrameParser.Feed(Role, s.0, bs[1..]);
      assert FrameParser.Feed(Role, n.parser, bs).1 == [s.1] + rest.1;
      assert s.1 == FrameParser.Quiet(|bs|)[0];
      assert rest.1 == FrameParser.Quiet(|bs|)[1..];
      var first := ParseByte(n, bs[0], pwmOk, now);
      assert first == (Node(n.rotator, s.0), [], false);
      ReceiveQuiet(first.0, bs[1..], pwmOk, now);
      var r := Receive(first.0, bs[1..], pwmOk, now);
      assert Receive(n, bs, pwmOk, now) == (r.0, [] + r.1);
      assert r.1 == [];
      assert [] + r.1 == [];
    } else {
      assert Node(n.rotator, n.parser) == n;
    }
  }

  /** End to end: a Command frame received from the start state calls `process_command`
      exactly once, with the command that was encoded, and leaves the parser ready for the
      next frame. */
  lemma CommandDelivered(n: Node, timestamp: u32, c: Command, pwmOk: bool, now: int)
    requires FrameParser.Inv(Role, n.parser) && n.parser.phase == FrameParser.AwaitStart
    ensures var r := Receive(n, CommandFrame(timestamp, c), pwmOk, now);
      var expected := ProcessCommand(n.rotator, c, pwmOk, now);
      r.0.rotator == expected.0 && r.1 == expected.1 && r.0.parser.phase == FrameParser.AwaitStart
  {
    var payload := EncodeCommand(c);
    var f := CommandFrame(timestamp, c);
    var m := FrameParser.Message(timestamp, payload);
    var pre := f[..16];
    var last := f[16];
    assert f == pre + [last];
    FrameParser.RoundTrip(Role, n.parser, timestamp, payload);
    FrameParser.FeedAppend(Role, n.parser, pre, [last]);
    var fa := FrameParser.Feed(Role, n.parser, pre);
    FrameParser.FeedOne(Role, fa.0, last);
    assert fa.1 == (FrameParser.Quiet(16) + [m])[..16];
    assert FrameParser.Quiet(16) == (FrameParser.Quiet(16) + [m])[..16];
    assert FrameParser.Step(Role, fa.0, last).1 == m;
    ReceiveQuiet(n, pre, pwmOk, now);
    ReceiveAppend(n, pre, [last], pwmOk, now);
    var mid := Node(n.rotator, fa.0);
    CommandRoundTrip(c);
    var pb := ParseByte(mid, last, pwmOk, now);
    assert Receive(mid, [last], pwmOk, now) == (pb.0, pb.1 + []) by {
      assert [last][0] == last && [last][1..] == [];
    }
    assert pb.1 + [] == pb.1;
  }

  /** A frame of the Status type that carries a Command-sized payload passes the length
      check, and is then consumed and dropped at its CRC byte without any effect. */
  lemma WrongTypeFrameIgnored(n: Node, timestamp: u32, pwmOk: bool, now: int)
    requires FrameParser.Inv(Role, n.parser) && n.parser.phase == FrameParser.AwaitStart
    ensures var r := Receive(n, EncodeFrame(TypeStatus, timestamp, EncodeCommand(Command(0, 0))), pwmOk, now);
      r.0.rotator == n.rotator && r.1 == [] && r.0.parser.phase == FrameParser.AwaitStart
  {
    var payload := EncodeCommand(Command(0, 0));
    FrameParser.WrongTypeDropped(Role, n.parser, TypeStatus, timestamp, payload);
    ReceiveQuiet(n, EncodeFrame(TypeStatus, timestamp, payload), pwmOk, now);
  }

  /** A real Status frame, as the antenna itself sends them, echoed back to it: its declared
      length 5 fails the length check, and the 14 bytes are too few to complete any Command
      frame, so the rotator is untouched and nothing is written. */
  lemma StatusFrameIgnored(n: Node, timestamp: u32, s: Status, pwmOk: bool, now: int)
    requires FrameParser.Inv(Role, n.parser) && n.parser.phase == FrameParser.AwaitStart
    ensures var r := Receive(n, StatusFrame(timestamp, s), pwmOk, now);
      r.0.rotator == n.rotator && r.1 == []
  {
    var f := StatusFrame(timestamp, s);
    FrameParser.ShortInputQuiet(Role, n.parser, f);
    ReceiveQuiet(n, f, pwmOk, now);
  }
}
