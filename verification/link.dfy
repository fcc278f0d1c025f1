/** The two nodes joined by the link: what the panel sends is what the antenna acts on, and
    what the antenna reports is what the panel shows.
 */
module Link {
  import opened Bytes
  import opened Protocol
  import FrameParser
  import Antenna
  import Station

  /** The panel's report, read by the antenna from the start state, moves the rotator to the
      panel's encoder position and turns the antenna power to the panel's antenna switch. */
  lemma PanelDrivesAntenna(p: Station.Panel, n: Antenna.Node, now: u64, pwmOk: bool, t: int)
    requires p.telemetry.connected
    requires FrameParser.Inv(Antenna.Role, n.parser) && n.parser.phase == FrameParser.AwaitStart
    ensures var frame := Station.SendMessage(p, now)[0];
      var r := Antenna.Receive(n, frame, pwmOk, t);
      && r.0.rotator == Antenna.ProcessCommand(n.rotator, Station.CommandOf(p), pwmOk, t).0
      && r.0.rotator.lastPosition == p.counter
      && (r.0.rotator.swStatus == 1 <==> SwitchOn(p.switchStatus, SwitchAntennaNum))
      && (Antenna.Increment(Station.CommandOf(p).switches) == Antenna.CoarseFactor * Antenna.FineStep
          <==> SwitchOn(p.switchStatus, SwitchEncoderNum))
      && r.0.parser.phase == FrameParser.AwaitStart
  {
    Antenna.CommandDelivered(n, ToU32(now), Station.CommandOf(p), pwmOk, t);
    SwitchesSurviveSignedField(p.switchStatus, SwitchAntennaNum);
    SwitchesSurviveSignedField(p.switchStatus, SwitchEncoderNum);
  }

  /** The antenna's status report, read by the panel from the start state, shows the rotator's
      angle and power state and re-arms the panel's watchdog. */
  lemma AntennaInformsPanel(a: Antenna.Rotator, p: Station.Panel, now: u64, t: u64)
    requires Station.Valid(p) && p.parser.phase == FrameParser.AwaitStart
    ensures var r := Station.Receive(p, Antenna.StatusMessage(a, now), t);
      && r.telemetry.angle == Antenna.Angle(a.currentPwm)
      && r.telemetry.powerStatus == a.powerStatus
      && r.telemetry.vbat == 0 && r.telemetry.updated
      && r.statusTimestamp == t
      && (Antenna.Valid(a) ==> Antenna.AngleMin <= r.telemetry.angle <= Antenna.AngleMax)
  {
    Station.StatusDelivered(p, ToU32(now), Antenna.StatusOf(a), t);
  }
}
