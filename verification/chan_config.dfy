/** The video-receiver channel lookup of the control panel (config.cpp, `get_chan_info`):
    from the current RC channel values and the loaded configuration, which receiver is
    selected by the switch channel and which band each receiver's own channel points at.

    The configuration is taken as already loaded (`None` stands for "not initialised"), and
    the RC channels as their sixteen values already converted to microseconds (`None` for a
    null frame pointer). The caller's `channel_data` array is a sequence whose length is the
    capacity passed in `*size`.
 */
module ChanConfig {
  import opened Bytes
  import opened Options
  import Text

  const ChannelCount := 16
  /** `BAND_NAME_LEN`: the band name buffer, terminating NUL included. */
  const BandNameLen := 12

  /** `struct Switch`: the RC channel (numbered from 1) and its ascending thresholds. */
  datatype Switch = Switch(channel: int, pwm: seq<int>)

  /** `struct VrxBand`: one video receiver, its RC channel, and per band a frequency, an
      optional band label and the threshold up to which the band is selected. */
  datatype VrxBand = VrxBand(id: int, name: string, channel: int, freqs: seq<int>, bands: seq<string>, pwm: seq<int>)

  /** The part of `struct Config` the lookup reads. */
  datatype Config = Config(vrxSwitch: Switch, vrxTable: seq<VrxBand>)

  /** `struct channel_data`; `bandName` is the text before the terminating NUL. */
  datatype ChannelData = ChannelData(freq: u16, bandName: string, selected: int, txSelected: int)

  /** The lookup reads `pwm[j]` for every index `j` of `freqs`. */
  predicate RowShaped(row: VrxBand)
  {
    |row.pwm| >= |row.freqs|
  }

  predicate Shaped(cfg: Config)
  {
    forall i :: 0 <= i < |cfg.vrxTable| ==> RowShaped(cfg.vrxTable[i])
  }

  predicate ChannelsShaped(crsf: Option<seq<u16>>)
  {
    crsf.Some? ==> |crsf.value| == ChannelCount
  }

  /** `get_channel_us`: the microseconds of channel `chanNum`, numbered from 0; 0 for a
      missing frame or a number outside 0..15. */
  function ChannelUs(crsf: Option<seq<u16>>, chanNum: int): (us: u16)
    requires ChannelsShaped(crsf)
    ensures crsf.None? || !(0 <= chanNum < ChannelCount) ==> us == 0
    ensures crsf.Some? && 0 <= chanNum < ChannelCount ==> us == crsf.value[chanNum]
  {
    if crsf.None? || !(0 <= chanNum < ChannelCount) then 0 else crsf.value[chanNum]
  }

  /** The first position whose threshold lies strictly above `v`, or -1. */
  function Active(thresholds: seq<int>, v: int): (a: int)
    ensures -1 <= a < |thresholds|
    ensures a == -1 <==> forall i :: 0 <= i < |thresholds| ==> thresholds[i] <= v
    ensures a >= 0 ==> v < thresholds[a] && forall i :: 0 <= i < a ==> thresholds[i] <= v
    decreases |thresholds|
  {
    if |thresholds| == 0 then -1
    else if v < thresholds[|thresholds| - 1] && Active(thresholds[..|thresholds| - 1], v) == -1 then |thresholds| - 1
    else Active(thresholds[..|thresholds| - 1], v)
  }

  /** The first band of `row` whose threshold is at or above `v`. */
  function BandMatch(row: VrxBand, v: int): (j: Option<nat>)
    requires RowShaped(row)
    ensures j.None? <==> forall k :: 0 <= k < |row.freqs| ==> row.pwm[k] < v
    ensures j.Some? ==> j.value < |row.freqs| && v <= row.pwm[j.value]
    ensures j.Some? ==> forall k :: 0 <= k < j.value ==> row.pwm[k] < v
  {
    var a := Active(row.pwm[..|row.freqs|], v - 1);
    if a == -1 then None else Some(a)
  }

  /** What `snprintf` leaves in a buffer of `BAND_NAME_LEN` bytes. */
  function Truncate(s: string): (t: string)
    ensures |t| <= BandNameLen - 1
    ensures |t| <= |s| && t == s[..|t|]
    ensures |s| <= BandNameLen - 1 ==> t == s
    ensures |s| >= BandNameLen - 1 ==> |t| == BandNameLen - 1
  {
    if |s| <= BandNameLen - 1 then s else s[..BandNameLen - 1]
  }

  /** The label of band `j`: the receiver name, a colon, and the band label, or the band
      number counted from 1 when the row has no label for it. */
  function BandName(row: VrxBand, j: nat): (text: string)
    ensures |text| <= BandNameLen - 1
    ensures text == Truncate(row.name + ":" + (if j < |row.bands| then row.bands[j] else Text.IntToString(j + 1)))
  {
    Truncate(row.name + ":" + (if j < |row.bands| then row.bands[j] else Text.IntToString(j + 1)))
  }

  /** The entry written for receiver `row`: marked selected when its id is the switch
      position, and, if one of its bands matches its channel value, that band's frequency
      (as `uint16_t`) and label. Without a matching band, frequency and label keep whatever
      the caller's entry held. */
  function Entry(row: VrxBand, active: int, us: int, before: ChannelData): (e: ChannelData)
    requires RowShaped(row)
    ensures e.selected == (if row.id == active then 1 else 0)
    ensures e.txSelected == before.txSelected
    ensures BandMatch(row, us).None? ==> e.freq == before.freq && e.bandName == before.bandName
    ensures BandMatch(row, us).Some? ==>
      var j := BandMatch(row, us).value;
      e.freq == ToU16(row.freqs[j]) && e.bandName == BandName(row, j)
  {
    var marked := before.(selected := if row.id == active then 1 else 0);
    match BandMatch(row, us)
    case None => marked
    case Some(j) => marked.(freq := ToU16(row.freqs[j]), bandName := BandName(row, j))
  }

  function Min(a: nat, b: nat): nat
  {
    if a <= b then a else b
  }

  /** The outcome of `get_chan_info`: return value, the caller's array afterwards, and
      `*size` afterwards. */
  datatype Outcome = Outcome(ret: int, data: seq<ChannelData>, size: nat)

  /** What `get_chan_info` computes, stated entry by entry. */
  function ChanInfo(cfg: Option<Config>, crsf: Option<seq<u16>>, data: seq<ChannelData>): (o: Outcome)
    requires ChannelsShaped(crsf) && (cfg.Some? ==> Shaped(cfg.value))
    ensures |o.data| == |data|
    ensures cfg.None? ==> o == Outcome(0, data, 0)
    ensures cfg.Some? && ChannelUs(crsf, cfg.value.vrxSwitch.channel - 1) == 0 ==> o == Outcome(-1, data, |data|)
    ensures o.ret >= 0 ==> o.ret == o.size && o.size <= |data|
    ensures forall i :: o.size <= i < |data| ==> o.data[i] == data[i]
  {
    if cfg.None? then Outcome(0, data, 0)
    else
      var c := cfg.value;
      var sw := ChannelUs(crsf, c.vrxSwitch.channel - 1);
      if sw == 0 then Outcome(-1, data, |data|)
      else
        var active := Active(c.vrxSwitch.pwm, sw);
        var cnt := Min(|c.vrxTable|, |data|);
        var out := seq(|data|, i requires 0 <= i < |data| =>
          if i < cnt then Entry(c.vrxTable[i], active, ChannelUs(crsf, c.vrxTable[i].channel - 1), data[i])
          else data[i]);
        Outcome(cnt, out, cnt)
  }

  /** The first loop of `get_chan_info`: scan the switch thresholds for the first one
      above the switch value. */
  method SwitchPosition(thresholds: seq<int>, v: int) returns (active: int)
    ensures active == Active(thresholds, v)
  {
    active := -1;
    var i := 0;
    while i < |thresholds| && active == -1
      invariant 0 <= i <= |thresholds|
      invariant active == -1 ==> forall k :: 0 <= k < i ==> thresholds[k] <= v
      invariant active != -1 ==>
        (active == i - 1 && v < thresholds[active] && forall k :: 0 <= k < active ==> thresholds[k] <= v)
      decreases |thresholds| - i
    {
      if v < thresholds[i] {
        active := i;
      }
      i := i + 1;
    }
  }

  /** The inner loop of `get_chan_info`: scan the bands of a receiver for the first
      threshold at or above its channel value. */
  method FindBand(row: VrxBand, us: int) returns (j: Option<nat>)
    requires RowShaped(row)
    ensures j == BandMatch(row, us)
  {
    j := None;
    var k := 0;
    while k < |row.freqs| && j.None?
      invariant 0 <= k <= |row.freqs|
      invariant j.None? ==> forall m :: 0 <= m < k ==> row.pwm[m] < us
      invariant j.Some? ==>
        (j.value == k - 1 && us <= row.pwm[j.value] && forall m :: 0 <= m < j.value ==> row.pwm[m] < us)
      decreases |row.freqs| - k
    {
      if us <= row.pwm[k] {
        j := Some(k);
      }
      k := k + 1;
    }
  }

  /** The body of the receiver loop of `get_chan_info`. */
  method FillEntry(row: VrxBand, active: int, us: int, before: ChannelData) returns (e: ChannelData)
    requires RowShaped(row)
    ensures e == Entry(row, active, us, before)
  {
    e := before.(selected := if row.id == active then 1 else 0);
    var band := FindBand(row, us);
    if band.Some? {
      e := e.(freq := ToU16(row.freqs[band.value]), bandName := BandName(row, band.value));
    }
  }

  /** `get_chan_info` as the C++ code runs it: the switch position, then one pass over the
      receivers while the caller's array has room, each with a search over its bands. */
  method GetChanInfo(cfg: Option<Config>, crsf: Option<seq<u16>>, data: seq<ChannelData>) returns (o: Outcome)
    requires ChannelsShaped(crsf) && (cfg.Some? ==> Shaped(cfg.value))
    ensures o == ChanInfo(cfg, crsf, data)
  {
    if cfg.None? {
      return Outcome(0, data, 0);
    }
    var c := cfg.value;
    var usval := ChannelUs(crsf, c.vrxSwitch.channel - 1);
    if usval == 0 {
      return Outcome(-1, data, |data|);
    }
    var active := SwitchPosition(c.vrxSwitch.pwm, usval);
    var out := data;
    var cnt := 0;
    while cnt < |c.vrxTable| && cnt < |data|
      invariant 0 <= cnt <= Min(|c.vrxTable|, |data|) && |out| == |data|
      invariant forall k :: 0 <= k < cnt ==>
        out[k] == Entry(c.vrxTable[k], active, ChannelUs(crsf, c.vrxTable[k].channel - 1), data[k])
      invariant forall k :: cnt <= k < |data| ==> out[k] == data[k]
      decreases |data| - cnt
    {
      var e := FillEntry(c.vrxTable[cnt], active, ChannelUs(crsf, c.vrxTable[cnt].channel - 1), out[cnt]);
      out := out[cnt := e];
      cnt := cnt + 1;
    }
    o := Outcome(cnt, out, cnt);
    assert o.data == ChanInfo(cfg, crsf, data).data;
  }

  /** Receiver `i` is marked selected exactly when its id is the position of the first
      switch threshold above the switch channel's value; the ids are compared with
      threshold positions, not with receiver positions. */
  lemma SelectedIffSwitchPosition(cfg: Config, crsf: Option<seq<u16>>, data: seq<ChannelData>, i: nat)
    requires ChannelsShaped(crsf) && Shaped(cfg)
    requires ChannelUs(crsf, cfg.vrxSwitch.channel - 1) != 0
    requires i < |cfg.vrxTable| && i < |data| && cfg.vrxTable[i].id >= 0
    ensures var sw := ChannelUs(crsf, cfg.vrxSwitch.channel - 1);
      var id := cfg.vrxTable[i].id;
      ChanInfo(Some(cfg), crsf, data).data[i].selected == 1 <==>
        (0 <= id < |cfg.vrxSwitch.pwm| && sw < cfg.vrxSwitch.pwm[id]
         && forall k :: 0 <= k < id ==> cfg.vrxSwitch.pwm[k] <= sw)
  {
    var sw := ChannelUs(crsf, cfg.vrxSwitch.channel - 1);
    var row := cfg.vrxTable[i];
    var active := Active(cfg.vrxSwitch.pwm, sw);
    assert ChanInfo(Some(cfg), crsf, data).data[i] == Entry(row, active, ChannelUs(crsf, row.channel - 1), data[i]);
    if 0 <= row.id < |cfg.vrxSwitch.pwm| && sw < cfg.vrxSwitch.pwm[row.id]
       && forall k :: 0 <= k < row.id ==> cfg.vrxSwitch.pwm[k] <= sw {
      assert active == row.id;
    }
  }

  /** "No threshold above" is the value -1, which a receiver may carry as its id: such a
      receiver is selected exactly when no switch threshold lies above the value. */
  lemma MinusOneIdIsDefault(cfg: Config, crsf: Option<seq<u16>>, data: seq<ChannelData>, i: nat)
    requires ChannelsShaped(crsf) && Shaped(cfg)
    requires ChannelUs(crsf, cfg.vrxSwitch.channel - 1) != 0
    requires i < |cfg.vrxTable| && i < |data| && cfg.vrxTable[i].id == -1
    ensures var sw := ChannelUs(crsf, cfg.vrxSwitch.channel - 1);
      ChanInfo(Some(cfg), crsf, data).data[i].selected == 1 <==>
        forall k :: 0 <= k < |cfg.vrxSwitch.pwm| ==> cfg.vrxSwitch.pwm[k] <= sw
  {
    var row := cfg.vrxTable[i];
    var active := Active(cfg.vrxSwitch.pwm, ChannelUs(crsf, cfg.vrxSwitch.channel - 1));
    assert ChanInfo(Some(cfg), crsf, data).data[i] == Entry(row, active, ChannelUs(crsf, row.channel - 1), data[i]);
  }

  /** No switch threshold above the value selects no receiver with a non-negative id. */
  lemma NothingSelectedAboveThresholds(cfg: Config, crsf: Option<seq<u16>>, data: seq<ChannelData>)
    requires ChannelsShaped(crsf) && Shaped(cfg)
    requires forall r :: 0 <= r < |cfg.vrxTable| ==> cfg.vrxTable[r].id >= 0
    requires var sw := ChannelUs(crsf, cfg.vrxSwitch.channel - 1);
      sw != 0 && forall k :: 0 <= k < |cfg.vrxSwitch.pwm| ==> cfg.vrxSwitch.pwm[k] <= sw
    ensures var o := ChanInfo(Some(cfg), crsf, data);
      forall i :: 0 <= i < o.size ==> o.data[i].selected == 0
  {
  }

  /** The number of entries filled is the smaller of the capacity and the number of
      receivers, and it is both returned and stored back into `*size`. */
  lemma EntriesFilled(cfg: Config, crsf: Option<seq<u16>>, data: seq<ChannelData>)
    requires ChannelsShaped(crsf) && Shaped(cfg)
    requires ChannelUs(crsf, cfg.vrxSwitch.channel - 1) != 0
    ensures var o := ChanInfo(Some(cfg), crsf, data);
      o.ret == o.size == Min(|cfg.vrxTable|, |data|)
  {
  }
}
