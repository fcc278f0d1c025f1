# Antenna rotator control and CRSF bridge, modelled in Dafny

This project models the control software of the meta-station system.

- **The rotator link.** A control panel (`station.c`) reads a quadrature encoder and three switches. It reports them to an antenna node (`antenna.c`) as Command frames over TCP. The antenna drives a servo through a PWM duty cycle and a master power switch. It keeps the pulse width in `control.ini`, and it answers with Status frames.
- **The frame format.** Both nodes share the frame format of `protocol.h`: an 8-byte packed header, a packed payload, and a CRC-8/DVB-S2 byte (`crc8.c`) over the timestamp and the payload. Both nodes also carry a byte-at-a-time receiver, `parse_byte`.
- **The CRSF bridge.** The bridge (`crsf-bridge.c`) splits CRSF radio-control frames out of a byte stream and queues packets in a ring buffer (`circ_buf.c`, `circ_buf.h`).
- **Channel lookup.** The panel's configuration code (`config.cpp`) turns RC channel values into video-receiver selections and band labels.

Modules, one per component:

| module | models |
|---|---|
| `Bytes` | C integer widths, wrap-around, `/` truncating toward zero, little-endian layout of packed fields |
| `Text` | `isspace`, `%d` printing, glibc `atol` |
| `Crc8` | `crc8.c` |
| `Protocol` | `protocol.h`: frame layout, payloads, switch bits |
| `FrameParser` | the `parse_byte` state machine shared by both nodes, parametrised by a `Role` |
| `Antenna` | `antenna.c` |
| `Station` | `station.c` |
| `Link` | the two nodes connected end to end |
| `CircBuf` | the ring buffer, with its FIFO abstraction |
| `Crsf` | the CRSF frame splitter of the bridge |
| `ChanConfig` | `get_chan_info` and `get_channel_us` |

How the C code is mapped:

- State held in C statics and globals becomes explicit records: `Rotator`, `Panel`, `Parser`, `Ring`.
- Each event handler becomes a pure function from the old state to the new state and the writes it makes.
- Clocks are parameters in milliseconds. So are the outcomes of opening device files (`pwmOk`, `fileOk`) and the level of the master-switch line at start-up.

On the wire, the frame header's timestamp and the payload fields are little-endian. The parsers shift each timestamp byte in from the top (`byte << 24 | ts >> 8`), and the payloads are packed structures copied from memory on a little-endian target.

## Model

| member | source | states |
|---|---|---|
| Bytes.CDiv | recipes-extended/control/files/antenna.c:192-195 | C signed division truncates toward zero: the remainder has the sign of the dividend and is smaller than the divisor |
| Bytes.ToI32 | recipes-extended/control/files/antenna.c:214 | storing into `int32_t` keeps values in range and otherwise wraps modulo 2^32 |
| Bytes.ElapsedU64 | recipes-extended/control/files/station.c:179 | `uint64_t` subtraction of timestamps: the true difference, or that plus 2^64 when the clock is behind |
| Bytes.U32RoundTrip | recipes-extended/control/files/protocol.h:15 | the little-endian layout of the `uint32_t` timestamp decodes back to the same value |
| Bytes.I32RoundTrip | recipes-extended/control/files/protocol.h:20-23 | the layout of an `int32_t` field decodes back to the same value |
| Bytes.I16RoundTrip | recipes-extended/control/files/protocol.h:30 | the layout of an `int16_t` field decodes back to the same value |
| Bytes.ShiftInByteLe | recipes-extended/control/files/antenna.c:316-318 | shifting a received byte in from the top moves the little-endian bytes down by one and puts the new byte last |
| Text.AtolOfPrinted | recipes-extended/control/files/antenna.c:95 | `atol` of a line printed with `" %d\n"` gives back the printed number |
| Crc8.Step | recipes-extended/control/files/crc8.c:3-12 | one input byte equal to the accumulator gives 0 |
| Crc8.Data | recipes-extended/control/files/crc8.c:14-20 | the CRC of an empty buffer is 0 |
| Crc8.FoldAppend | recipes-extended/control/files/crc8.c:14-20 | the CRC over a concatenation continues from the accumulator after the prefix |
| Crc8.DataAppend | recipes-extended/control/files/crc8.c:14-20 | the CRC of `a + b` is the fold over `b` starting from the CRC of `a` |
| Crc8.AppendOwnCrc | recipes-extended/control/files/crc8.c:14-20 | a buffer followed by its own CRC has CRC 0 |
| Crc8.LeadingZeros | recipes-extended/control/files/crc8.c:3-12 | leading zero bytes do not change the CRC |
| Crc8.CheckValue | recipes-extended/control/files/crc8.c:3-20 | "123456789" gives 0xBC, the catalogue check value of CRC-8/DVB-S2 |
| Protocol.SwitchMask | recipes-extended/control/files/protocol.h:52-54 | each switch mask is a single bit among the three lowest |
| Protocol.WithSwitch | recipes-extended/control/files/station.c:201-202 | setting a switch bit turns that switch on and leaves the other switches as they were |
| Protocol.WithoutSwitch | recipes-extended/control/files/station.c:198-199 | clearing a switch bit turns that switch off and leaves the other switches as they were |
| Protocol.SwitchesSurviveSignedField | recipes-extended/control/files/station.c:327 | storing the `uint32_t` switch word into the `int32_t` Command field keeps every switch bit |
| Protocol.EncodeCommand | recipes-extended/control/files/protocol.h:20-23 | a Command payload is 8 bytes: the position, then the switches |
| Protocol.EncodeStatus | recipes-extended/control/files/protocol.h:29-33 | a Status payload is 5 bytes: the angle, the status byte, the battery voltage |
| Protocol.CommandRoundTrip | recipes-extended/control/files/protocol.h:20-23 | decoding an encoded Command gives it back |
| Protocol.CommandBytesRoundTrip | recipes-extended/control/files/protocol.h:20-23 | re-encoding any decoded 8 bytes gives them back |
| Protocol.StatusRoundTrip | recipes-extended/control/files/protocol.h:29-33 | decoding an encoded Status gives it back |
| Protocol.StatusBytesRoundTrip | recipes-extended/control/files/protocol.h:29-33 | re-encoding any decoded 5 bytes gives them back |
| Protocol.EncodeFrame | recipes-extended/control/files/station.c:310-341 | a frame is start byte 0xE1, version 1, type, length, the timestamp, the payload, and the CRC of everything from the timestamp to the end of the payload |
| Protocol.FrameCrcResidue | recipes-extended/control/files/antenna.c:178-208 | the CRC over the checked part of a frame, CRC byte included, is 0 |
| Protocol.CommandFrame | recipes-extended/control/files/station.c:310-341 | a Command frame is 17 bytes, with type 2 and length 8 |
| Protocol.StatusFrame | recipes-extended/control/files/antenna.c:178-208 | a Status frame is 14 bytes, with type 1 and length 5 |
| FrameParser.Step | recipes-extended/control/files/antenna.c:248-358 | the transitions of each state; a frame is dispatched exactly when the CRC byte matches for the accepted type, and it carries the received timestamp and payload |
| FrameParser.StepInv | recipes-extended/control/files/station.c:355-451 | every call keeps the consistency of the static fields: a known type, the role's length and in-bounds counts |
| FrameParser.RecheckIsDead | recipes-extended/control/files/antenna.c:320-324 | the antenna's second length check after the timestamp never changes the outcome on a reachable state |
| FrameParser.FeedAppend | recipes-extended/control/files/antenna.c:429-434 | feeding two chunks in turn is the same as feeding their concatenation |
| FrameParser.NoiseIgnored | recipes-extended/control/files/antenna.c:273-279 | bytes other than the start byte, while a start byte is awaited, change nothing and dispatch nothing |
| FrameParser.ShiftInFour | recipes-extended/control/files/antenna.c:316-318 | four timestamp bytes shifted in from the top rebuild the little-endian `uint32_t` |
| FrameParser.FeedHeader | recipes-extended/control/files/antenna.c:273-329 | a well-formed header leaves the parser awaiting the payload, with the type, length and timestamp recorded |
| FrameParser.FeedFrame | recipes-extended/control/files/antenna.c:273-358 | a whole frame of a known type dispatches nothing before its last byte and returns to awaiting a start byte |
| FrameParser.RoundTrip | recipes-extended/control/files/antenna.c:248-358 | an encoded frame of the accepted type yields exactly one message, on its last byte, with the encoded timestamp and payload |
| FrameParser.WrongTypeDropped | recipes-extended/control/files/antenna.c:292-304 | a frame of the other known type, with this node's payload length, is consumed without a message |
| FrameParser.StepProgress | recipes-extended/control/files/antenna.c:248-358 | each byte advances the parser by at most one position in a frame, and only the byte after a full header and payload can dispatch |
| FrameParser.ShortInputQuiet | recipes-extended/control/files/antenna.c:248-358 | any input shorter than the rest of a frame, whatever its bytes, dispatches nothing |
| FrameParser.BadCrcDropped | recipes-extended/control/files/antenna.c:340-351 | a frame with a wrong CRC byte is consumed without a message |
| FrameParser.BadCrcThenFrame | recipes-extended/control/files/antenna.c:340-351 | after a frame with a bad CRC, the next good frame is still delivered |
| FrameParser.WrongLengthRejected | recipes-extended/control/files/antenna.c:305-315 | a header with a length other than the role's sends the parser back to awaiting a start byte |
| FrameParser.NoiseThenFrame | recipes-extended/control/files/station.c:372-451 | noise before a frame does not prevent its delivery |
| Antenna.Clamp | recipes-extended/control/files/antenna.c:230-237 | the result is in [600000, 2400000], and in-range values are unchanged |
| Antenna.PwmSetting | recipes-extended/control/files/antenna.c:77-98 | comment lines and lines without '=' assign nothing; an assigned value is always in the servo range |
| Antenna.NvGetPwm | recipes-extended/control/files/antenna.c:66-103 | the result is always in the servo range; a missing file gives the centre 1500000 |
| Antenna.IniRoundTrip | recipes-extended/control/files/antenna.c:66-118 | reading back the file `nv_set_pwm` wrote gives the pulse width that was written |
| Antenna.FirstSettingWins | recipes-extended/control/files/antenna.c:77-99 | the first line that assigns `pwm` decides, whatever follows it |
| Antenna.NoSettingGivesCenter | recipes-extended/control/files/antenna.c:69-102 | a file without a `pwm` line gives the centre position |
| Antenna.SetPwm | recipes-extended/control/files/antenna.c:137-153 | an unchanged duty, or a device file that cannot be opened, does nothing; otherwise the duty is written and the timer restarts for 5 s |
| Antenna.SetSwitch | recipes-extended/control/files/antenna.c:155-163 | power on is applied at once; power off only restarts the timer |
| Antenna.NvSetPwm | recipes-extended/control/files/antenna.c:105-118 | the file is rewritten, and `stored_pwm` follows, only when it opens |
| Antenna.SignalHandler | recipes-extended/control/files/antenna.c:165-176 | the power line follows the requested switch state; any file written reads back as the current pulse width; nothing is written when the pulse width is already stored |
| Antenna.Alarm | recipes-extended/control/files/antenna.c:122-135 | before the deadline nothing happens; at or after it the alarm fires once, commits the pulse width and applies the switch state |
| Antenna.ProcessCommand | recipes-extended/control/files/antenna.c:210-246 | keeps the pulse width in the servo range; records the position and the antenna switch; every duty written is the new pulse width |
| Antenna.FirstCommandSynchronises | recipes-extended/control/files/antenna.c:217-229 | the first command leaves the pulse width unchanged |
| Antenna.LaterCommandMoves | recipes-extended/control/files/antenna.c:214-237 | a later command moves the pulse width by the position delta times 3000, or times 30000 with the encoder switch on, then clamps it |
| Antenna.ThreeFineSteps | recipes-extended/control/files/antenna.c:210-246 | from the centre, commands at positions 10 and then 13 give 1500000 and then 1509000 |
| Antenna.BurstCommitsOnce | recipes-extended/control/files/antenna.c:122-153 | several writes leave one deadline, 5 s after the last write; before it the alarm does nothing |
| Antenna.CommitIsFinal | recipes-extended/control/files/antenna.c:165-176 | after a commit, a further alarm does not rewrite the file |
| Antenna.Angle | recipes-extended/control/files/antenna.c:192-195 | every pulse width in range reports an angle in [-120, 120] |
| Antenna.AngleEnds | recipes-extended/control/files/antenna.c:25-30 | the ends and the centre of the range report -120, 120 and 0 |
| Antenna.AngleBand | recipes-extended/control/files/antenna.c:192-195 | each degree covers 7500 units of pulse width, closed below and open above |
| Antenna.StatusOf | recipes-extended/control/files/antenna.c:192-195 | the Status carries the power state, a battery voltage of 0, and an angle in range |
| Antenna.StatusMessage | recipes-extended/control/files/antenna.c:178-208 | `send_status` writes a 14-byte frame |
| Antenna.Boot | recipes-extended/control/files/antenna.c:360-400 | the pulse width starts at the value read from the ini file; the stored pulse width equals it when the file opened and stays 0 otherwise |
| Antenna.MissingIniWrittenAfterFirstCommand | recipes-extended/control/files/antenna.c:73-76 | without an ini file the first command writes the centre duty, and the alarm 5 s later creates the file with the centre position |
| Antenna.ParseByte | recipes-extended/control/files/antenna.c:248-358 | a command is dispatched exactly when the frame parser yields a message; otherwise the rotator is untouched |
| Antenna.Receive | recipes-extended/control/files/antenna.c:428-434 | the parser ends where feeding the bytes leads; the pulse width stays in range |
| Antenna.ReceiveAppend | recipes-extended/control/files/antenna.c:427-434 | receiving two reads in turn is the same as receiving their concatenation |
| Antenna.ReceiveQuiet | recipes-extended/control/files/antenna.c:427-434 | bytes that dispatch nothing change only the parser |
| Antenna.CommandDelivered | recipes-extended/control/files/antenna.c:340-355 | a received Command frame calls `process_command` once, with the encoded command, and leaves the parser ready |
| Antenna.WrongTypeFrameIgnored | recipes-extended/control/files/antenna.c:292-304 | a Status-type frame with a Command-sized payload is dropped at its CRC byte: the rotator is untouched, nothing is written, and the parser awaits a start byte |
| Antenna.StatusFrameIgnored | recipes-extended/control/files/antenna.c:305-311 | any Status frame echoed to the antenna fails the length check and cannot complete a Command frame: the rotator is untouched and nothing is written |
| Station.Boot | recipes-extended/control/files/station.c:638-654 | the antenna switch starts on exactly when the active-low master line reads low; not connected |
| Station.SendMessage | recipes-extended/control/files/station.c:310-341 | nothing while disconnected, otherwise one 17-byte frame |
| Station.StepFollowsGrayOrder | recipes-extended/control/files/station.c:148-187 | the step of a transition is +1 one place forward in the Gray sequence and -1 one place back |
| Station.EncoderEdge | recipes-extended/control/files/station.c:148-187 | ignored while the antenna switch is off; no change of levels does nothing; a change of levels records the transition time and, more than 5 ms after the previous transition, adds the Gray-code step to the counter and the difference counter (with 32-bit wrap) and sends `send_message`; otherwise both counters are kept and nothing is sent |
| Station.GrayCycle | recipes-extended/control/files/station.c:148-187 | one full forward cycle of slow edges adds 4 to the counter; one backward cycle subtracts 4 |
| Station.ButtonEdge | recipes-extended/control/files/station.c:189-215 | a rising edge clears the switch and a falling edge sets it, other switches unchanged; the change is latched only at least 5 ms after the previous button edge |
| Station.SharedDebounce | recipes-extended/control/files/station.c:189-215 | an edge less than 5 ms after one on another button is not latched |
| Station.CheckSwitch | recipes-extended/control/files/station.c:217-237 | reports exactly when the switch has been stable for 5 ms on the 32-bit clock, then clears its latch |
| Station.Settle | recipes-extended/control/files/station.c:261-271 | after settling, the switch is no longer latched; the switch word and the counter are unchanged |
| Station.PollTimeout | recipes-extended/control/files/station.c:255-277 | the interval difference is reset and no change stays latched; with a latch and a connection at least one report goes out |
| Station.ProcessMessage | recipes-extended/control/files/station.c:343-352 | the telemetry takes the Status's angle, power state and battery voltage and is marked updated; the connection state is unchanged |
| Station.Accept | recipes-extended/control/files/station.c:490-493 | connected, with one report sent; the parser and the watchdog timestamp are not reset |
| Station.ReceiveByte | recipes-extended/control/files/station.c:540-546 | a complete Status frame updates the telemetry and stamps the watchdog; other bytes change only the parser |
| Station.Receive | recipes-extended/control/files/station.c:538-546 | the parser ends where feeding the bytes leads |
| Station.ReceiveAppend | recipes-extended/control/files/station.c:538-546 | receiving two reads in turn is the same as receiving their concatenation |
| Station.ReceiveQuiet | recipes-extended/control/files/station.c:538-546 | bytes that dispatch nothing change only the parser |
| Station.StatusDelivered | recipes-extended/control/files/station.c:434-451 | a received Status frame sets the telemetry to the encoded Status and stamps the watchdog |
| Station.IdlePoll | recipes-extended/control/files/station.c:511-523 | disconnects exactly when a Status was once received and the last is more than 2000 ms old |
| Station.WatchdogAt2001 | recipes-extended/control/files/station.c:511-523 | 2001 ms of silence disconnects; 2000 ms does not |
| Station.StaleWatchdogAfterReconnect | recipes-extended/control/files/station.c:490-523 | a new connection is dropped at the first idle poll when the previous antenna's last Status is older than 2000 ms |
| Link.PanelDrivesAntenna | recipes-extended/control/files/station.c:310-341 | the panel's frame makes the antenna run `process_command` on the panel's counter and switches; the antenna switch and the coarse step follow the panel's switch bits |
| Link.AntennaInformsPanel | recipes-extended/control/files/antenna.c:178-208 | the antenna's Status frame gives the panel the angle of the current pulse width, within [-120, 120] |
| CircBuf.Size | recipes-extended/crsf-dridge/files/circ_buf.c:20-33 | the size is at most the capacity, all of it when full, and otherwise the distance from tail to head |
| CircBuf.Empty | recipes-extended/crsf-dridge/files/circ_buf.h:36-39 | empty exactly when the size is 0 and no item is held |
| CircBuf.Full | recipes-extended/crsf-dridge/files/circ_buf.h:31-34 | full exactly when every slot holds an item |
| CircBuf.Init | recipes-extended/crsf-dridge/files/circ_buf.c:3-11 | a new buffer holds nothing and has the storage's capacity |
| CircBuf.Reset | recipes-extended/crsf-dridge/files/circ_buf.c:13-18 | after a reset nothing is held |
| CircBuf.Put | recipes-extended/crsf-dridge/files/circ_buf.c:35-43 | the size grows by one, or stays at the capacity when full |
| CircBuf.Get | recipes-extended/crsf-dridge/files/circ_buf.c:45-54 | fails exactly when empty, leaving the buffer unchanged; otherwise the size drops by one |
| CircBuf.GetPtr | recipes-extended/crsf-dridge/files/circ_buf.c:56-62 | NULL exactly when empty, otherwise the oldest item |
| CircBuf.Drop | recipes-extended/crsf-dridge/files/circ_buf.c:64-71 | -1 exactly when empty; the buffer changes as `cbuf_get` would change it |
| CircBuf.PutAppends | recipes-extended/crsf-dridge/files/circ_buf.c:35-43 | a put into a buffer with room appends the item to the FIFO |
| CircBuf.PutOverwritesOldest | recipes-extended/crsf-dridge/files/circ_buf.c:35-43 | a put into a full buffer drops the oldest item and appends the new one |
| CircBuf.GetTakesOldest | recipes-extended/crsf-dridge/files/circ_buf.c:45-54 | a get returns the oldest item and removes it from the FIFO |
| CircBuf.FirstInFirstOut | recipes-extended/crsf-dridge/files/circ_buf.c:35-54 | two puts then two gets return the items in the order they went in |
| Crsf.ParserInit | recipes-extended/crsf-dridge/files/crsf-bridge.c:129-134 | back to awaiting an address; the counters are kept |
| Crsf.Step | recipes-extended/crsf-dridge/files/crsf-bridge.c:136-188 | keeps the buffer bounds; returns 0, or the length of a completed frame, between 5 and 64, exactly when the packet count grows; a late byte counts an error |
| Crsf.PayloadCompletes | recipes-extended/crsf-dridge/files/crsf-bridge.c:173-181 | the rest of a frame lands in the buffer after the stored bytes and completes it on its last byte |
| Crsf.FrameDelimited | recipes-extended/crsf-dridge/files/crsf-bridge.c:136-188 | a well-formed frame is delimited on its last byte, with length L + 2, and the buffer holds exactly the frame |
| Crsf.BadLengthRejected | recipes-extended/crsf-dridge/files/crsf-bridge.c:160-172 | a length byte outside [3, 62] counts an error and goes back to awaiting an address |
| Crsf.LateByteRestarts | recipes-extended/crsf-dridge/files/crsf-bridge.c:140-150 | a byte more than 1 ms late abandons the frame with one error and may start a new one |
| Crsf.SharedClockHidesGap | recipes-extended/crsf-dridge/files/crsf-bridge.c:140-150 | the clock shared by both parsers lets a byte of the other stream hide a gap of more than 1 ms |
| ChanConfig.ChannelUs | recipes-extended/control/files/config.cpp:59-119 | 0 for a missing frame or a channel outside 0..15, otherwise that channel's value |
| ChanConfig.Active | recipes-extended/control/files/config.cpp:133-137 | the first threshold strictly above the value, or -1 exactly when there is none |
| ChanConfig.BandMatch | recipes-extended/control/files/config.cpp:146-158 | the first band whose threshold is at or above the value, or none exactly when every threshold is below it |
| ChanConfig.Truncate | recipes-extended/control/files/config.cpp:150-154 | a prefix of the input: the whole input when it fits in 11 characters, otherwise exactly its first 11 |
| ChanConfig.BandName | recipes-extended/control/files/config.cpp:149-155 | the receiver name, a colon, and the band label or the band number from 1, cut to 11 characters |
| ChanConfig.Entry | recipes-extended/control/files/config.cpp:138-159 | marked selected exactly when the id equals the switch position; frequency and label come from the matching band, or are left as they were |
| ChanConfig.ChanInfo | recipes-extended/control/files/config.cpp:121-162 | not initialised returns 0 with size 0; a zero switch value returns -1; otherwise the count equals the new size, and entries beyond it are untouched |
| ChanConfig.GetChanInfo | recipes-extended/control/files/config.cpp:121-162 | the loops compute `ChanInfo` |
| ChanConfig.SwitchPosition | recipes-extended/control/files/config.cpp:133-137 | the threshold loop computes `Active` |
| ChanConfig.FindBand | recipes-extended/control/files/config.cpp:146-158 | the band loop computes `BandMatch` |
| ChanConfig.SelectedIffSwitchPosition | recipes-extended/control/files/config.cpp:133-159 | a receiver with a non-negative id is selected exactly when the id is the position of the first threshold above the switch value |
| ChanConfig.MinusOneIdIsDefault | recipes-extended/control/files/config.cpp:133-159 | a receiver with id -1 is selected exactly when no threshold lies above the switch value |
| ChanConfig.NothingSelectedAboveThresholds | recipes-extended/control/files/config.cpp:133-159 | with no threshold above the value, no receiver with a non-negative id is selected |
| ChanConfig.EntriesFilled | recipes-extended/control/files/config.cpp:138-161 | the number of entries filled is the smaller of the capacity and the table size, and it is both returned and stored in `*size` |

## Left out

- Sockets, `poll`, `read` and `write` are not modelled, and neither are GPIO requests, sysfs PWM export, `prepare_pwm`'s device set-up, the reader thread, the pipe between threads, or command-line parsing. Received bytes are sequences; written frames and file contents are returned values.
- `setitimer` and SIGALRM delivery are modelled as a deadline (`alarmAt`) that the `Alarm` function checks. Signal re-entrancy is not modelled.
- The antenna's status reply after each dispatched command, and on a poll without data, is not modelled as a loop. `ParseByte` reports whether a command was dispatched, and `StatusMessage` gives the frame.
- Antenna.PwmSetting: the loop that trims white space before '=' is bounded at the start of the name. The C loop can run below it on a line such as `"=5"`, which is undefined behaviour. Lines longer than the `fgets` buffer are not split into chunks.
- Text.Atol: follows glibc `strtol`, saturating at the `long` range; the result is then cut to `int` by wrapping.
- Antenna.ProcessCommand: signed `int` overflow is modelled as a 32-bit wrap, which is what the compiled code does, although C leaves it undefined.
- A reconnect of the panel resets neither its parser nor its watchdog timestamp (station.c:492-493). The model keeps both, and `Station.StaleWatchdogAfterReconnect` shows the effect.
- `antenna_status` is declared in `common.h` and again in `station.h`, and only the `station.h` copy has `vbat`. The model uses the copy with `vbat`.
- `SWITCH_GST_NUM`, the switch number of the fourth GPIO button, is not defined in any of the headers. The switch number is therefore a parameter of `Station.ButtonEdge`.
- The levels of the button lines are only logged, so they are not kept.
- The panel's peer-close disconnect and the visualisation calls are not modelled.
- `process_message` checks the message type, but its caller only dispatches Status frames, so the check always passes. It is not modelled.
- The first poll timeout disconnects only when a Status has been received at least once (`status_timestamp != 0`); this is modelled as written.
- `cbuf_free` has an empty body and is not modelled.
- CircBuf.Drop: on success `cbuf_drop` falls off its end without a return value. The model reports only whether -1 was returned.
- The item byte size of the ring buffer plays no part in its index arithmetic; each slot holds one whole item.
- The `Buffer` class of `CircBuf` states its contracts with `old()`. It shows the ring used as a mutable FIFO.
- `crsf_protocol.h` is not part of this model. The address bytes 0xEA and 0xEE, the 64-byte packet limit and the 60-byte payload limit are the usual CRSF values.
- The unreachable `default` branch of the CRSF `parser` is not modelled.
- Crsf.Step: the `packets` and `errs` counters are unbounded, without the `uint64_t` wrap-around.
- `TICKS_TO_US` is not modelled: the channel values are taken already converted to microseconds.
- YAML loading of the configuration is not modelled. Neither are `vtx_table_58`, the power table and the transmitter switch, which `get_chan_info` does not read.
- ChanConfig.Truncate: names are taken one character per byte. `snprintf` cuts at 11 bytes, so a name with non-ASCII characters keeps fewer characters in C and may end in a split UTF-8 sequence; the model cuts at 11 characters.
- ChanConfig.BandName: built from `ChanConfig.Truncate`, so it shares that byte-versus-character difference for non-ASCII receiver names and band labels.
- ChanConfig.ChanInfo: a receiver row with fewer thresholds than frequencies makes the C code read out of bounds. The model requires at least as many thresholds as frequencies.
- ChanConfig.SelectedIffSwitchPosition: stated for non-negative ids only. An id of -1 compares equal to "no threshold above", and `ChanConfig.MinusOneIdIsDefault` states that case.
