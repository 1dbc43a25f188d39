# txtempus, verified

txtempus turns a point in time into the longwave signal of a time station (DCF77, WWVB, JJY, MSF, BPC) and plays it
on a Raspberry Pi. This project models that chain in Dafny and proves what it delivers: a broadcast, listened to by a
receiver, says the right time, second by second and for whole runs.

The chain, and the files that model it:

| part | files |
|---|---|
| machine words, binary-coded decimals, parity groups, POSIX calendar | `Words`, `Bcd`, `BitSeqs`, `Calendar` |
| the envelope of one second and its chart | `Signal` |
| the station encoders, with a receiver for each | `Dcf77`, `Wwvb`, `Jjy`, `Msf`, `Bpc`, `Markers`, `BpcSelfTest`, `Sources` |
| the signal on the air, for any source that keeps the contract; the broadcasts of the stations; the transmit loop; `main` | `Waveform`, `Programs`, `Transmitter`, `Txtempus` |
| what receivers make of a broadcast | `Broadcast`, `Sync`, `Receivers` |
| clock divider and pins of the Raspberry Pi | `ClockDivider`, `Gpio`, `RpiControl` |
| the comment-preserving configuration editor | `Text`, `Conf`, `ConfLaws`, `ConfLines`, `ScheduleTimes` |

`dafny verify dfyconfig.toml` checks everything.

## How it is modelled

- A `uint64_t` or a 32-bit register is the list of its 64 or 32 bits, lowest bit first; `|`, `&`, `~`, `<<`, `>>` and
  `x - 1` work on such lists and drop what is shifted out of the width.
- `localtime_r` is an arbitrary function from seconds to a valid broken-down time (`Calendar.Zone`), different for every
  time zone. `gmtime_r` is the calendar of POSIX.1-2017, Base Definitions, section 4.16, "Seconds Since the Epoch",
  continued backwards to 1900.
- Each encoder is a class with the fields of the source; `PrepareMinute` updates them field by field. Its contract ties
  them to a specification function, whose meaning is what the receiver of the same module decodes from the envelopes.
- The clock is a field of the transmitter, in nanoseconds. Waiting until a deadline sets it to the later of the two; a
  signal may arrive before, during or after any wait or switch and may cut a wait short. Ghost fields record every
  switch of the carrier, the frequency made at each of them, every deadline, every time handed to `PrepareMinute`, and
  the time of the signal.
- The hardware is told from outside: `Gpio.Stored` is what a store to a word of the GPIO block does to the output latch,
  by the byte offsets of the BCM2835 ARM Peripherals manual, section 6.1; `RpiControl.Made` is the frequency that the
  clock manager makes of its registers, as in section 6.3. What the pins put on the air is a function of their function
  fields and the latch (`Transmitter.Carrier`), and after every switch it is the level asked for. Pins that the program
  never leaves behind, such as the attenuation pin driven high, have no level.
- The power in force at an instant is that of the last switch made up to then. `Waveform.Promised` is what the interface's
  comments say should be on the air: the last level of a list stays for the remainder of the second.
- A receiver gets a function from second and millisecond to the level on the air and decides by samples. What it should
  get is a predicate `Says` of its bits and a time: the fields weigh to the time, the checks pass, all digits are decimal
  and every place that means nothing is zero. `FrameDetermined` shows for each station that this leaves no bit open, and
  `SecondLevel` gives the level that each bit puts on the air at every millisecond.

## What turned out differently

- A run does not last to its end. `StopClock` is called right after the last deadline of the last second, so the open
  rest of that second is never sent (`Waveform.RunRefines` gives the exact moment, `Waveform.RunEndsEarly` shows that every
  run is cut short). The last minute can still be decoded for every station (`Broadcast`), for BPC from its first two
  frames only: the carrier would come back to full power after the pulse of second 59, which is when the run stops, so
  the last frame of every run is lost (`Broadcast.BpcRun`).
- A list whose durations add up to 1000 ms keeps the contract of the interface, but makes the loop wait for
  1000000000 ns after the second, which is no valid time, so the wait returns at once (`Waveform.DeadlinesValid`,
  `Waveform.FullSecondExample`). If an open last entry follows, it is sent together with the entry before it, which is
  lost: the list is *hurried*. Then the air is not as prescribed and the chart may not be what is sent
  (`Waveform.WholeSecond`, `Waveform.ChartShowsSignal`, example in `Waveform.HurriedExample`). All six stations produce
  shorter lists, which are never hurried (`Programs.EnvelopesKeep`).
- `PrepareMinute` is promised times divisible by 60. The offset to a chosen time is kept in an `int`, so the promise
  breaks for times more than 2^31 seconds away, except when the offset wraps by a multiple of 15
  (`Txtempus.PreparedAligned`, example in `Txtempus.FarFuture`).
- A new key is lost when the last line of the configuration file has no newline, is not blank and is not itself rewritten
  (`ConfLaws.UpdateReadsBack`, example in `ConfLaws.GlueExample`).

## Model

| member | source | states |
|---|---|---|
| Words.Parity | src/dcf77-source.cc:21-27 | the loop of DCF77 and JJY finds whether an odd number of bits of the range is set |
| Words.ClearLowest | src/bpc-source.cc:47 | `x & (x - 1)` has exactly one set bit fewer than x, if it has any |
| Words.DecrementSubtracts | src/bpc-source.cc:47 | borrowing through the zeros subtracts one |
| Words.PopcountParity | src/bpc-source.cc:45-49 | the loop over set bits ends and finds the parity of a bit-by-bit scan of all 64 bits |
| Words.FieldReadsBack | src/dcf77-source.cc:37-46 | every field OR-ed into a word at its own places can be read back from it |
| Words.UncoveredClear | src/wwvb-source.cc:37-43 | places that belong to no field stay zero |
| Bcd.BcdRoundTrip | src/msf-source.cc:20 | two-digit BCD fits its field, its digits are decimal, and a receiver weighing the bits gets the number back |
| Bcd.PaddedRoundTrip | src/wwvb-source.cc:20-22 | the same for BCD with a zero bit between the digits; the padding bits are zero |
| Bcd.BcdDetermines | src/dcf77-source.cc:20 | decimal digits and the number they weigh to leave one way to fill a field |
| Bcd.PaddedDetermines | src/wwvb-source.cc:20-22 | the same for padded fields |
| Bcd.ToBcd3IsToBcd | src/jjy-source.cc:27-29 | JJY's three-digit BCD is the two-digit one for all numbers it is used for |
| Calendar.Gmtime | src/wwvb-source.cc:32 | a valid time whose POSIX number of seconds is the one given, from 1900 on |
| Calendar.PosixDetermines | src/wwvb-source.cc:32 | no other valid reading of clock and calendar has the same number of seconds |
| Calendar.LeapDayFollowsFormula | src/wwvb-source.cc:24-26 | `is_leap_year` holds exactly in the years to which the POSIX formula gives 366 days |
| Calendar.DateIs | src/wwvb-source.cc:32 | day of the year, by the cumulative days of the months, is what month and day of the month say, and the day fits its month |
| Calendar.WeekdaysAdvance | test/bpc_selftest.py:97-103 | the Epoch was a Thursday, and a day later is the next weekday |
| BitSeqs.ErrorDetected | src/msf-source.cc:21-27 | misread bits change the parity of a group exactly if their number is odd |
| BitSeqs.ParityDistance | src/jjy-source.cc:31-37 | two different groups of equal parity differ in at least two bits |
| Signal.LevelOfEntry | include/time-signal-source.h:50-57 | each entry of a list is on the air for its duration, the last one to the end of the second |
| Signal.PrintModulationChart | src/txtempus.cc:88-103 | ten symbols for every list within the second, symbol k being `#` exactly if the level at 100k ms is HIGH |
| Markers.SamplePulse | src/jjy-source.cc:60-66 | of all pulses of WWVB and JJY just those of ones end between the receiver's two samples |
| Markers.PulsesReadBack | src/wwvb-source.cc:52-58 | the whole word is recovered from the pulse widths although seven seconds carry markers |
| Dcf77.ValuesFit | src/dcf77-source.cc:37-46 | all fields fit and are pairwise disjoint for every valid time, and each holds its number |
| Dcf77.ParityCompletes | src/dcf77-source.cc:48-50 | each parity bit makes its group even and changes no other bit |
| Dcf77.Dcf77TimeSignalSource.PrepareMinute | src/dcf77-source.cc:29-51 | the word of the upcoming minute, t + 60 |
| Dcf77.Dcf77TimeSignalSource.GetModulationForSecond | src/dcf77-source.cc:53-59 | the envelope of a second: bit s in second s, none in second 59 |
| Dcf77.RoundTrip | src/dcf77-source.cc:29-59 | a receiver of the pulses gets minute, hour, day, ISO weekday, month, year and DST; all checks pass, bits 17 and 18 differ, bit 20 is set, and bits 0 to 16 and 19 are zero |
| Dcf77.FrameDetermined | src/dcf77-source.cc:29-51 | these conditions leave none of the 59 bits open |
| Dcf77.SecondLevel | src/dcf77-source.cc:53-59 | the level at every millisecond: reduced for 100 ms, for 200 ms by a one, never in second 59 |
| Dcf77.ErrorsDetected | src/dcf77-source.cc:48-50 | a misread frame passes its checks exactly if every group has an even number of misread bits |
| Dcf77.FramesApart | src/dcf77-source.cc:48-50 | frames that differ in a group differ there in at least two bits |
| Wwvb.WordReadsBack | src/wwvb-source.cc:37-49 | the word decodes to its time, has decimal digits, and is zero at all marker places and wherever nothing is said |
| Wwvb.WwvbTimeSignalSource.PrepareMinute | src/wwvb-source.cc:28-50 | the word of the UTC minute t with DST of today and tomorrow |
| Wwvb.WwvbTimeSignalSource.GetModulationForSecond | src/wwvb-source.cc:52-58 | the envelope of a second: marker, or bit 59 - s |
| Wwvb.RoundTrip | src/wwvb-source.cc:28-58 | a receiver gets minute, hour, day of year, two-digit year, leap bit and both DST bits, and zeros in places 0, 3, 5, 15-25, 38-40, 48-50, 59 and between the digits |
| Wwvb.InvertsTime | src/wwvb-source.cc:28-58 | the decoded frame, put through the POSIX formula in its century, gives exactly t, for every whole minute from 1900 on; the leap bit is set exactly in years of 366 days, DST is that of t and of a day later, and all other places are zero |
| Wwvb.FrameDetermined | src/wwvb-source.cc:28-50 | these conditions leave none of the 60 bits open |
| Wwvb.SecondLevel | src/wwvb-source.cc:52-58 | the level at every millisecond: reduced for 800 ms in markers, else for 500 or 200 ms by the bit |
| Wwvb.FrameIdentifiesMinute | src/wwvb-source.cc:28-50 | two receptions that read the same minute, hour, day of year and year within a century are of the same minute, whatever zones and DST bits |
| Jjy.FrameSays | src/jjy-source.cc:46-54 | the word decodes to its time, passes both checks, and is zero at all marker places and wherever nothing is said |
| Jjy.JjyTimeSignalSource.PrepareMinute | src/jjy-source.cc:39-58 | the word of local minute t |
| Jjy.JjyTimeSignalSource.GetModulationForSecond | src/jjy-source.cc:60-66 | the envelope of a second: marker, or bit 59 - s |
| Jjy.RoundTrip | src/jjy-source.cc:39-66 | a receiver gets minute, hour, day of year, year and weekday, both checks pass, and the free places and those between the digits are zero |
| Jjy.FrameDetermined | src/jjy-source.cc:39-58 | these conditions leave none of the 60 bits open |
| Jjy.SecondLevel | src/jjy-source.cc:60-66 | the level at every millisecond: up for 200 ms in markers, else for 500 or 800 ms by the bit |
| Jjy.ErrorsDetected | src/jjy-source.cc:53-54 | a misread frame passes exactly if both groups have an even number of misread bits |
| Jjy.FramesApart | src/jjy-source.cc:53-54 | times that differ in hour or minute are at least two bits apart in that group |
| Msf.OddParity | src/msf-source.cc:21-27 | one exactly if an even number of bits of the range is set |
| Msf.MsfTimeSignalSource.PrepareMinute | src/msf-source.cc:29-54 | both words of the upcoming minute, t + 60 |
| Msf.MsfTimeSignalSource.GetModulationForSecond | src/msf-source.cc:56-67 | the envelope of a second: 500 ms gap, or A bit and B bit |
| Msf.RoundTrip | src/msf-source.cc:29-67 | a receiver gets minute, hour, weekday, day, month, year and summer time, all four checks pass, the identifier is there, and all other A and B bits are zero |
| Msf.FrameDetermined | src/msf-source.cc:29-54 | these conditions leave none of the 118 bits open |
| Msf.SecondLevel | src/msf-source.cc:56-67 | the level at every millisecond: off for 100 ms and for another 100 ms by each bit; for 500 ms in second 0 |
| Msf.ErrorsDetected | src/msf-source.cc:49-52 | misread A and B bits go unnoticed exactly if every group with its B bit has an even number of them |
| Msf.FramesApart | src/msf-source.cc:49-52 | frames that differ in a group differ there, parity included, in at least two bits |
| Msf.WordShape | src/msf-source.cc:38-44 | where a calendar time cannot put ones, and where the identifier does |
| Msf.NoLongRun | src/msf-source.cc:38-44 | no six ones in a row from year to minute, not even across fields |
| Msf.IdentifierUnique | src/msf-source.cc:56-67 | in any sequence of valid minutes 01111110 is heard exactly from second 52 on of each minute |
| Bpc.EncodeBlock | src/bpc-source.cc:67-85 | the block assembled by `put_bits` is the eight numbers in their fields with their parity |
| Bpc.BlockSays | src/bpc-source.cc:67-85 | every number can be read back from its field, the hour as one of 1 to 12; the parity bit is that of bits 2 to 37; bits 0 and 2 to 5 and everything above bit 37 are zero |
| Bpc.SecondLevel | src/bpc-source.cc:105-113 | the level at every millisecond: reduced for 100 ms more than the symbol says, never for the marker 0xFF |
| Bpc.ShiftedParity | src/bpc-source.cc:83 | parity over `b >> 2` is the bit-scan parity of bits 2 to 37 |
| Bpc.ErrorsDetected | src/bpc-source.cc:83 | a misread block passes exactly if an even number of bits 1 to 37 is misread |
| Bpc.BlocksApart | src/bpc-source.cc:83 | blocks that differ in a protected bit differ in at least two |
| Bpc.BpcTimeSignalSource.PrepareMinute | src/bpc-source.cc:88-103 | the 60 symbols of three blocks, each for the time of its own start |
| Bpc.BpcTimeSignalSource.GetModulationForSecond | src/bpc-source.cc:105-113 | the envelope of the second's symbol, seconds taken modulo 60 |
| BpcSelfTest.ParseWidths | test/bpc_selftest.py:47-59 | the width table of all lines in which the line pattern is found, later lines winning |
| BpcSelfTest.LastLineCounts | test/bpc_selftest.py:47-59 | a second has the width of the last line found for it |
| BpcSelfTest.DecodeFrame | test/bpc_selftest.py:70-91 | numbers exactly for a marker followed by 19 good symbols; otherwise the first bad second |
| BpcSelfTest.FrameRecovered | test/bpc_selftest.py:73-79 | from the right widths the decoder gathers the encoder's block |
| BpcSelfTest.SelfTestPasses | test/bpc_selftest.py:94-114 | encode, chart, measure and decode returns frame number, 24-hour hour, minute, weekday, date, good parity and zeros elsewhere, for every time zone, time and frame |
| BpcSelfTest.BlockDetermined | src/bpc-source.cc:67-85 | this leaves none of the 64 bits open |
| BpcSelfTest.FrameDecides | test/bpc_selftest.py:94-114 | a frame sent for one time passes the comparison with another exactly if hour, minute, weekday, day, month and two-digit year are equal |
| BpcSelfTest.Check | test/bpc_selftest.py:94-114 | passes exactly if all three frames are readable and agree with the time |
| BpcSelfTest.CheckPasses | test/bpc_selftest.py:94-114 | in UTC, what the dry run says of every whole minute agrees with it |
| BpcSelfTest.SecondFound | test/bpc_selftest.py:26 | the pattern finds second and chart in each line that the dry run prints |
| BpcSelfTest.MatchReads | test/bpc_selftest.py:26 | a colon, two digits, a blank and strokes in brackets match, whatever follows, and give second and chart |
| BpcSelfTest.MatchParts | test/bpc_selftest.py:26 | nothing else matches |
| BpcSelfTest.SearchFirst | test/bpc_selftest.py:51 | the search returns the match at the first place that has one |
| BpcSelfTest.PrintPasses | test/bpc_selftest.py:94-114 | the printed charts of every whole minute of UTC pass the self-test |
| BpcSelfTest.PrintDecides | test/bpc_selftest.py:94-114 | the printed charts of any minute in any zone pass the comparison with a time exactly if the starts of its three frames look like that time |
| Sources.EnvelopesPlayable | include/time-signal-source.h:50-61 | every envelope of every station keeps the interface's contract with time to spare, and does not end in OFF |
| Sources.Source.PrepareMinute | include/time-signal-source.h:41-48 | the station's minute of time t is prepared |
| Sources.Source.GetModulationForSecond | include/time-signal-source.h:50-61 | the envelope that belongs to station, prepared time and second |
| Programs.EnvelopesKeep | include/time-signal-source.h:50-61 | every broadcast of every station keeps the contract for ever, is never hurried and closes no second with OFF |
| Programs.ScheduleOfStation | src/txtempus.cc:218-247 | the stations' switches put on the air what is promised at every instant from the start of the program on |
| Programs.RunOfStation | src/txtempus.cc:218-249 | a whole run of a station is on the air as promised exactly up to its last deadline |
| Waveform.ReachIs | src/txtempus.cc:238-243 | the loop starts every entry at its nominal time, but an open last one after a full second together with the entry before it |
| Waveform.SecondRefines | src/txtempus.cc:238-243 | for every list that keeps the contract, the switches at the loop's own times produce the level prescribed at an instant exactly unless the list is hurried there |
| Waveform.WholeSecond | src/txtempus.cc:238-243 | the whole second is as prescribed exactly unless the list adds up to 1000 ms, ends open, and its last two levels differ |
| Waveform.ChartShowsSignal | src/txtempus.cc:88-103 | for a second that begins on time, all ten chart symbols are true of what the loop sends exactly unless the list is hurried between HIGH and another level and the entry cut lasts 100 ms or more |
| Waveform.ChartSymbolTrue | src/txtempus.cc:88-103 | which symbols are wrong then; the same for programs that begin within the second |
| Waveform.HurriedExample | src/txtempus.cc:238-243 | 500 ms HIGH, 500 ms LOW, open HIGH keeps the contract; the loop has the carrier at HIGH where list and chart say LOW |
| Waveform.DeadlinesValid | src/txtempus.cc:241 | the deadlines of a list that keeps the contract are valid times exactly if it adds up to less than 1000 ms |
| Waveform.FullSecondExample | include/time-signal-source.h:57 | a list that keeps the contract and has an invalid last deadline |
| Waveform.SchedulePrefix | src/txtempus.cc:218-247 | a shorter run makes the first of the switches of a longer one |
| Waveform.ScheduleRefines | src/txtempus.cc:218-247 | for every source that keeps the contract and every start, mid-minute included, the power in force is the one promised exactly where the list of the second is not hurried |
| Waveform.RunRefines | src/txtempus.cc:218-249 | a whole run of such a source: the same up to the last valid deadline; from then on OFF, as promised exactly if the last second closes with OFF |
| Waveform.RunEndsEarly | src/txtempus.cc:249 | every run is off the air before its last second is over, whatever that second prescribes |
| Transmitter.CarrierFollows | src/rpi-control.cc:318-333 | after a power request the pins produce the level requested: for LOW GPIO17 is an output and its latch has been pulled low by a store at offset 0x28 |
| Transmitter.Transmitter.WaitUntil | src/txtempus.cc:51-54 | the clock moves to the deadline unless it is past, invalid or a signal comes; nothing is switched |
| Transmitter.Transmitter.SetTxPower | src/txtempus.cc:65-68 | one more switch, now, and the pins follow |
| Transmitter.Transmitter.SendTransitions | src/txtempus.cc:238-243 | for every list that keeps the contract: all switches of a second, in time unless a signal came; deadlines in order, and all valid exactly if the list adds up to less than 1000 ms |
| Transmitter.SecondOnAir | src/txtempus.cc:238-243 | after such a second the power that has been in force is the one prescribed exactly where the list is not hurried |
| Transmitter.ChartOnAir | src/txtempus.cc:88-103 | and its chart is true of what was sent exactly unless a hurried switch shows at a sample |
| Transmitter.Transmitter.SendSecond | src/txtempus.cc:224-245 | the next second is sent whole, or a signal came before it began |
| Transmitter.Transmitter.SendMinute | src/txtempus.cc:224-245 | sixty seconds, fewer only after a signal, none if it had come before |
| Transmitter.Transmitter.SendMinutes | src/txtempus.cc:218-247 | `ttl` minutes, fewer only after a signal, minute i prepared for now + offset + 60i |
| Transmitter.Transmitter.Finish | src/txtempus.cc:249 | `StopClock` is the last thing done; the clock pin is an input and the control word, with its password, kills the clock |
| Transmitter.Transmitter.Transmit | src/txtempus.cc:217-249 | all of this for a whole run: events, times, frequencies, deadlines, prepared minutes, no second begun after a signal, the one in progress completed |
| Txtempus.TruncateTo | src/txtempus.cc:49 | the last multiple of d that is not later, for times before the Epoch the first that is not earlier |
| Txtempus.StartCarrier | src/txtempus.cc:56-63 | the clock manager makes each of the four carriers, 40 and 60 kHz exactly and the others less than 0.03 Hz too high, and GPIO4 carries the clock |
| Txtempus.Run | src/txtempus.cc:145-249 | from clock and options to the end: a finished run; unless the 32-bit offset overflows, minute i is prepared for the time given with -t, or else the present minute, plus 60 seconds per minute of -z, plus 60i |
| Txtempus.AlwaysCovered | src/txtempus.cc:184 | the 32-bit offset never leads to a time that the WWVB calendar does not cover |
| Txtempus.DryRun | src/txtempus.cc:224-245 | the sixty charts of that time, again with the options written out |
| Txtempus.SelfTest | test/bpc_selftest.py:94-114 | dry run of BPC in UTC, printed, parsed and compared with the time chosen: passes exactly if the time prepared looks like it, and always unless the 32-bit offset overflows |
| Txtempus.RunOnAir | src/txtempus.cc:218-249 | an uninterrupted run has on the air what is promised at every instant from its start to its last deadline, and nothing afterwards |
| Txtempus.RunInTune | src/txtempus.cc:215 | at every switch of a run the clock manager makes 77500 Hz for DCF77, 68500 Hz for BPC (each to 0.03 Hz), 60000 Hz for WWVB, MSF and JJY60 and 40000 Hz for JJY40 (exactly) |
| Txtempus.RunIsHeard | src/txtempus.cc:218-249 | what a receiver hears of minute i of an uninterrupted run is that minute, prepared for now + offset + 60i |
| Txtempus.OnAirUpToSignal | src/txtempus.cc:218-249 | a run that a signal ends has on the air what is promised at every instant from its start up to the signal |
| Txtempus.HeardUpToSignal | src/txtempus.cc:218-249 | and every minute that was over by then arrives whole |
| Txtempus.RunIsPrefix | src/txtempus.cc:218-249 | whenever a signal came, the power sequence is a prefix of the uninterrupted one followed by OFF |
| Txtempus.ChosenIsSent | src/txtempus.cc:183-184 | the first minute is prepared for the time asked for exactly if that is within 2^31 seconds of the present, and otherwise for one that is and differs by a multiple of 2^32 |
| Txtempus.PreparedAligned | src/txtempus.cc:183-222 | the first minute is prepared for a time divisible by 60 exactly if the 32-bit offset wraps by a multiple of 15 |
| Txtempus.AllPreparedAligned | src/txtempus.cc:217-222 | the same for every minute of a run |
| Txtempus.FarFuture | src/txtempus.cc:184 | New Year 2100 is not sent, and what is sent is not a whole minute |
| Broadcast.MinuteArrives | src/txtempus.cc:218-249 | minute i of a run of n arrives as prepared for first + 60i, the cut at the very end apart |
| Broadcast.Dcf77Run | src/dcf77-source.cc:30 | minute i of a run says the local time of minute i + 1, and nothing else |
| Broadcast.MsfRun | src/msf-source.cc:30 | minute i of a run says the local time of minute i + 1, and nothing else |
| Broadcast.JjyRun | src/jjy-source.cc:41 | minute i of a run says its own local time, and nothing else |
| Broadcast.WwvbRun | src/wwvb-source.cc:32 | minute i of a run, read with the POSIX formula, is first + 60i exactly; leap year and DST bits are right and all other places zero |
| Broadcast.MomentInRun | src/txtempus.cc:218-249 | the level heard at any millisecond of a run is the one prescribed, or OFF after the last pulse |
| Broadcast.BpcRun | src/bpc-source.cc:88-113 | frame f of minute i is readable exactly unless it is the last frame of the run, and then says the local time 20f seconds into the minute, and nothing else |
| Sync.Dcf77Gap | src/dcf77-source.cc:55-58 | the only unreduced second of any broadcast is second 59 |
| Sync.MsfGap | src/msf-source.cc:58-66 | the only 500 ms gap is that of second 0 |
| Sync.MsfIdentifier | src/msf-source.cc:56-67 | 01111110 starts in second 52 of each minute of any broadcast and nowhere else |
| Sync.AdjacentMarkers | src/wwvb-source.cc:54-57 | WWVB and JJY: two markers in a row are seconds 59 and 0 |
| Sync.BpcMarker | src/bpc-source.cc:96-112 | markers are every 20 seconds, and the symbol after one tells which of the three it is |
| Sync.WindowFixesPosition | include/time-signal-source.h:50-61 | any 21 seconds of BPC, 60 of DCF77 or MSF, 61 of WWVB or JJY with the same level at every millisecond fix the second of the minute, whatever the dates |
| Receivers.BeginsIff | include/time-signal-source.h:50-61 | a receiver's test for the start of a minute succeeds exactly in the seconds with which one begins |
| Receivers.Locks | src/txtempus.cc:218-249 | from any two minutes and one second of an uninterrupted run, at any offset, the search finds a second with which a minute begins, and the minute heard from there on is the prepared one |
| Receivers.Dcf77Locks | src/dcf77-source.cc:29-59 | from such a window alone a receiver gets the start of a minute and the local time of the next |
| Receivers.MsfLocks | src/msf-source.cc:29-67 | the same for MSF, both words and all checks |
| Receivers.JjyLocks | src/jjy-source.cc:39-66 | from such a window a receiver gets the start of a minute and its own local time |
| Receivers.WwvbLocks | src/wwvb-source.cc:28-58 | the time that is decoded is, by the POSIX formula, that of the second that was found, with DST of its two days |
| Receivers.BpcLocks | src/bpc-source.cc:88-113 | all three frames of the minute that was found are readable, and each says the local time at which it began |
| ClockDivider.TriedIsFloor | src/rpi-control.cc:126-129 | the divider tried is the exact ratio rounded down to a 1024th, within the register's range |
| ClockDivider.ErrorBound | src/rpi-control.cc:130-131 | its frequency is at least the one requested, and too high by less than req / (1024 D) |
| ClockDivider.ChooseDivider | src/rpi-control.cc:121-137 | a source is found exactly if one is admissible; none has a smaller error, and no earlier one the same |
| ClockDivider.ServedRange | src/rpi-control.cc:114-140 | some source is admissible exactly from 19.2 MHz / 4095 to 500 MHz |
| ClockDivider.ChosenFrequency | src/rpi-control.cc:171 | the frequency returned is at least the one requested, and too high by less than req / (1024 D) |
| ClockDivider.NoneCloser | src/rpi-control.cc:114-137 | none of 19.2, 216, 500 and 1000 MHz, its ratio rounded down to a 1024th, comes closer to the request, and none that comes as close is faster |
| ClockDivider.StationCarriers | src/rpi-control.cc:109-172 | every carrier is made to better than 0.03 Hz, 40 and 60 kHz exactly |
| Gpio.InpSelects | src/rpi-control.cc:47 | the pin becomes an input, every other pin keeps its function |
| Gpio.OrSelects | src/rpi-control.cc:48-49 | OR-ing a function in selects just it on a pin that was an input, and changes no other pin |
| Gpio.OutputsSelect | src/rpi-control.cc:85-95 | exactly the requested pins become outputs, whatever they were |
| Gpio.InputsSelect | src/rpi-control.cc:97-106 | exactly the requested pins become inputs |
| Gpio.ValidBitsAre | src/rpi-control.cc:74-83 | the header's bits are 0 to 27, all of them |
| Gpio.TxPowerSelects | src/rpi-control.cc:318-333 | what one power request does to each of the 54 pins and to each bit of the latch |
| Gpio.RunSelects | src/rpi-control.cc:318-333 | after `StartClock` and any power requests: GPIO4 input exactly after OFF and else ALT0; GPIO17 output after the last LOW, input after the last HIGH; every other pin as before |
| RpiControl.WordsReadBack | src/rpi-control.cc:151-157 | divider, source, noise shaping and enable bit survive packing; both words carry the password |
| RpiControl.SettingMakes | src/rpi-control.cc:143-158 | the registers that hold source, divider and one-stage noise shaping make the source's frequency over the divider |
| RpiControl.RpiControl.ClearBits | include/rpi/hardware-control-implementation.h:47 | a store to the clear register: the block's word and the latch after it |
| RpiControl.RpiControl.RequestOutput | src/rpi-control.cc:85-95 | the loop sets the pins that are requested and on the header, and returns them |
| RpiControl.RpiControl.RequestInput | src/rpi-control.cc:97-106 | likewise for inputs |
| RpiControl.RpiControl.SetTxPower | src/rpi-control.cc:318-333 | the whole register state after a power request |
| RpiControl.RpiControl.EnableClockOutput | src/rpi-control.cc:185-191 | only the function of GPIO4 changes |
| RpiControl.RpiControl.StopClock | src/rpi-control.cc:174-183 | clock killed and GPIO4 an input |
| RpiControl.RpiControl.StartClock | src/rpi-control.cc:109-172 | fails exactly outside the served range, touching nothing; else the clock manager makes of its registers exactly the frequency returned, with the best divider and source; GPIO4 carries the clock, and no other clock register has changed |
| Text.StripSplit | web/txtempus-web.py:68 | stripping takes just the white space off both ends |
| Text.LinesOfConcat | web/txtempus-web.py:100 | lines written are read again as the same lines |
| Text.LineEnds | web/txtempus-web.py:66-67 | carriage returns, alone or before a newline, are read as newlines |
| Conf.Conf.ReadConf | web/txtempus-web.py:63-75 | the settings of the file, later lines winning; none without a file |
| Conf.Conf.UpdateConf | web/txtempus-web.py:78-101 | on success the file is its lines rewritten where they set an updated key, the unseen keys appended; if writing fails at any point the file is as it was, and the temporary file as it was or a beginning of the new text |
| ConfLaws.EntryOfLine | web/txtempus-web.py:91 | a line written for a setting is read as that setting with its value stripped |
| ConfLaws.KeyReadsBack | web/txtempus-web.py:97 | a setting survives in a new file exactly if its key is tight, on one line, without `=` and not a comment |
| ConfLaws.KeysReadAreGood | web/txtempus-web.py:63-75 | no other key is ever read from any file |
| ConfLaws.UpdateReadsBackWhole | web/txtempus-web.py:78-101 | for every newline-terminated file, reading after an update gives the old settings overridden by the stripped updates |
| ConfLaws.UpdateReadsBack | web/txtempus-web.py:78-101 | for every file, that holds exactly if no new line is glued to an unterminated last line that is kept and not blank |
| ConfLaws.WholeIff | web/txtempus-web.py:80-82 | the laws for newline-terminated files are those for files whose text, if any, ends in a newline |
| ConfLaws.GlueExample | web/txtempus-web.py:95-97 | a file of three characters in which a new key is lost |
| ConfLaws.UpdateKeepsLines | web/txtempus-web.py:86-97 | lines that set no updated key keep text and place; new keys come last |
| ConfLaws.UpdateTwice | web/txtempus-web.py:78-101 | the same update again leaves the file as it is |
| ConfLaws.UpdatesMerge | web/txtempus-web.py:78-101 | two updates in sequence read back as the merged update |
| ConfLines.LineReads | web/txtempus-web.py:68-72 | a line of key, '=' and value, with any white space at its ends and around the '=', reads as exactly that key and value, an empty key included |
| ConfLines.PlainLineReads | web/txtempus-web.py:68-72 | the same told by characters: blanks, tabs and line ends around visible text |
| ConfLines.LineParts | web/txtempus-web.py:68-72 | every line that makes a setting is made of such parts |
| ConfLines.NothingIff | web/txtempus-web.py:68-70 | the lines that mean nothing are exactly the blank ones, the comments and those without '=' |
| ConfLines.LastLineWins | web/txtempus-web.py:67-72 | a key has the value of the last line that sets it |
| ConfLines.UpdatedFile | web/txtempus-web.py:86-97 | after an update each old line that sets an updated key is that key with its new value, the others are unchanged, and the unseen keys follow in the order of the updates |
| ScheduleTimes.CleanTimes | web/txtempus-web.py:157-173 | the items that are not blank, stripped and in order, exactly if all of them are times |
| ScheduleTimes.TimeIff | web/txtempus-web.py:57 | the times accepted are the two-digit hours 00 to 23 with a colon and the minutes 00 to 59, and nothing else |
| ScheduleTimes.OneItem | web/txtempus-web.py:166-172 | white space around an item means nothing, and a blank item counts for nothing, wherever it stands |
| ScheduleTimes.SpacesIgnored | web/txtempus-web.py:157-173 | times joined with a comma and a blank are accepted unchanged |
| ScheduleTimes.JoinedAgain | web/txtempus-web.py:157-173 | times joined with commas, and times as a list, are accepted unchanged |
| ScheduleTimes.CleanedAgain | web/txtempus-web.py:157-173 | cleaning is idempotent |
| ScheduleTimes.TimesKeyIsGood | web/txtempus-web.py:451 | the key of the schedule can be kept in a file |
| ScheduleTimes.TimesSurvive | web/txtempus-web.py:445-457 | times saved in the configuration come back as they were accepted, with any other updates and any file the update works for |

## Left out

- Time zones and `localtime_r`: any function to valid times with years from 1900 and seconds below 60; leap seconds and second 60 are not modelled.
- Wwvb.WwvbTimeSignalSource.PrepareMinute: requires a time from 1900 on, as years before have a negative `tm_year`; the program itself never asks for an earlier one.
- Sources.Source.PrepareMinute: the same for WWVB.
- Transmitter.Transmitter.SendTransitions: lists are not empty and have positive durations, the last perhaps zero; the interface gives other zeros no meaning.
- Option parsing, `-t` text, usage, station lookup by name, and printing: options are arguments. Negative `-r` values are outside the stated use, and so are `-z` values whose seconds overflow an `int`.
- RpiControl.RpiControl.StopClock: the busy flag is taken to clear at once and pauses take no time, because they depend on the hardware.
- ClockDivider.ChooseDivider: exact arithmetic instead of `double`, so a tie or a limit that only rounding decides is not covered.
- Register mapping, board detection, scheduling priority, memory locking and clock jitter: hardware and operating system.
- Transmitter.Transmitter.WaitUntil: the clock stands still between waits, so the time the program itself needs is not modelled.
- BpcSelfTest.ParseWidths: takes the text line by line, and digits are ASCII digits, the only ones a dry run prints; running the program is not modelled.
- Conf.Conf.UpdateConf: characters are Unicode scalar values, decoding errors are not modelled; nor are failures while the old file is read.
- Whether BPC's layout is the one really broadcast: the source calls it tentative, and only that layout is modelled.
- The Jetson backend, the HTTP server with its status cache, the user interface, shell scripts and system units.
