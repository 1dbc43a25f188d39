/**
 `main` in `src/txtempus.cc`: from the clock and the options to the end of the broadcast, and
 what a whole run has put on the air.
 */
module Txtempus {
  import opened Options
  import opened Words
  import opened Calendar
  import opened Signal
  import opened Sources
  import opened Waveform
  import opened Programs
  import opened Gpio
  import opened Transmitter
  import Bpc
  import BpcSelfTest
  import Broadcast
  import ClockDivider
  import RpiControl

  /** `TruncateTo`: the last multiple of d for the times of the system clock; negative times would be rounded up. */
  function TruncateTo(t: int, d: nat): (r: int)
    requires d > 0
    ensures 0 <= t ==> r == d * (t / d) && r <= t < r + d
    ensures t < 0 ==> r == -(d * (-t / d)) && r - d < t <= r
  {
    t - Remainder(t, d)
  }

  /** Conversion to a 32-bit `int`. */
  function ToInt32(x: int): (r: int)
    ensures -0x8000_0000 <= r < 0x8000_0000 && (x - r) % 0x1_0000_0000 == 0
  {
    var r := x % 0x1_0000_0000;
    if r >= 0x8000_0000 then r - 0x1_0000_0000 else r
  }

  /** The time for which the first minute is prepared. */
  function FirstMinute(now: int, chosen: Option<int>, zoneMinutes: int): int {
    now + ToInt32(ChosenTime(now, chosen, zoneMinutes) - now)
  }

  /** `chosen_time`, after options -t and -z. */
  function ChosenTime(now: int, chosen: Option<int>, zoneMinutes: int): int {
    (if chosen.Some? then chosen.value else now) + zoneMinutes * 60
  }

  /**
   The time for which the first minute is prepared, from the options: the time chosen, or else the present minute, and
   the zone offset. It is that time exactly if that lies within 2^31 seconds of the present, and otherwise a time that
   does and differs from it by a multiple of 2^32.
   */
  lemma ChosenIsSent(now: int, chosen: Option<int>, zoneMinutes: int)
    ensures var first := FirstMinute(now, chosen, zoneMinutes);
            var wanted := (if chosen.Some? then chosen.value else now) + 60 * zoneMinutes;
            && (first == wanted <==> -0x8000_0000 <= wanted - now < 0x8000_0000)
            && -0x8000_0000 <= first - now < 0x8000_0000 && (first - wanted) % 0x1_0000_0000 == 0
  {
  }

  /** The 32-bit offset never leads back before 1901. */
  lemma AlwaysCovered(station: Station, now: int, chosen: Option<int>, zoneMinutes: int)
    requires 0 <= now
    ensures Covers(station, FirstMinute(now, chosen, zoneMinutes))
  {
    NotBefore1901(now, chosen, zoneMinutes);
  }

  lemma StartedReady(pins: Pins)
    requires Mapped(pins)
    ensures ClockPinReady(ClockOutput(ClockOutput(pins, false), true))
  {
    RunSelects(pins, [], 4);
  }

  /** A run of `ttl` minutes that starts at `time` nanoseconds and needs `startup` nanoseconds to come to its loop. */
  method Run(hw: RpiControl.RpiControl, source: Source, time: nat, startup: nat,
             chosen: Option<int>, zoneMinutes: int, ttl: nat)
    returns (tx: Transmitter)
    requires hw.Valid() && source.Valid() && source.Store() !! {hw, hw.gpioPort, hw.clockReg}
    modifies hw`latch, hw.gpioPort, hw.clockReg, source.Store()
    ensures var now := TruncateTo(time / SECOND, 60);
            var first := FirstMinute(now, chosen, zoneMinutes);
            tx.source == source && tx.hw == hw
            && tx.Finished(Program(source.station, source.Zone(), first), now, first - now, ttl, time + startup)
    // unless the offset overflows, minute i is prepared for the time asked for plus i minutes
    ensures var now := time / 1_000_000_000 / 60 * 60;
            var wanted := (if chosen.Some? then chosen.value else now) + 60 * zoneMinutes;
            -0x8000_0000 <= wanted - now < 0x8000_0000 ==>
              forall i :: 0 <= i < |tx.prepared| ==> tx.prepared[i] == wanted + 60 * i
  {
    hide Transmitter.Finished, Source.Store, Source.Zone, Source.Valid, Covers, TruncateTo;
    FromTheClock(time, chosen, zoneMinutes);
    AlwaysCovered(source.station, TruncateTo(time / SECOND, 60), chosen, zoneMinutes);
    var now := TruncateTo(time / SECOND, 60);
    var chosenTime := now;
    if chosen.Some? {
      chosenTime := chosen.value;
    }
    chosenTime := chosenTime + zoneMinutes * 60;
    var timeOffset := ToInt32(chosenTime - now);
    FirstIs(now, chosen, zoneMinutes);
    hide FirstMinute, ToInt32;
    tx := Send(hw, source, now, timeOffset, ttl, time + startup);
    forall i | 0 <= i < |tx.prepared|
      ensures tx.prepared[i] == now + timeOffset + 60 * i
    {
      PreparedAt(tx, Program(source.station, source.Zone(), now + timeOffset), now, timeOffset, ttl, time + startup, i);
    }
  }

  /** The options in plain numbers. */
  lemma FromTheClock(time: nat, chosen: Option<int>, zoneMinutes: int)
    ensures var now := time / 1_000_000_000 / 60 * 60;
            var wanted := (if chosen.Some? then chosen.value else now) + 60 * zoneMinutes;
            && TruncateTo(time / SECOND, 60) == now <= time / SECOND
            && (-0x8000_0000 <= wanted - now < 0x8000_0000 ==> FirstMinute(now, chosen, zoneMinutes) == wanted)
  {
    ChosenIsSent(TruncateTo(time / SECOND, 60), chosen, zoneMinutes);
  }

  /** The carrier is started, and `ttl` minutes are sent. */
  method Send(hw: RpiControl.RpiControl, source: Source, now: int, timeOffset: int, ttl: nat, clock: int)
    returns (tx: Transmitter)
    requires hw.Valid() && source.Valid() && source.Store() !! {hw, hw.gpioPort, hw.clockReg}
    requires Covers(source.station, now + timeOffset) && now * SECOND <= clock
    modifies hw`latch, hw.gpioPort, hw.clockReg, source.Store()
    ensures tx.source == source && tx.hw == hw
    ensures tx.Finished(Program(source.station, source.Zone(), now + timeOffset), now, timeOffset, ttl, clock)
  {
    hide Transmitter.Finished, Transmitter.BetweenSeconds, Select, ClockPinReady, Carrier, RpiControl.Made;
    hide Source.Store, Source.Zone, Source.Valid, Covers;
    StartCarrier(hw, CarrierHz(source.station));
    tx := new Transmitter(hw, source, clock);
    tx.Transmit(now, timeOffset, ttl, Program(source.station, source.Zone(), now + timeOffset), clock);
  }

  /** Every carrier can be made, so the clock is on its pin afterwards. */
  method StartCarrier(hw: RpiControl.RpiControl, frequency: real)
    requires hw.Valid()
    requires frequency == 77500.0 || frequency == 60000.0 || frequency == 40000.0 || frequency == 68500.0
    modifies hw.gpioPort, hw`latch, hw.clockReg
    ensures ClockPinReady(hw.State())
    ensures var made := RpiControl.Made(hw.clockReg[..]);
            && made.Some? && frequency <= made.value < frequency + 0.03
            && (frequency == 60000.0 || frequency == 40000.0 ==> made.value == frequency)
  {
    hide RpiControl.ReadSetting, RpiControl.HasPassword, ClockDivider.Best, ClockOutput, ClockDivider.Admissible;
    hide ClockDivider.Tried;
    StartedReady(hw.State());
    hide RpiControl.Made;
    var f, best := hw.StartClock(frequency);
    ClockDivider.StationCarriers(frequency, best);
  }

  /** The dry run: one minute, a chart for every second, no hardware. */
  method DryRun(source: Source, time: nat, chosen: Option<int>, zoneMinutes: int) returns (charts: seq<string>)
    requires source.Valid()
    modifies source.Store()
    ensures var t := FirstMinute(TruncateTo(time / SECOND, 60), chosen, zoneMinutes);
            |charts| == 60
            && forall s :: 0 <= s < 60 ==> charts[s] == Chart(EnvelopeOf(source.station, source.Zone(), t, s))
    // unless the offset overflows, these are the charts of the time asked for
    ensures var now := time / 1_000_000_000 / 60 * 60;
            var wanted := (if chosen.Some? then chosen.value else now) + 60 * zoneMinutes;
            -0x8000_0000 <= wanted - now < 0x8000_0000 ==>
              forall s :: 0 <= s < 60 ==> charts[s] == Chart(EnvelopeOf(source.station, source.Zone(), wanted, s))
  {
    hide EnvelopeOf, Chart, Source.Store, Source.Valid, Source.Zone, Covers, FirstMinute, TruncateTo;
    FromTheClock(time, chosen, zoneMinutes);
    AlwaysCovered(source.station, TruncateTo(time / SECOND, 60), chosen, zoneMinutes);
    var now := TruncateTo(time / SECOND, 60);
    charts := DryRunMinute(source, FirstMinute(now, chosen, zoneMinutes));
  }

  method DryRunMinute(source: Source, transmitTime: int) returns (charts: seq<string>)
    requires source.Valid() && Covers(source.station, transmitTime)
    modifies source.Store()
    ensures |charts| == 60
    ensures forall s :: 0 <= s < 60 ==> charts[s] == Chart(EnvelopeOf(source.station, source.Zone(), transmitTime, s))
  {
    hide EnvelopeOf, Chart, Source.Valid, Source.Prepared, Covers;
    source.PrepareMinute(transmitTime);
    charts := [];
    for second := 0 to 60
      invariant source.Prepared(transmitTime)
      invariant |charts| == second
      invariant forall s :: 0 <= s < second ==>
                  charts[s] == Chart(EnvelopeOf(source.station, source.Zone(), transmitTime, s))
    {
      var chart := DryRunSecond(source, second, transmitTime);
      charts := charts + [chart];
    }
  }

  method DryRunSecond(source: Source, second: nat, ghost t: int) returns (chart: string)
    requires source.Valid() && second < 60 && Covers(source.station, t) && source.Prepared(t)
    ensures chart == Chart(EnvelopeOf(source.station, source.Zone(), t, second))
  {
    hide EnvelopeOf, Source.Valid, Source.Prepared, Chart, Total;
    EnvelopesPlayable(source.station, source.Zone(), t, second);
    var modulation := source.GetModulationForSecond(second, t);
    chart := PrintModulationChart(modulation);
  }

  /**
   The self-test from end to end: a dry run of BPC in UTC for a chosen time, printed, parsed and compared with the
   time that was chosen. `heading` is what is printed before the first second. It passes exactly if the time prepared
   looks like the one chosen, as it does unless the 32-bit offset overflows.
   */
  method SelfTest(source: Source, time: nat, chosen: int, heading: string) returns (ok: bool)
    requires source.Valid() && source.station == BPC && '[' !in heading
    requires forall t :: NINETEEN_HUNDRED <= t ==> source.Zone()(t) == Gmtime(t)
    requires 0 < chosen && chosen % 60 == 0
    modifies source.Store()
    ensures var first := FirstMinute(time / 1_000_000_000 / 60 * 60, Some(chosen), 0);
            && NINETEEN_HUNDRED <= first
            && (ok <==> LooksLike(first, chosen))
    ensures -0x8000_0000 <= chosen - time / 1_000_000_000 / 60 * 60 < 0x8000_0000 ==> ok
  {
    hide Source.Store, Source.Valid, TruncateTo, Gmtime, BpcSelfTest.Passes, BpcSelfTest.Printed, LooksLike;
    hide Chart, EnvelopeOf, FirstMinute, Covers, Valid, Source.Zone;
    ghost var zone := source.Zone();
    var now := TruncateTo(time / SECOND, 60);
    FromTheClock(time, Some(chosen), 0);
    NotBefore1901(now, Some(chosen), 0);
    ghost var t := FirstMinute(now, Some(chosen), 0);
    var charts := DryRun(source, time, Some(chosen), 0);
    ok := BpcSelfTest.Check(BpcSelfTest.Printed(heading, charts), Gmtime(chosen));
    ChartsDecide(zone, t, heading, charts, chosen);
  }

  /** The frames of a dry run of minute t in UTC look like the minute `chosen`. */
  predicate LooksLike(t: int, chosen: int)
    requires NINETEEN_HUNDRED <= t && NINETEEN_HUNDRED <= chosen
  {
    forall frame :: 0 <= frame < 3 ==> BpcSelfTest.SameFields(Gmtime(t + frame * 20), Gmtime(chosen))
  }

  lemma ChartsDecide(zone: Zone, t: int, heading: string, charts: seq<string>, chosen: int)
    requires NINETEEN_HUNDRED <= t && '[' !in heading && |charts| == 60
    requires NINETEEN_HUNDRED <= chosen && chosen % 60 == 0
    requires forall u :: NINETEEN_HUNDRED <= u ==> zone(u) == Gmtime(u)
    requires forall s :: 0 <= s < 60 ==> charts[s] == Chart(EnvelopeOf(BPC, zone, t, s))
    ensures BpcSelfTest.Passes(BpcSelfTest.Printed(heading, charts), Gmtime(chosen)) <==> LooksLike(t, chosen)
    ensures LooksLike(chosen, chosen)
  {
    hide Gmtime, BpcSelfTest.Passes, BpcSelfTest.Printed, Chart, EnvelopeOf, BpcSelfTest.SameFields, Valid;
    BpcCharts(zone, t);
    BpcSelfTest.PrintDecides(zone, t, heading, charts, Gmtime(chosen));
    BpcSelfTest.WholeMinuteAlike(chosen);
  }

  lemma NotBefore1901(now: int, chosen: Option<int>, zoneMinutes: int)
    requires 0 <= now
    ensures NINETEEN_HUNDRED <= FirstMinute(now, chosen, zoneMinutes)
  {
  }

  lemma BpcCharts(zone: Zone, t: int)
    ensures forall s :: 0 <= s < 60 ==> EnvelopeOf(BPC, zone, t, s) == Bpc.Envelope(Bpc.MinuteSymbol(zone, t, s))
  {
    hide Bpc.Envelope, Bpc.MinuteSymbol;
  }

  // ----- What a run has done -----

  /**
   A run of ttl minutes that no signal ended early: what was promised was on the air at every instant from its
   start up to the last deadline, and nothing after that, although the last second is not over yet.
   */
  lemma RunOnAir(tx: Transmitter, p: Program, now: int, timeOffset: int, ttl: nat, c0: int, T: int)
    requires tx.Finished(p, now, timeOffset, ttl, c0) && !tx.interrupted && ttl > 0
    requires now * SECOND <= c0 <= T < (now + 60 * ttl) * SECOND
    ensures var stop := Max(c0, LastDeadline(Envelopes(p), now * SECOND, 60 * ttl));
            && (InForce(tx.trace, T) == Promised(Envelopes(p), now * SECOND, T) <==> T < stop)
            && (T >= stop ==> InForce(tx.trace, T) == Off)
  {
    hide Promised, LastDeadline, RunTrace, Transmitter.Finished, Keeps;
    RunLeavesTrace(tx, p, now, timeOffset, ttl, c0);
    RunOfStation(p, now * SECOND, c0, 60 * ttl, T);
  }

  /** The switches of a run that no signal ended early. */
  lemma RunLeavesTrace(tx: Transmitter, p: Program, now: int, timeOffset: int, ttl: nat, c0: int)
    requires tx.Finished(p, now, timeOffset, ttl, c0) && !tx.interrupted && ttl > 0
    ensures Sane(p) && tx.trace == RunTrace(Envelopes(p), now * SECOND, c0, 60 * ttl)
  {
    hide Timed, Schedule, LastDeadline;
  }

  /**
   What a receiver hears of minute i of such a run; what it decodes follows for each station from the lemmas of
   `Broadcast`.
   */
  lemma RunIsHeard(tx: Transmitter, p: Program, now: int, timeOffset: int, ttl: nat, c0: int, i: nat)
    requires tx.Finished(p, now, timeOffset, ttl, c0) && !tx.interrupted && i < ttl
    requires Broadcast.Complete(now * SECOND, c0, i)
    ensures Sane(p) && Broadcast.Heard(tx.trace, (now + 60 * i) * SECOND)
            == Broadcast.MinuteHeard(p, now * SECOND, c0, ttl, i)
    ensures Broadcast.Arrives(Broadcast.Heard(tx.trace, (now + 60 * i) * SECOND), p.station, p.zone, p.first + 60 * i)
  {
    hide RunTrace, Transmitter.Finished, Broadcast.Arrives, Sane;
    RunLeavesTrace(tx, p, now, timeOffset, ttl, c0);
    Broadcast.MinuteArrives(p, now * SECOND, c0, ttl, i);
  }

  /** A run that a signal ended: from its start up to the signal the air was as promised at every instant. */
  lemma OnAirUpToSignal(tx: Transmitter, p: Program, now: int, timeOffset: int, ttl: nat, c0: int, T: int)
    requires tx.Finished(p, now, timeOffset, ttl, c0) && tx.interrupted
    requires now * SECOND <= c0 <= T < tx.signalAt
    ensures Sane(p) && Keeps(Envelopes(p)) && InForce(tx.trace, T) == Promised(Envelopes(p), now * SECOND, T)
  {
    hide Promised, InForce, Keeps, Timed, Schedule;
    var sent, n := Schedule(Envelopes(p), now * SECOND, tx.started), |tx.trace| - 1;
    assert tx.trace == tx.trace[..n] + [tx.trace[n]];
    BeforeSignal(tx.signalAt, tx.sentThen, c0, tx.trace[..n], sent, tx.trace[n], T);
    ScheduleOfStation(p, now * SECOND, c0, tx.started, T);
  }

  /** Every minute that was over when the signal came is heard whole. */
  lemma HeardUpToSignal(tx: Transmitter, p: Program, now: int, timeOffset: int, ttl: nat, c0: int, i: nat)
    requires tx.Finished(p, now, timeOffset, ttl, c0) && tx.interrupted
    requires Broadcast.Complete(now * SECOND, c0, i) && (now + 60 * (i + 1)) * SECOND <= tx.signalAt
    ensures Sane(p) && Broadcast.Arrives(Broadcast.Heard(tx.trace, (now + 60 * i) * SECOND), p.station, p.zone,
              p.first + 60 * i)
  {
    hide Transmitter.Finished, Promised, InForce, Keeps, Broadcast.Arrives;
    var base := now * SECOND;
    OnAirUpToSignal(tx, p, now, timeOffset, ttl, c0, base + 60 * i * SECOND);
    forall T | base + 60 * i * SECOND <= T < base + 60 * (i + 1) * SECOND
      ensures InForce(tx.trace, T) == Promised(Envelopes(p), base, T)
    {
      OnAirUpToSignal(tx, p, now, timeOffset, ttl, c0, T);
    }
    Broadcast.PromisedArrives(p, base, tx.trace, i);
  }

  /** The frequency that the clock manager made at each switch of a run before the last, which stops it. */
  lemma RunInTune(tx: Transmitter, p: Program, now: int, timeOffset: int, ttl: nat, c0: int, i: nat)
    requires tx.Finished(p, now, timeOffset, ttl, c0) && i < |tx.trace| - 1
    ensures |tx.tones| == |tx.trace| - 1 && tx.tones[i].Some?
    ensures var hz := tx.tones[i].value;
            match p.station
            case DCF77 => 77500.0 <= hz < 77500.03
            case WWVB => hz == 60000.0
            case JJY40 => hz == 40000.0
            case JJY60 => hz == 60000.0
            case MSF => hz == 60000.0
            case BPC => 68500.0 <= hz < 68500.03
  {
    hide Timed, Schedule, LastDeadline;
    assert Tuned(p.station, tx.tones[i]);
  }

  /** Whenever a signal came: the switches made are the first ones of the whole broadcast, followed by OFF. */
  lemma RunIsPrefix(tx: Transmitter, p: Program, now: int, timeOffset: int, ttl: nat, c0: int)
    requires tx.Finished(p, now, timeOffset, ttl, c0)
    ensures var full, n := Schedule(Envelopes(p), now * SECOND, 60 * ttl), |tx.trace| - 1;
            0 <= n <= |full| && tx.trace[n].power == Off
            && forall i :: 0 <= i < n ==> tx.trace[i].power == full[i].power
  {
    hide Timed, Schedule, LastDeadline;
    SchedulePrefix(Envelopes(p), now * SECOND, tx.started, 60 * ttl);
  }

  /**
   `PrepareMinute` is promised times divisible by 60. With a whole minute chosen it gets them just if the 32-bit
   offset wraps by a multiple of 15; it never wraps within 2^31 seconds of the present.
   */
  lemma PreparedAligned(now: int, chosen: Option<int>, zoneMinutes: int)
    requires now % 60 == 0 && (chosen.Some? ==> chosen.value % 60 == 0)
    ensures var wanted := (if chosen.Some? then chosen.value else now) + 60 * zoneMinutes;
            FirstMinute(now, chosen, zoneMinutes) % 60 == 0
            <==> (wanted - now + 0x8000_0000) / 0x1_0000_0000 % 15 == 0
  {
    hide FirstMinute;
    var t := ChosenTime(now, chosen, zoneMinutes);
    ChosenAligned(now, chosen, zoneMinutes);
    hide ChosenTime;
    Wraps(t - now);
    var q := (t - now + 0x8000_0000) / 0x1_0000_0000;
    assert FirstMinute(now, chosen, zoneMinutes) == t - q * 0x1_0000_0000 by {
      FirstIs(now, chosen, zoneMinutes);
    }
    AlignedAfter(t, q);
  }

  lemma FirstIs(now: int, chosen: Option<int>, zoneMinutes: int)
    ensures FirstMinute(now, chosen, zoneMinutes) == now + ToInt32(ChosenTime(now, chosen, zoneMinutes) - now)
  {
  }

  lemma ChosenAligned(now: int, chosen: Option<int>, zoneMinutes: int)
    requires now % 60 == 0 && (chosen.Some? ==> chosen.value % 60 == 0)
    ensures ChosenTime(now, chosen, zoneMinutes) % 60 == 0
    ensures ChosenTime(now, chosen, zoneMinutes) == (if chosen.Some? then chosen.value else now) + 60 * zoneMinutes
  {
  }

  lemma Wraps(x: int)
    ensures ToInt32(x) == x - (x + 0x8000_0000) / 0x1_0000_0000 * 0x1_0000_0000
  {
  }

  lemma AlignedAfter(t: int, q: int)
    requires t % 60 == 0
    ensures (t - q * 0x1_0000_0000) % 60 == 0 <==> q % 15 == 0
  {
    var m := t / 60;
    assert t - q * 0x1_0000_0000 == 60 * (m - q * 71_582_788) - 16 * q;
  }

  /** Every minute of a run is prepared for a time divisible by 60, or none is. */
  lemma AllPreparedAligned(tx: Transmitter, p: Program, now: int, chosen: Option<int>, zoneMinutes: int, ttl: nat,
          c0: int, i: nat)
    requires tx.Finished(p, now, FirstMinute(now, chosen, zoneMinutes) - now, ttl, c0) && i < |tx.prepared|
    requires now % 60 == 0 && (chosen.Some? ==> chosen.value % 60 == 0)
    ensures var wanted := (if chosen.Some? then chosen.value else now) + 60 * zoneMinutes;
            tx.prepared[i] % 60 == 0 <==> (wanted - now + 0x8000_0000) / 0x1_0000_0000 % 15 == 0
  {
    hide FirstMinute, Transmitter.Finished;
    PreparedAligned(now, chosen, zoneMinutes);
    PreparedAt(tx, p, now, FirstMinute(now, chosen, zoneMinutes) - now, ttl, c0, i);
    SameRemainder(FirstMinute(now, chosen, zoneMinutes), i);
  }

  lemma PreparedAt(tx: Transmitter, p: Program, now: int, timeOffset: int, ttl: nat, c0: int, i: nat)
    requires tx.Finished(p, now, timeOffset, ttl, c0) && i < |tx.prepared|
    ensures tx.prepared[i] == now + timeOffset + 60 * i
  {
    hide Transmitter.Ended;
  }

  lemma SameRemainder(x: int, i: nat)
    ensures (x + 60 * i) % 60 == x % 60
  {
  }

  /** New Year 2100, asked for in November 2024, is not sent, and what is sent is not even a whole minute. */
  lemma FarFuture(now: int)
    requires now == 1_732_000_020
    ensures now % 60 == 0 && FirstMinute(now, Some(4_102_444_800), 0) == -192_522_496
    ensures FirstMinute(now, Some(4_102_444_800), 0) % 60 == 44
  {
  }
}
