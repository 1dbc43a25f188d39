/**
 The transmit loop of `main` in `src/txtempus.cc`, on an ideal clock. A signal may arrive
 at any moment; it sets the interrupt flag and may cut a sleep short.
 */
module Transmitter {
  import opened Options
  import opened Signal
  import opened Sources
  import opened Waveform
  import opened Programs
  import opened Gpio
  import RpiControl

  /** `struct timespec` */
  datatype Timespec = Timespec(sec: int, nsec: int)

  function Nanos(ts: Timespec): int {
    ts.sec * SECOND + ts.nsec
  }

  predicate ValidTime(ts: Timespec) {
    0 <= ts.nsec < SECOND
  }

  /** Every deadline is a valid time. */
  predicate ValidTimes(waits: seq<Timespec>) {
    forall i :: 0 <= i < |waits| ==> ValidTime(waits[i])
  }

  /** No deadline lies before an earlier one. */
  predicate InOrder(waits: seq<Timespec>) {
    forall i, j :: 0 <= i < j < |waits| ==> Nanos(waits[i]) <= Nanos(waits[j])
  }

  /** The deadlines are in order and none lies after `limit`. */
  predicate WaitsUpTo(waits: seq<Timespec>, limit: int) {
    InOrder(waits) && (waits != [] ==> Nanos(waits[|waits| - 1]) <= limit)
  }

  // ----- What the pins put on the air -----

  /**
   The level that the pins produce: no clock on its pin is OFF; with the clock, the attenuation pin left open is
   HIGH and pulled down is LOW. Anything else, such as the attenuation pin driven high, is no level of the signal.
   */
  function Carrier(pins: Pins): Option<Power>
    requires Mapped(pins)
  {
    if Select(pins, 4) == 0 then Some(Off)
    else if Select(pins, 4) != 4 then None
    else if Select(pins, 17) == 0 then Some(High)
    else if Select(pins, 17) == 1 && !pins.latch[17] then Some(Low)
    else None
  }

  /** After a request the pins produce the level requested. */
  lemma CarrierFollows(pins: Pins, power: Power)
    requires Mapped(pins) && ClockPinReady(pins)
    ensures ClockPinReady(TxPower(pins, power)) && Carrier(TxPower(pins, power)) == Some(power)
  {
    hide TxPower, Select;
    TxPowerSelects(pins, power, 4);
    TxPowerSelects(pins, power, 17);
  }

  /**
   The frequency on the air is that of the station: exactly for 40 and 60 kHz, and otherwise too high by less than
   three hundredths of a hertz.
   */
  predicate Tuned(station: Station, hz: Option<real>) {
    && hz.Some?
    && match station
       case DCF77 => 77500.0 <= hz.value < 77500.03
       case WWVB => hz.value == 60000.0
       case JJY40 => hz.value == 40000.0
       case JJY60 => hz.value == 60000.0
       case MSF => hz.value == 60000.0
       case BPC => 68500.0 <= hz.value < 68500.03
  }

  // ----- What a signal may not spoil -----

  /** The first n switches came in time, and neither the others nor their due times lie before `at`. */
  predicate PunctualUntil(at: int, n: nat, c0: int, trace: seq<Event>, sent: seq<Event>) {
    && n <= |trace| == |sent|
    && trace[..n] == Timed(c0, sent)[..n]
    && (forall i :: n <= i < |trace| ==> at <= trace[i].at)
    && (forall i :: n <= i < |sent| ==> at <= Max(c0, sent[i].at))
  }

  /** Where the clock stands after m seconds. */
  function Reached(p: Program, base: int, m: nat): int
    requires Sane(p)
  {
    if m == 0 then base else LastDeadline(Envelopes(p), base, m)
  }

  class Transmitter {
    const hw: RpiControl.RpiControl
    const source: Source
    var clock: int
    var interrupted: bool
    ghost var trace: seq<Event>       // every switch of the carrier, with its time
    ghost var tones: seq<Option<real>>  // what the clock manager made at each of them
    ghost var waits: seq<Timespec>    // every deadline waited for
    ghost var prepared: seq<int>      // every time handed to PrepareMinute
    ghost var started: nat            // seconds whose transitions have begun
    ghost var sentThen: nat           // switches made when the signal arrived
    ghost var startedThen: nat        // seconds begun when the signal arrived
    ghost var signalAt: int           // the time of its arrival

    ghost predicate Valid()
      reads this, hw
    {
      && hw.Valid() && source.Valid()
      && source.Store() !! {this, hw, hw.gpioPort, hw.clockReg}
    }

    constructor (backend: RpiControl.RpiControl, station: Source, now: int)
      requires backend.Valid() && station.Valid() && station.Store() !! {backend, backend.gpioPort, backend.clockReg}
      ensures Valid() && hw == backend && source == station && clock == now && !interrupted
      ensures trace == [] && tones == [] && waits == [] && prepared == [] && started == 0
    {
      hw, source, clock, interrupted := backend, station, now, false;
      trace, tones, waits, prepared, started, sentThen, startedThen, signalAt := [], [], [], [], 0, 0, 0, 0;
    }

    /** The clock makes the station's frequency, and did at every switch. */
    ghost predicate InTune()
      requires hw.Valid()
      reads `trace, `tones, hw, hw.clockReg
    {
      && Tuned(source.station, RpiControl.Made(hw.clockReg[..]))
      && |tones| == |trace| && forall i :: 0 <= i < |tones| ==> Tuned(source.station, tones[i])
    }

    /** The switches so far are those of `sent`; up to the signal, if there was one, they came in time. */
    ghost predicate OnAir(c0: int, sent: seq<Event>)
      reads this, hw, hw.gpioPort, hw.clockReg
    {
      && Valid() && ClockPinReady(hw.State()) && InTune()
      && |trace| == |sent|
      && (forall i :: 0 <= i < |sent| ==> trace[i].power == sent[i].power)
      && (!interrupted ==> trace == Timed(c0, sent))
      && (interrupted ==> started == startedThen && signalAt <= clock)
      && (interrupted ==> PunctualUntil(signalAt, sentThen, c0, trace, sent))
      && (trace != [] ==> Carrier(hw.State()) == Some(trace[|trace| - 1].power))
    }

    /** The program is on time for something due at x; a signal, if there was one, did not come later. */
    ghost predicate Due(c0: int, x: int)
      reads this
    {
      if interrupted then signalAt <= Max(c0, x) else clock == Max(c0, x)
    }

    lemma OnAirValid(c0: int, sent: seq<Event>)
      requires OnAir(c0, sent)
      ensures Valid() && hw.Valid()
    {
    }

    /** `SIGTERM` or `SIGINT` may arrive here. */
    method Environment(ghost c0: int, ghost sent: seq<Event>)
      requires OnAir(c0, sent)
      modifies `interrupted, `sentThen, `startedThen, `signalAt
      ensures OnAir(c0, sent)
      ensures old(interrupted) ==> interrupted && signalAt == old(signalAt)
      ensures interrupted && !old(interrupted) ==> signalAt == clock
    {
      hide Carrier, Timed, PunctualUntil, Source.Valid, Source.Store, Select, Tuned, RpiControl.Made;
      var arrives := *;
      if arrives && !interrupted {
        PunctualNow(clock, c0, trace, sent);
        interrupted, sentThen, startedThen, signalAt := true, |trace|, started, clock;
      }
    }

    /** `clock_nanosleep` to an absolute time: returns at once for an invalid or past deadline, early on a signal. */
    method WaitUntil(ts: Timespec, ghost c0: int, ghost sent: seq<Event>)
      requires OnAir(c0, sent)
      modifies `clock, `waits, `interrupted, `sentThen, `startedThen, `signalAt
      ensures OnAir(c0, sent)
      ensures waits == old(waits) + [ts] && old(clock) <= clock
      ensures old(interrupted) ==> interrupted && signalAt == old(signalAt)
      ensures var wake := if ValidTime(ts) then Max(old(clock), Nanos(ts)) else old(clock);
              && (!interrupted ==> clock == wake)
              && (interrupted && !old(interrupted) ==> old(clock) <= signalAt <= wake)
    {
      hide Carrier, Timed, PunctualUntil, Source.Valid, Source.Store, Select, Tuned, RpiControl.Made;
      waits := waits + [ts];
      Environment(c0, sent);
      if ValidTime(ts) {
        var wake := Max(clock, Nanos(ts));
        var cutShort := *;
        if cutShort {
          var early: int := *;
          wake := if clock <= early <= wake then early else wake;
          if !interrupted {
            PunctualNow(wake, c0, trace, sent);
            interrupted, sentThen, startedThen, signalAt := true, |trace|, started, wake;
          }
        }
        clock := wake;
      }
      Environment(c0, sent);
    }

    /** Switches the power; `e` is the switch the schedule has next. */
    method SetTxPower(power: Power, ghost c0: int, ghost sent: seq<Event>, ghost e: Event)
      requires OnAir(c0, sent) && e.power == power && Due(c0, e.at)
      modifies `trace, `tones, hw`latch, hw.gpioPort
      ensures OnAir(c0, sent + [e]) && Due(c0, e.at)
      ensures tones == old(tones) + [RpiControl.Made(hw.clockReg[..])]
      ensures trace == old(trace) + [Event(clock, power)]
    {
      hide Carrier, Select, PunctualUntil, Tuned, RpiControl.Made;
      CarrierFollows(hw.State(), power);
      TimedSnoc(c0, sent, e);
      if interrupted {
        PunctualSnoc(signalAt, sentThen, c0, trace, sent, Event(clock, power), e);
      }
      hw.SetTxPower(power);
      trace, tones := trace + [Event(clock, power)], tones + [RpiControl.Made(hw.clockReg[..])];
    }

    /**
     The transitions of one second, the inner loop of `main`, for any list that keeps the contract. All deadlines
     are valid exactly if the list adds up to less than a second.
     */
    method SendTransitions(mod: Modulation, sec: int, ghost c0: int, ghost sent: seq<Event>)
      requires WellFormed(mod) && OnAir(c0, sent) && Due(c0, sec * SECOND)
      requires WaitsUpTo(waits, sec * SECOND)
      modifies `clock, `interrupted, `trace, `tones, `waits, `sentThen, `startedThen, `signalAt, hw`latch, hw.gpioPort
      ensures OnAir(c0, sent + Transitions(sec * SECOND, mod))
      ensures old(interrupted) ==> interrupted
      ensures Due(c0, sec * SECOND + Reach(mod, |mod|) * MS)
      ensures WaitsUpTo(waits, sec * SECOND + Total(mod) * MS)
      ensures ValidTimes(waits) <==> old(ValidTimes(waits)) && Total(mod) < 1000
    {
      hide OnAir, Total, WaitsUpTo, ValidTimes, WellFormed, Reach, Transitions, Valid;
      ghost var events := Transitions(sec * SECOND, mod);
      FirstReach(mod);
      assert sent + events[..0] == sent;
      var nsec := 0;
      var i := 0;
      while i < |mod|
        invariant 0 <= i <= |mod| && nsec == Total(mod[..i]) * MS && 0 <= nsec
        invariant OnAir(c0, sent + events[..i]) && Due(c0, sec * SECOND + Reach(mod, i) * MS)
        invariant old(interrupted) ==> interrupted
        invariant WaitsUpTo(waits, sec * SECOND + nsec)
        invariant ValidTimes(waits) <==> old(ValidTimes(waits)) && nsec < SECOND
      {
        var m := mod[i];
        NextReach(mod, i);
        NextSwitch(sent, sec * SECOND, mod, i);
        Environment(c0, sent + events[..i]);
        SetTxPower(m.power, c0, sent + events[..i], events[i]);
        if m.ms == 0 {
          i := |mod|;  // last one
          break;
        }
        nsec := nsec + m.ms * 1_000_000;
        WaitsSnoc(waits, sec * SECOND + Total(mod[..i]) * MS, Timespec(sec, nsec));
        WaitUntil(Timespec(sec, nsec), c0, sent + events[..i + 1]);
        i := i + 1;
      }
      assert events[..|mod|] == events && mod[..|mod|] == mod;
    }

    /** What holds once the broadcast that began at second `base` is over. */
    ghost predicate Ended(p: Program, base: int, c0: int)
      reads this, hw, hw.gpioPort, hw.clockReg
    {
      && Valid() && Sane(p) && p.station == source.station
      && var sent, n := Schedule(Envelopes(p), base * SECOND, started), |trace| - 1;
      // the switches made are those of the seconds begun, in order, and the last one is off
      && n == |sent| && (forall i :: 0 <= i < n ==> trace[i].power == sent[i].power) && trace[n].power == Off
      // without a signal every switch came in time
      && (!interrupted ==> trace == Timed(c0, sent) + [Event(Max(c0, Reached(p, base * SECOND, started)), Off)])
      // with one, everything before it did, no second began after it, and the second in progress was completed
      && (interrupted ==> started == startedThen && PunctualUntil(signalAt, sentThen, c0, trace[..n], sent)
                          && signalAt <= trace[n].at && signalAt <= Max(c0, (base + started) * SECOND))
      && ValidTimes(waits) && InOrder(waits)
      // the station's frequency was made at every switch before the last
      && |tones| == n && (forall i :: 0 <= i < n ==> Tuned(source.station, tones[i]))
      // the clock is killed and its pin an input
      && Select(hw.State(), 4) == 0 && RpiControl.Killed(hw.clockReg[..])
    }

    /** What a run of `ttl` minutes from second `now` on has done: all of them, unless a signal came. */
    ghost predicate Finished(p: Program, now: int, timeOffset: int, ttl: nat, c0: int)
      reads this, hw, hw.gpioPort, hw.clockReg
    {
      && Ended(p, now, c0)
      && started <= 60 * ttl && |prepared| <= ttl
      && (!interrupted ==> started == 60 * ttl && |prepared| == ttl)
      && forall i :: 0 <= i < |prepared| ==> prepared[i] == now + timeOffset + 60 * i
    }

    /** Everything that holds between two seconds of the broadcast `p` that began at second `base`. */
    ghost predicate BetweenSeconds(p: Program, base: int, c0: int)
      reads this, hw, hw.gpioPort, hw.clockReg
    {
      && Sane(p) && p.station == source.station && p.zone == source.Zone()
      && OnAir(c0, Schedule(Envelopes(p), base * SECOND, started))
      && (if interrupted then signalAt <= Max(c0, (base + started) * SECOND)
          else clock == Max(c0, Reached(p, base * SECOND, started)))
      && WaitsUpTo(waits, (base + started) * SECOND) && ValidTimes(waits)
    }

    /** A look at the interrupt flag between two seconds. */
    method Poll(ghost p: Program, ghost base: int, ghost c0: int)
      requires BetweenSeconds(p, base, c0)
      modifies `interrupted, `sentThen, `startedThen, `signalAt
      ensures BetweenSeconds(p, base, c0)
      ensures old(interrupted) ==> interrupted
    {
      hide OnAir, Schedule, WaitsUpTo, ValidTimes, Reached, Sane, Source.Zone, SecondMod, Transitions;
      SecondFollows(p, base * SECOND, started);
      Environment(c0, Schedule(Envelopes(p), base * SECOND, started));
    }

    /** A second is due: as between seconds, but the program has waited for its start. */
    ghost predicate SecondDue(p: Program, base: int, c0: int)
      reads this, hw, hw.gpioPort, hw.clockReg
    {
      && Sane(p) && p.station == source.station && p.zone == source.Zone()
      && OnAir(c0, Schedule(Envelopes(p), base * SECOND, started))
      && Due(c0, (base + started) * SECOND)
      && WaitsUpTo(waits, (base + started) * SECOND) && ValidTimes(waits)
    }

    /** Waiting for the start of the next second. */
    method AwaitSecond(sec: int, ghost p: Program, ghost base: int, ghost c0: int)
      requires BetweenSeconds(p, base, c0) && !interrupted && base + started == sec
      modifies `clock, `waits, `interrupted, `sentThen, `startedThen, `signalAt
      ensures SecondDue(p, base, c0)
      ensures interrupted ==> BetweenSeconds(p, base, c0)
    {
      hide OnAir, Schedule, WaitsUpTo, ValidTimes, Valid, Source.Zone, Reached, Sane, SecondMod, Transitions;
      SecondFollows(p, base * SECOND, started);
      WaitsSnoc(waits, (base + started) * SECOND, Timespec(sec, 0));
      WaitUntil(Timespec(sec, 0), c0, Schedule(Envelopes(p), base * SECOND, started));
    }

    /** One second of the inner loop: wait for it, look at the flag once more, send it. */
    method SendSecond(second: nat, minuteStart: int, ghost p: Program, ghost base: int, ghost c0: int)
      requires BetweenSeconds(p, base, c0) && second < 60 && !interrupted
      requires base + started == minuteStart + second && started % 60 == second
      requires source.Prepared(MinuteTime(p, started))
      modifies `clock, `interrupted, `trace, `tones, `waits, `sentThen, `startedThen, `signalAt, `started,
               hw`latch, hw.gpioPort
      ensures BetweenSeconds(p, base, c0)
      ensures started == old(started) + 1 || (started == old(started) && interrupted)
    {
      hide OnAir, Schedule, WaitsUpTo, ValidTimes, SecondMod, EnvelopeOf, Reached, Source.Prepared, Source.Valid;
      hide Source.Store, SecondDue;
      OnAirValid(c0, Schedule(Envelopes(p), base * SECOND, started));
      var modulation := source.GetModulationForSecond(second, MinuteTime(p, started));
      SecondIs(p, started);
      AwaitSecond(minuteStart + second, p, base, c0);
      hide BetweenSeconds;
      if interrupted {
        return;
      }
      PlaySecond(modulation, minuteStart + second, p, base, c0);
    }

    /** The second that is due goes on the air. */
    method PlaySecond(modulation: Modulation, sec: int, ghost p: Program, ghost base: int, ghost c0: int)
      requires SecondDue(p, base, c0) && !interrupted && base + started == sec && modulation == SecondMod(p, started)
      modifies `clock, `interrupted, `trace, `tones, `waits, `sentThen, `startedThen, `signalAt, `started,
               hw`latch, hw.gpioPort
      ensures BetweenSeconds(p, base, c0) && started == old(started) + 1
    {
      hide OnAir, Schedule, Transitions, WaitsUpTo, ValidTimes, SecondMod, WellFormed, Total, Reach, Valid, Source.Zone;
      ghost var sent := Schedule(Envelopes(p), base * SECOND, started);
      SecondFollows(p, base * SECOND, started);
      CountSecond(c0, sent);
      SendTransitions(modulation, sec, c0, sent);
      WaitsWithin(waits, sec * SECOND + Total(modulation) * MS, (base + started) * SECOND);
    }

    ghost method CountSecond(c0: int, sent: seq<Event>)
      requires OnAir(c0, sent) && !interrupted
      modifies `started
      ensures OnAir(c0, sent) && started == old(started) + 1
    {
      started := started + 1;
    }

    lemma BetweenValid(p: Program, base: int, c0: int)
      requires BetweenSeconds(p, base, c0)
      ensures Valid()
    {
      hide Schedule, WaitsUpTo, ValidTimes, Reached, Sane;
      OnAirValid(c0, Schedule(Envelopes(p), base * SECOND, started));
    }

    method Prepare(t: int, ghost p: Program, ghost base: int, ghost c0: int)
      requires BetweenSeconds(p, base, c0) && Covers(source.station, t)
      modifies source.Store(), `prepared
      ensures BetweenSeconds(p, base, c0) && source.Prepared(t)
      ensures prepared == old(prepared) + [t]
    {
      hide BetweenSeconds, Source.Prepared, Source.Store, Source.Valid, Covers;
      BetweenValid(p, base, c0);
      NotePrepared(t, p, base, c0);
      source.PrepareMinute(t);
    }

    ghost method NotePrepared(t: int, p: Program, base: int, c0: int)
      requires BetweenSeconds(p, base, c0)
      modifies `prepared
      ensures BetweenSeconds(p, base, c0) && prepared == old(prepared) + [t]
    {
      hide Schedule, WaitsUpTo, ValidTimes, Reached, Carrier, Timed, Source.Store, Source.Valid, Source.Zone, Sane;
      prepared := prepared + [t];
    }

    /** One minute: the inner loop over its seconds. */
    method SendMinute(minuteStart: int, ghost p: Program, ghost base: int, ghost c0: int)
      requires Valid() && Sane(p) && p.station == source.station
      requires BetweenSeconds(p, base, c0) && (!interrupted ==> base + started == minuteStart && started % 60 == 0)
      requires source.Prepared(MinuteTime(p, started)) || interrupted
      modifies `clock, `interrupted, `trace, `tones, `waits, `sentThen, `startedThen, `signalAt, `started,
               hw`latch, hw.gpioPort
      ensures BetweenSeconds(p, base, c0)
      ensures old(interrupted) ==> interrupted && started == old(started)
      ensures old(started) <= started <= old(started) + 60 && (!interrupted ==> started == old(started) + 60)
    {
      hide BetweenSeconds, Source.Prepared, Source.Valid, Sane;
      ghost var first := started;
      var second := 0;
      while second < 60 && !interrupted
        invariant 0 <= second <= 60
        invariant BetweenSeconds(p, base, c0)
        invariant old(interrupted) ==> interrupted && started == first
        invariant first <= started <= first + second && (!interrupted ==> started == first + second)
      {
        assert MinuteTime(p, started) == MinuteTime(p, first);
        SendSecond(second, minuteStart, p, base, c0);
        second := second + 1;
        Poll(p, base, c0);
      }
    }

    /** The whole broadcast: at most `ttl` minutes, then the carrier off. */
    method Transmit(now: int, timeOffset: int, ttl: nat, ghost p: Program, ghost c0: int)
      requires OnAir(c0, []) && trace == [] && waits == [] && prepared == [] && started == 0
      requires p == Program(source.station, source.Zone(), now + timeOffset) && Sane(p)
      requires c0 == clock && now * SECOND <= c0
      modifies this, hw`latch, hw.gpioPort, hw.clockReg, source.Store()
      ensures Finished(p, now, timeOffset, ttl, c0)
    {
      hide BetweenSeconds, OnAir, Schedule, WaitsUpTo, ValidTimes, Reached, Ended;
      OnAirValid(c0, []);
      Begin(p, now, c0);
      SendMinutes(now, timeOffset, ttl, p, c0);
      Finish(p, now, c0);
    }

    /** The outer loop: a minute at a time, as long as the countdown and the flag allow. */
    method SendMinutes(now: int, timeOffset: int, ttl: nat, ghost p: Program, ghost c0: int)
      requires Valid() && Sane(p) && p.station == source.station && p.first == now + timeOffset
      requires BetweenSeconds(p, now, c0) && prepared == [] && started == 0
      modifies `clock, `interrupted, `trace, `tones, `waits, `sentThen, `startedThen, `signalAt, `started, `prepared,
               hw`latch, hw.gpioPort, source.Store()
      ensures BetweenSeconds(p, now, c0)
      ensures started <= 60 * ttl && |prepared| <= ttl && (!interrupted ==> started == 60 * ttl && |prepared| == ttl)
      ensures forall i :: 0 <= i < |prepared| ==> prepared[i] == now + timeOffset + 60 * i
    {
      hide BetweenSeconds, Source.Prepared, Source.Valid;
      var left := ttl;
      var minuteStart := now;
      Poll(p, now, c0);
      while !interrupted && left > 0
        invariant 0 <= left <= ttl && minuteStart == now + 60 * (ttl - left)
        invariant BetweenSeconds(p, now, c0)
        invariant started <= 60 * (ttl - left) && (!interrupted ==> started == 60 * (ttl - left))
        invariant |prepared| == ttl - left
        invariant forall i :: 0 <= i < |prepared| ==> prepared[i] == now + timeOffset + 60 * i
      {
        left := left - 1;
        var transmitTime := minuteStart + timeOffset;
        assert transmitTime == MinuteTime(p, started);
        Prepare(transmitTime, p, now, c0);
        Poll(p, now, c0);
        SendMinute(minuteStart, p, now, c0);
        minuteStart := minuteStart + 60;
        Poll(p, now, c0);
      }
    }

    lemma Begin(p: Program, base: int, c0: int)
      requires OnAir(c0, []) && waits == [] && started == 0
      requires Sane(p) && p.station == source.station && p.zone == source.Zone()
      requires c0 == clock && base * SECOND <= c0
      ensures BetweenSeconds(p, base, c0) && Schedule(Envelopes(p), base * SECOND, 0) == []
    {
    }

    /** The switches and waits between two seconds, whatever the pins are. */
    ghost predicate Recorded(p: Program, base: int, c0: int)
      reads this
    {
      && Sane(p) && p.station == source.station
      && var sent := Schedule(Envelopes(p), base * SECOND, started);
      && |tones| == |trace| && (forall i :: 0 <= i < |tones| ==> Tuned(source.station, tones[i]))
      && |trace| == |sent| && (forall i :: 0 <= i < |sent| ==> trace[i].power == sent[i].power)
      && (!interrupted ==> trace == Timed(c0, sent) && clock == Max(c0, Reached(p, base * SECOND, started)))
      && (interrupted ==> started == startedThen && PunctualUntil(signalAt, sentThen, c0, trace, sent)
                          && signalAt <= clock && signalAt <= Max(c0, (base + started) * SECOND))
      && ValidTimes(waits) && InOrder(waits)
    }

    lemma RecordedNow(p: Program, base: int, c0: int)
      requires BetweenSeconds(p, base, c0)
      ensures Recorded(p, base, c0) && Valid()
    {
      hide Schedule, Reached, ValidTimes, InOrder, Timed, Carrier, PunctualUntil, Source.Zone, Sane, Valid;
      hide ClockPinReady;
      WaitsInOrder(waits, (base + started) * SECOND);
    }

    /** `StopClock`, and nothing after it. */
    method Finish(ghost p: Program, ghost base: int, ghost c0: int)
      requires BetweenSeconds(p, base, c0)
      modifies `trace, hw`latch, hw.gpioPort, hw.clockReg
      ensures Ended(p, base, c0)
    {
      hide BetweenSeconds, Recorded, Select, ClockOutput;
      RecordedNow(p, base, c0);
      StopSelects(hw.State());
      hw.StopClock();
      NoteStop(p, base, c0);
    }

    ghost method NoteStop(p: Program, base: int, c0: int)
      requires Recorded(p, base, c0) && Valid()
      requires Select(hw.State(), 4) == 0 && RpiControl.Killed(hw.clockReg[..])
      modifies `trace
      ensures Ended(p, base, c0)
    {
      hide Select, Schedule, Reached, ValidTimes, InOrder, Timed, PunctualUntil, Sane, Source.Valid, Source.Store;
      ghost var made := trace;
      trace := trace + [Event(clock, Off)];
      assert trace[..|trace| - 1] == made;
    }
  }

  lemma StopSelects(pins: Pins)
    requires Mapped(pins)
    ensures Select(ClockOutput(pins, false), 4) == 0
  {
    hide Select;
    InpSelects(pins, 4, 4);
  }

  // ----- What a second sent puts on the air -----

  /**
   After a second that no signal disturbed, and however late the program was: the power that has been in force is
   the one its list prescribes, except exactly where the list is hurried.
   */
  lemma SecondOnAir(tx: Transmitter, mod: Modulation, sec: int, c0: int, sent: seq<Event>, T: int)
    requires WellFormed(mod) && tx.OnAir(c0, sent + Transitions(sec * SECOND, mod)) && !tx.interrupted
    requires c0 <= T && sec * SECOND <= T < (sec + 1) * SECOND
    ensures InForce(tx.trace, T) == LevelAt(mod, T - sec * SECOND) <==> !Misses(mod, T - sec * SECOND)
  {
    hide Timed, Transitions, InForce, LevelAt, Misses, WellFormed, Carrier, Select;
    TimedConcat(c0, sent, Transitions(sec * SECOND, mod));
    SecondRefines(c0, Timed(c0, sent), sec * SECOND, mod, T);
  }

  /** Symbol j of the chart is true of what the transmitter has sent in the second. */
  ghost predicate ChartAgrees(tx: Transmitter, mod: Modulation, sec: int, j: nat)
    requires j < 10
    reads tx
  {
    Chart(mod)[j] == '#' <==> InForce(tx.trace, sec * SECOND + j * 100 * MS) == High
  }

  /**
   The chart of such a second, if it began on time, is true exactly unless a hurried switch shows at one of its
   samples.
   */
  lemma ChartOnAir(tx: Transmitter, mod: Modulation, sec: int, c0: int, sent: seq<Event>)
    requires WellFormed(mod) && tx.OnAir(c0, sent + Transitions(sec * SECOND, mod)) && !tx.interrupted
    requires c0 <= sec * SECOND
    ensures (forall j :: 0 <= j < 10 ==> ChartAgrees(tx, mod, sec, j))
            <==> !(ChartDiffers(mod) && mod[|mod| - 2].ms >= 100)
  {
    hide Timed, Transitions, InForce, Chart, ChartDiffers, WellFormed, Carrier, Select;
    TimedConcat(c0, sent, Transitions(sec * SECOND, mod));
    ChartShowsSignal(c0, Timed(c0, sent), sec * SECOND, mod);
    forall j | 0 <= j < 10
      ensures ChartAgrees(tx, mod, sec, j) <==> SymbolTrue(c0, Timed(c0, sent), sec * SECOND, mod, j)
    {
    }
  }

  /** Before the signal it makes no difference what was made of the switches after it. */
  lemma BeforeSignal(at: int, n: nat, c0: int, trace: seq<Event>, sent: seq<Event>, last: Event, T: int)
    requires PunctualUntil(at, n, c0, trace, sent) && T < at <= last.at
    ensures InForce(trace + [last], T) == InForce(Timed(c0, sent), T)
  {
    hide InForce;
    var due := Timed(c0, sent);
    assert trace + [last] == trace[..n] + (trace[n..] + [last]);
    SuffixLater(trace[..n], trace[n..] + [last], T);
    assert due == due[..n] + due[n..];
    SuffixLater(due[..n], due[n..], T);
  }

  // ----- Lemmas for the loops -----

  lemma WaitsWithin(waits: seq<Timespec>, limit: int, later: int)
    requires WaitsUpTo(waits, limit) && limit <= later
    ensures WaitsUpTo(waits, later)
  {
  }

  lemma WaitsInOrder(waits: seq<Timespec>, limit: int)
    requires WaitsUpTo(waits, limit)
    ensures InOrder(waits)
  {
  }

  lemma SecondFollows(p: Program, base: int, k: nat)
    requires Sane(p)
    ensures Reached(p, base, k) <= base + k * SECOND <= Reached(p, base, k + 1) < base + (k + 1) * SECOND
    ensures Schedule(Envelopes(p), base, k + 1)
            == Schedule(Envelopes(p), base, k) + Transitions(base + k * SECOND, SecondMod(p, k))
  {
    hide SecondMod, Transitions, Reach;
    ReachEnd(SecondMod(p, k));
    if k > 0 {
      ReachEnd(SecondMod(p, k - 1));
    }
  }

  lemma FirstReach(mod: Modulation)
    ensures Total(mod[..0]) == 0 && Reach(mod, 0) == 0
  {
    EmptyTotal();
  }

  /** One turn of the loop. */
  lemma NextReach(mod: Modulation, i: nat)
    requires WellFormed(mod) && i < |mod|
    ensures Total(mod[..i + 1]) == Total(mod[..i]) + mod[i].ms && 0 <= Total(mod[..i]) && Total(mod[..i + 1]) <= 1000
    ensures mod[i].ms >= 0 && (mod[i].ms == 0 ==> i == |mod| - 1 && Reach(mod, i + 1) == Reach(mod, i))
    ensures Reach(mod, i) <= Reach(mod, i + 1)
    ensures Reach(mod, i + 1) == (if Total(mod[..i + 1]) < 1000 then Total(mod[..i + 1]) else Reach(mod, i))
  {
    hide Total;
    TotalSnoc(mod, i);
    TotalNonNegative(mod, i);
    TotalsGrow(mod, i + 1, |mod|);
    assert mod[..|mod|] == mod;
    ReachIs(mod, i);
    if i == |mod| - 1 {
      ReachEnd(mod);
    } else {
      ReachIs(mod, i + 1);
    }
    if 1000 <= Total(mod[..i]) {
      FullPrefix(mod, i);
    }
  }

  lemma NextSwitch(sent: seq<Event>, start: int, mod: Modulation, i: nat)
    requires i < |mod|
    ensures var events := Transitions(start, mod);
            && events[i] == Event(start + Reach(mod, i) * MS, mod[i].power)
            && sent + events[..i + 1] == sent + events[..i] + [events[i]]
  {
    hide Reach;
  }

  lemma WaitsSnoc(waits: seq<Timespec>, limit: int, ts: Timespec)
    requires WaitsUpTo(waits, limit) && limit <= Nanos(ts)
    ensures WaitsUpTo(waits + [ts], Nanos(ts))
    ensures ValidTimes(waits + [ts]) <==> ValidTimes(waits) && ValidTime(ts)
  {
    var longer := waits + [ts];
    assert longer[|waits|] == ts;
    assert forall i :: 0 <= i < |waits| ==> longer[i] == waits[i];
  }

  lemma PunctualNow(at: int, c0: int, trace: seq<Event>, sent: seq<Event>)
    requires trace == Timed(c0, sent)
    ensures PunctualUntil(at, |trace|, c0, trace, sent)
  {
    hide Timed;
  }

  lemma PunctualSnoc(at: int, n: nat, c0: int, trace: seq<Event>, sent: seq<Event>, done: Event, e: Event)
    requires PunctualUntil(at, n, c0, trace, sent) && at <= done.at && at <= Max(c0, e.at)
    ensures PunctualUntil(at, n, c0, trace + [done], sent + [e])
  {
    hide Timed;
    TimedSnoc(c0, sent, e);
    var trace', sent' := trace + [done], sent + [e];
    assert trace'[..n] == trace[..n];
    assert Timed(c0, sent')[..n] == Timed(c0, sent)[..n];
    assert forall i :: n <= i < |trace| ==> trace'[i] == trace[i] && sent'[i] == sent[i];
  }

  lemma TimedSnoc(c0: int, sent: seq<Event>, e: Event)
    ensures Timed(c0, sent + [e]) == Timed(c0, sent) + [Event(Max(c0, e.at), e.power)]
  {
  }
}
