/**
 Whole broadcasts, received: what a receiver makes of each minute of a complete run. A receiver
 listens to the air, that is, to the power in force; it knows when minutes begin.
 */
module Broadcast {
  import opened Options
  import opened Calendar
  import opened Signal
  import opened Markers
  import opened Sources
  import opened Waveform
  import opened Programs
  import Dcf77
  import Wwvb
  import Jjy
  import Msf
  import Bpc
  import BpcSelfTest

  /** The minute that begins at `start`, as it is on the air: seconds and milliseconds, in nanoseconds. */
  function Heard(trace: seq<Event>, start: int): Reception {
    (s, ms) => InForce(trace, start + s * 1_000_000_000 + ms * 1_000_000)
  }

  /**
   What arrives of the minute prepared for time t: the level of the envelope at every millisecond, except that
   the carrier may already be off after the last deadline of second 59.
   */
  ghost predicate Arrives(rx: Reception, station: Station, zone: Zone, t: int)
    requires Covers(station, t)
  {
    forall s, ms :: 0 <= s < 60 && 0 <= ms < 1000 ==>
      rx(s, ms) == LevelOf(station, zone, t, s, ms)
        || (s == 59 && EnvelopeLength(station, zone, t) <= ms && rx(s, ms) == Off)
  }

  function LevelOf(station: Station, zone: Zone, t: int, s: nat, ms: nat): Power
    requires Covers(station, t) && s < 60
  {
    EnvelopesPlayable(station, zone, t, s);
    LevelAt(EnvelopeOf(station, zone, t, s), ms * MS)
  }

  /** How much of second 59 its explicit durations cover. */
  function EnvelopeLength(station: Station, zone: Zone, t: int): int
    requires Covers(station, t)
  {
    Total(EnvelopeOf(station, zone, t, 59))
  }

  /**
   In a run of n minutes, minute i arrives as prepared for first + 60 i, provided the program was running when it
   began.
   */
  lemma MinuteArrives(p: Program, base: int, c0: int, n: nat, i: nat)
    requires Sane(p) && i < n && base <= c0 <= base + 60 * i * SECOND
    ensures Arrives(Heard(RunTrace(Envelopes(p), base, c0, 60 * n), base + 60 * i * SECOND), p.station, p.zone,
              p.first + 60 * i)
  {
    hide EnvelopeOf, LevelAt, InForce, Timed, Schedule, LastDeadline, RunTrace, LevelOf, EnvelopeLength, Sane;
    MinuteCovered(p, i);
    var rx := Heard(RunTrace(Envelopes(p), base, c0, 60 * n), base + 60 * i * SECOND);
    forall s, ms | 0 <= s < 60 && 0 <= ms < 1000
      ensures rx(s, ms) == LevelOf(p.station, p.zone, p.first + 60 * i, s, ms)
           || (s == 59 && EnvelopeLength(p.station, p.zone, p.first + 60 * i) <= ms && rx(s, ms) == Off)
    {
      MomentArrives(p, base, c0, n, i, s, ms);
    }
  }

  lemma MinuteCovered(p: Program, i: nat)
    requires Sane(p)
    ensures Covers(p.station, p.first + 60 * i)
  {
  }

  /** A minute during all of which the air was as promised arrives as prepared. */
  lemma PromisedArrives(p: Program, base: int, trace: seq<Event>, i: nat)
    requires Sane(p) && Keeps(Envelopes(p))
    requires forall T :: base + 60 * i * SECOND <= T < base + 60 * (i + 1) * SECOND ==>
               InForce(trace, T) == Promised(Envelopes(p), base, T)
    ensures Arrives(Heard(trace, base + 60 * i * SECOND), p.station, p.zone, p.first + 60 * i)
  {
    hide EnvelopeOf, LevelAt, InForce, LevelOf, EnvelopeLength, Sane, Promised, Keeps;
    MinuteCovered(p, i);
    var rx := Heard(trace, base + 60 * i * SECOND);
    forall s, ms | 0 <= s < 60 && 0 <= ms < 1000
      ensures rx(s, ms) == LevelOf(p.station, p.zone, p.first + 60 * i, s, ms)
    {
      PromisedIs(p, base, i, s, ms);
      assert rx(s, ms) == InForce(trace, base + (60 * i + s) * SECOND + ms * MS);
    }
  }

  /**
   In a run of n minutes, second k is on the air as its envelope prescribes, if the program was running when it
   began; only the last one is cut off at the end of its explicit durations.
   */
  lemma MomentInRun(p: Program, base: int, c0: int, n: nat, k: nat, ms: nat)
    requires Sane(p) && k < 60 * n && base <= c0 <= base + k * SECOND && ms < 1000
    ensures var level := InForce(RunTrace(Envelopes(p), base, c0, 60 * n), base + k * SECOND + ms * MS);
            if k == 60 * n - 1 && Total(SecondMod(p, k)) <= ms then level == Off
            else level == LevelAt(SecondMod(p, k), ms * MS)
  {
    hide SecondMod, LevelAt, RunTrace, InForce, Total;
    var T := base + k * SECOND + ms * MS;
    assert (T - base) / SECOND == k && (T - base) % SECOND == ms * MS;
    RunOfStation(p, base, c0, 60 * n, T);
    LateEnough(p, base, 60 * n, k, ms);
  }

  lemma MomentArrives(p: Program, base: int, c0: int, n: nat, i: nat, s: nat, ms: nat)
    requires Sane(p) && i < n && base <= c0 <= base + 60 * i * SECOND && s < 60 && ms < 1000
    requires Covers(p.station, p.first + 60 * i)
    ensures var level := InForce(RunTrace(Envelopes(p), base, c0, 60 * n),
              base + 60 * i * SECOND + s * SECOND + ms * MS);
            if 60 * i + s == 60 * n - 1 && EnvelopeLength(p.station, p.zone, p.first + 60 * i) <= ms then level == Off
            else level == LevelOf(p.station, p.zone, p.first + 60 * i, s, ms)
  {
    hide EnvelopeOf, LevelAt, RunTrace, InForce, Covers, Total;
    SplitSecond(i, s);
    MomentInRun(p, base, c0, n, 60 * i + s, ms);
  }

  lemma PromisedIs(p: Program, base: int, i: nat, s: nat, ms: nat)
    requires Sane(p) && s < 60 && ms < 1000 && Covers(p.station, p.first + 60 * i)
    ensures Promised(Envelopes(p), base, base + (60 * i + s) * SECOND + ms * MS)
            == LevelOf(p.station, p.zone, p.first + 60 * i, s, ms)
  {
    hide EnvelopeOf, LevelAt, Covers;
    SplitSecond(i, s);
    var T := base + (60 * i + s) * SECOND + ms * MS;
    assert (T - base) / SECOND == 60 * i + s && (T - base) % SECOND == ms * MS;
  }

  /** The last deadline is still to come just before the last second and within its explicit durations. */
  lemma LateEnough(p: Program, base: int, m: nat, k: nat, ms: nat)
    requires Sane(p) && k < m && ms < 1000
    ensures base + k * SECOND + ms * MS < LastDeadline(Envelopes(p), base, m)
            <==> !(k == m - 1 && Total(SecondMod(p, k)) <= ms)
    ensures base + (m - 1) * SECOND <= LastDeadline(Envelopes(p), base, m)
  {
    hide SecondMod;
    var mod := SecondMod(p, m - 1);
    assert mod[..|mod|] == mod;
    TotalNonNegative(mod, |mod|);
  }

  // ----- What the receivers of each station make of a minute -----

  lemma Dcf77Hears(rx: Reception, zone: Zone, t: int)
    requires Arrives(rx, DCF77, zone, t)
    ensures Dcf77.Says(Dcf77.Received(rx), zone(t + 60))
  {
    hide Dcf77.Encode, Dcf77.Envelope, Dcf77.Received, Dcf77.Says, LevelAt;
    var frame := Dcf77.Frame(Dcf77.Encode(zone(t + 60)));
    forall s, ms | 0 <= s < 59 && 0 <= ms < 1000
      ensures rx(s, ms) == LevelAt(frame[s], ms * MS)
    {
      assert rx(s, ms) == LevelOf(DCF77, zone, t, s, ms);
    }
    Dcf77.RoundTrip(zone(t + 60), rx);
  }

  lemma WwvbHears(rx: Reception, zone: Zone, t: int)
    requires NINETEEN_HUNDRED <= t && t % 60 == 0 && Arrives(rx, WWVB, zone, t)
    ensures Wwvb.Says(PulseBits(rx, Low), zone, t)
  {
    hide Wwvb.MinuteWord, Pulse, PulseBits, Wwvb.Says, LevelAt;
    var frame := PulseFrame(Wwvb.CODE, Wwvb.MinuteWord(zone, t));
    forall s, ms | 0 <= s < 59 && 0 <= ms < 1000
      ensures rx(s, ms) == LevelAt(frame[s], ms * MS)
    {
      assert rx(s, ms) == LevelOf(WWVB, zone, t, s, ms);
    }
    LastOfWwvb(zone, t);
    assert rx(59, 350) == LevelOf(WWVB, zone, t, 59, 350) && rx(59, 650) == LevelOf(WWVB, zone, t, 59, 650);
    Wwvb.InvertsTime(zone, t, rx);
  }

  /** The last second of a WWVB minute is a marker: reduced for 800 ms. */
  lemma LastOfWwvb(zone: Zone, t: int)
    requires NINETEEN_HUNDRED <= t
    ensures EnvelopeLength(WWVB, zone, t) == 800
    ensures LevelOf(WWVB, zone, t, 59, 350) == Low && LevelOf(WWVB, zone, t, 59, 650) == Low
  {
    hide Wwvb.MinuteWord;
    TwoStepsWellFormed(Low, 800, High);
    TwoLevels(Low, 800, High, 350);
    TwoLevels(Low, 800, High, 650);
  }

  lemma JjyHears(rx: Reception, station: Station, zone: Zone, t: int)
    requires station == JJY40 || station == JJY60
    requires Arrives(rx, station, zone, t)
    ensures Jjy.Says(PulseBits(rx, High), zone(t))
  {
    hide Jjy.Encode, Pulse, PulseBits, Jjy.Says, LevelAt;
    var frame := PulseFrame(Jjy.CODE, Jjy.Encode(zone(t)));
    forall s, ms | 0 <= s < 59 && 0 <= ms < 1000
      ensures rx(s, ms) == LevelAt(frame[s], ms * MS)
    {
      assert rx(s, ms) == LevelOf(station, zone, t, s, ms);
    }
    LastOfJjy(station, zone, t);
    assert rx(59, 350) == LevelOf(station, zone, t, 59, 350) || rx(59, 350) == Off;
    Jjy.RoundTrip(zone(t), rx);
  }

  /** The last second of a JJY minute is a marker: up for 200 ms. */
  lemma LastOfJjy(station: Station, zone: Zone, t: int)
    requires station == JJY40 || station == JJY60
    ensures LevelOf(station, zone, t, 59, 350) == Low
  {
    hide Jjy.Encode;
    TwoLevels(High, 200, Low, 350);
  }

  lemma MsfHears(rx: Reception, zone: Zone, t: int)
    requires Arrives(rx, MSF, zone, t)
    ensures Msf.Says(Msf.ReceivedA(rx), Msf.ReceivedB(rx), zone(t + 60))
  {
    hide Msf.EncodeA, Msf.EncodeB, Msf.Envelope, Msf.ReceivedA, Msf.ReceivedB, Msf.Says, LevelAt;
    var a, b := MsfA(zone, t), MsfB(zone, t);
    var frame := Msf.Frame(a, b);
    forall s, ms | 1 <= s < 59 && 0 <= ms < 1000
      ensures rx(s, ms) == LevelAt(frame[s], ms * MS)
    {
      assert rx(s, ms) == LevelOf(MSF, zone, t, s, ms);
    }
    LastOfMsf(zone, t);
    assert rx(59, 150) == LevelOf(MSF, zone, t, 59, 150) && rx(59, 250) == LevelOf(MSF, zone, t, 59, 250);
    Msf.RoundTrip(zone(t + 60), rx);
  }

  /** Every MSF second after the first is laid out explicitly for 300 ms. */
  lemma LastOfMsf(zone: Zone, t: int)
    ensures EnvelopeLength(MSF, zone, t) == 300
  {
    hide MsfA, MsfB;
    FourSteps(EnvelopeOf(MSF, zone, t, 59));
  }

  // ----- BPC on the air -----

  /** A receiver's chart of a second: at full power or not, sampled every 100 ms. */
  function ReceivedChart(rx: Reception, s: nat): (chart: string)
    ensures |chart| == 10
  {
    seq(10, k => if rx(s, 100 * k) == High then '#' else '_')
  }

  /** The leading reduction of each second of a minute, in 100 ms. */
  function ReceivedWidths(rx: Reception): (widths: seq<Option<nat>>)
    ensures |widths| == 60
  {
    seq(60, s requires 0 <= s < 60 => Some(BpcSelfTest.Lead(ReceivedChart(rx, s))))
  }

  /** What a receiver makes of a frame. */
  function ReceivedFrame(rx: Reception, frame: nat): (ws: seq<Option<nat>>)
    requires frame < 3
    ensures |ws| == 20
  {
    BpcSelfTest.FrameWidths(ReceivedWidths(rx), frame)
  }

  ghost predicate SecondArrives(rx: Reception, zone: Zone, t: int, s: nat)
    requires s < 60
  {
    forall ms: nat :: ms < 1000 ==> rx(s, ms) == LevelOf(BPC, zone, t, s, ms)
  }

  ghost predicate FrameArrives(rx: Reception, zone: Zone, t: int, frame: nat)
    requires frame < 3
  {
    forall s :: 20 * frame <= s < 20 * frame + 20 ==> SecondArrives(rx, zone, t, s)
  }

  /** A frame that arrives is readable and says its time; it takes no other second. */
  lemma BpcHears(rx: Reception, zone: Zone, t: int, frame: nat)
    requires frame < 3 && FrameArrives(rx, zone, t, frame)
    ensures var ws := ReceivedFrame(rx, frame);
            && BpcSelfTest.Readable(ws)
            && BpcSelfTest.Says(BpcSelfTest.Gathered(ws, 19), frame, zone(t + frame * 20))
  {
    hide Bpc.MinuteSymbol, Bpc.Envelope, BpcSelfTest.Says, BpcSelfTest.Readable, BpcSelfTest.Gathered;
    hide BpcSelfTest.Lead, SecondArrives, ReceivedChart, Chart;
    var ws := ReceivedFrame(rx, frame);
    forall p | 0 <= p < 20
      ensures ws[p] == Some(BpcSelfTest.ExpectedWidth(zone, t, 20 * frame + p))
    {
      var s := 20 * frame + p;
      BpcSecond(rx, zone, t, s);
      Bpc.MinuteSymbolRange(zone, t, s);
      BpcSelfTest.LeadOfSymbol(Bpc.MinuteSymbol(zone, t, s));
    }
    BpcSelfTest.FrameAgrees(ws, zone, t, frame);
  }

  /** The chart received is the chart of the symbol sent. */
  lemma BpcSecond(rx: Reception, zone: Zone, t: int, s: nat)
    requires s < 60 && SecondArrives(rx, zone, t, s)
    ensures ReceivedChart(rx, s) == Chart(Bpc.Envelope(Bpc.MinuteSymbol(zone, t, s)))
  {
    hide Bpc.MinuteSymbol, LevelAt;
    var symbol := Bpc.MinuteSymbol(zone, t, s);
    forall k | 0 <= k < 10
      ensures ReceivedChart(rx, s)[k] == Chart(Bpc.Envelope(symbol))[k]
    {
      assert rx(s, 100 * k) == LevelOf(BPC, zone, t, s, 100 * k);
    }
  }

  /** A pulse cut off at its end, with nothing after it, is no symbol, and no frame that ends with it can be read. */
  lemma CutSecond(rx: Reception)
    requires forall k :: 0 <= k < 10 ==> rx(59, 100 * k) != High
    ensures !BpcSelfTest.Readable(ReceivedFrame(rx, 2))
  {
    BpcSelfTest.LeadIs(ReceivedChart(rx, 59), 10);
    assert ReceivedFrame(rx, 2)[19] == Some(10);
  }

  // ----- Whole runs -----

  /** The i-th minute of a run of n minutes, as it is heard. */
  function MinuteHeard(p: Program, base: int, c0: int, n: nat, i: nat): Reception
    requires Sane(p) && i < n
  {
    Heard(RunTrace(Envelopes(p), base, c0, 60 * n), base + 60 * i * SECOND)
  }

  /** The minute began while the program was running. */
  predicate Complete(base: int, c0: int, i: nat) {
    base <= c0 <= base + 60 * i * SECOND
  }

  /** DCF77: minute i names the minute that follows it. */
  lemma Dcf77Run(p: Program, base: int, c0: int, n: nat, i: nat)
    requires Sane(p) && p.station == DCF77 && i < n && Complete(base, c0, i)
    ensures Dcf77.Says(Dcf77.Received(MinuteHeard(p, base, c0, n, i)), p.zone(p.first + 60 * (i + 1)))
  {
    hide Dcf77.Says, Dcf77.Received, RunTrace, Arrives, Heard;
    MinuteArrives(p, base, c0, n, i);
    Dcf77Hears(MinuteHeard(p, base, c0, n, i), p.zone, p.first + 60 * i);
  }

  /** MSF: minute i names the minute that follows it. */
  lemma MsfRun(p: Program, base: int, c0: int, n: nat, i: nat)
    requires Sane(p) && p.station == MSF && i < n && Complete(base, c0, i)
    ensures var rx := MinuteHeard(p, base, c0, n, i);
            Msf.Says(Msf.ReceivedA(rx), Msf.ReceivedB(rx), p.zone(p.first + 60 * (i + 1)))
  {
    hide Msf.Says, Msf.ReceivedA, Msf.ReceivedB, RunTrace, Arrives, Heard;
    MinuteArrives(p, base, c0, n, i);
    MsfHears(MinuteHeard(p, base, c0, n, i), p.zone, p.first + 60 * i);
  }

  /** JJY: minute i names itself. */
  lemma JjyRun(p: Program, base: int, c0: int, n: nat, i: nat)
    requires Sane(p) && (p.station == JJY40 || p.station == JJY60) && i < n && Complete(base, c0, i)
    ensures Jjy.Says(PulseBits(MinuteHeard(p, base, c0, n, i), High), p.zone(p.first + 60 * i))
  {
    hide Jjy.Says, PulseBits, RunTrace, Arrives, Heard;
    MinuteArrives(p, base, c0, n, i);
    JjyHears(MinuteHeard(p, base, c0, n, i), p.station, p.zone, p.first + 60 * i);
  }

  /** WWVB: minute i, read with the POSIX formula in its century, is the very time it was prepared for. */
  lemma WwvbRun(p: Program, base: int, c0: int, n: nat, i: nat)
    requires Sane(p) && p.station == WWVB && p.first % 60 == 0 && i < n && Complete(base, c0, i)
    ensures Wwvb.Says(PulseBits(MinuteHeard(p, base, c0, n, i), Low), p.zone, p.first + 60 * i)
  {
    hide Wwvb.Says, PulseBits, RunTrace, Arrives, Heard;
    MinuteArrives(p, base, c0, n, i);
    WwvbHears(MinuteHeard(p, base, c0, n, i), p.zone, p.first + 60 * i);
  }

  /**
   BPC: every frame reads as the local time at which it began, but the last one of a run: the carrier goes off at
   the end of its last pulse, so that this pulse does not end.
   */
  lemma BpcRun(p: Program, base: int, c0: int, n: nat, i: nat, frame: nat)
    requires Sane(p) && p.station == BPC && i < n && Complete(base, c0, i) && frame < 3
    ensures var ws := ReceivedFrame(MinuteHeard(p, base, c0, n, i), frame);
            && (BpcSelfTest.Readable(ws) <==> !(i == n - 1 && frame == 2))
            && (BpcSelfTest.Readable(ws) ==>
                  BpcSelfTest.Says(BpcSelfTest.Gathered(ws, 19), frame, p.zone(p.first + 60 * i + 20 * frame)))
  {
    hide BpcSelfTest.Says, BpcSelfTest.Readable, BpcSelfTest.Gathered, ReceivedFrame, RunTrace, InForce, LevelOf;
    hide FrameArrives;
    var rx, t := MinuteHeard(p, base, c0, n, i), p.first + 60 * i;
    if i == n - 1 && frame == 2 {
      LastPulse(p, base, c0, n);
      CutSecond(rx);
    } else {
      FrameInRun(p, base, c0, n, i, frame);
      BpcHears(rx, p.zone, t, frame);
    }
  }

  lemma FrameInRun(p: Program, base: int, c0: int, n: nat, i: nat, frame: nat)
    requires Sane(p) && p.station == BPC && i < n && Complete(base, c0, i) && frame < 3 && !(i == n - 1 && frame == 2)
    ensures FrameArrives(MinuteHeard(p, base, c0, n, i), p.zone, p.first + 60 * i, frame)
  {
    hide RunTrace, InForce, LevelOf, EnvelopeLength;
    var rx, t := MinuteHeard(p, base, c0, n, i), p.first + 60 * i;
    forall s | 20 * frame <= s < 20 * frame + 20
      ensures SecondArrives(rx, p.zone, t, s)
    {
      forall ms: nat | ms < 1000
        ensures rx(s, ms) == LevelOf(BPC, p.zone, t, s, ms)
      {
        MomentArrives(p, base, c0, n, i, s, ms);
      }
    }
  }

  /** In the last second of a run the carrier is never at full power: reduced for its pulse, then off. */
  lemma LastPulse(p: Program, base: int, c0: int, n: nat)
    requires Sane(p) && p.station == BPC && n > 0 && Complete(base, c0, n - 1)
    ensures forall k :: 0 <= k < 10 ==> MinuteHeard(p, base, c0, n, n - 1)(59, 100 * k) != High
  {
    hide RunTrace, InForce, Bpc.MinuteSymbol;
    var t := p.first + 60 * (n - 1);
    Bpc.MinuteSymbolRange(p.zone, t, 59);
    var width := (Bpc.MinuteSymbol(p.zone, t, 59) + 1) * 100;
    TwoStepsWellFormed(Low, width, High);
    forall k | 0 <= k < 10
      ensures MinuteHeard(p, base, c0, n, n - 1)(59, 100 * k) != High
    {
      TwoLevels(Low, width, High, 100 * k);
      MomentArrives(p, base, c0, n, n - 1, 59, 100 * k);
    }
  }
}
