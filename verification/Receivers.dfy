/**
 Receivers that know nothing but the signal: from the levels of any two minutes and one second of a run they
 find where a minute begins, and then what time it is.
 */
module Receivers {
  import opened Options
  import opened Calendar
  import opened Signal
  import opened Markers
  import opened Sources
  import opened Waveform
  import opened Programs
  import opened Broadcast
  import Sync
  import Dcf77
  import Wwvb
  import Jjy
  import Msf
  import Bpc
  import BpcSelfTest

  // ----- What a receiver does -----

  /** A minute begins with second s of what is heard. */
  predicate Begins(rx: Reception, station: Station, s: nat) {
    match station
    case DCF77 => rx(s + 59, 50) == High
    case MSF => rx(s, 450) == Off
    case WWVB => rx(s + 59, 650) == Low && rx(s + 60, 650) == Low
    case JJY40 => rx(s + 59, 350) == Low && rx(s + 60, 350) == Low
    case JJY60 => rx(s + 59, 350) == Low && rx(s + 60, 350) == Low
    case BPC => BpcSelfTest.Lead(ReceivedChart(rx, s)) == 0 && BpcSelfTest.Lead(ReceivedChart(rx, s + 1)) == 1
  }

  /** The first second from s on with which a minute begins; 60 if there is none among the first 60. */
  function MinuteStart(rx: Reception, station: Station, s: nat): (start: nat)
    requires s <= 60
    ensures s <= start <= 60
    decreases 60 - s
  {
    if s == 60 || Begins(rx, station, s) then s else MinuteStart(rx, station, s + 1)
  }

  /** What is heard from second d on. */
  function From(rx: Reception, d: nat): Reception {
    (s, ms) => rx(s + d, ms)
  }

  /** The first whole minute that is heard. */
  function FirstMinuteHeard(rx: Reception, station: Station): Reception {
    From(rx, MinuteStart(rx, station, 0))
  }

  // ----- Why it works -----

  /** Two minutes of the broadcast, from its second k on, are heard as they are prescribed. */
  ghost predicate Listens(rx: Reception, p: Program, k: nat)
    requires Sane(p)
  {
    forall s, ms :: 0 <= s < 120 && 0 <= ms < 1000 ==> rx(s, ms) == Sync.At(p, k + s, ms)
  }

  lemma BeginsIff(rx: Reception, p: Program, k: nat, s: nat)
    requires Sane(p) && Listens(rx, p, k) && s < 60
    ensures Begins(rx, p.station, s) <==> (k + s) % 60 == 0
  {
    hide Sync.At, Sync.Width, Sync.SoundsLikeMarker, BpcSelfTest.Lead, ReceivedChart, Listens;
    SecondBefore(k + s);
    Sync.FrameStarts(k + s);
    if p.station == DCF77 {
      ListensAt(rx, p, k, s + 59, 50);
      Sync.Dcf77Gap(p, k + (s + 59));
    } else if p.station == MSF {
      ListensAt(rx, p, k, s, 450);
      Sync.MsfGap(p, k + s);
    } else if p.station == BPC {
      WidthHeard(rx, p, k, s);
      WidthHeard(rx, p, k, s + 1);
      Sync.BpcMarker(p, k + s);
    } else {
      MarkerHeard(rx, p, k, s + 59);
      MarkerHeard(rx, p, k, s + 60);
      Sync.AdjacentMarkers(p, k + (s + 59));
    }
  }

  lemma SecondBefore(k: nat)
    ensures (k + 59) % 60 == 59 <==> k % 60 == 0
  {
    var m, s := k / 60, k % 60;
    if s == 0 {
      assert k + 59 == 60 * m + 59;
    } else {
      assert k + 59 == 60 * (m + 1) + (s - 1);
      SplitSecond(m + 1, s - 1);
    }
  }

  lemma ListensAt(rx: Reception, p: Program, k: nat, s: nat, ms: nat)
    requires Sane(p) && Listens(rx, p, k) && s < 120 && ms < 1000
    ensures rx(s, ms) == Sync.At(p, k + s, ms)
  {
    hide Sync.At;
  }

  lemma MarkerHeard(rx: Reception, p: Program, k: nat, s: nat)
    requires Sane(p) && Listens(rx, p, k) && s < 120
    ensures Sync.SoundsLikeMarker(p, k + s) <==> if p.station == WWVB then rx(s, 650) == Low else rx(s, 350) == Low
  {
    hide Sync.At;
  }

  lemma WidthHeard(rx: Reception, p: Program, k: nat, s: nat)
    requires Sane(p) && Listens(rx, p, k) && s < 120
    ensures BpcSelfTest.Lead(ReceivedChart(rx, s)) == Sync.Width(p, k + s)
  {
    hide SecondMod, LevelAt, BpcSelfTest.Lead;
    forall j | 0 <= j < 10
      ensures ReceivedChart(rx, s)[j] == Chart(SecondMod(p, k + s))[j]
    {
      assert rx(s, 100 * j) == Sync.At(p, k + s, 100 * j);
    }
    assert ReceivedChart(rx, s) == Chart(SecondMod(p, k + s));
  }

  /** The search finds the second with which a minute of the broadcast begins. */
  lemma {:induction false} StartFound(rx: Reception, p: Program, k: nat, s: nat)
    requires Sane(p) && Listens(rx, p, k) && s < 60 && k % 60 + s <= 60
    requires s > 0 ==> k % 60 != 0
    ensures var d := MinuteStart(rx, p.station, s); d < 60 && (k + d) % 60 == 0
    decreases 60 - s
  {
    hide Begins, Listens;
    BeginsIff(rx, p, k, s);
    if (k + s) % 60 == 0 {
      assert MinuteStart(rx, p.station, s) == s;
    } else {
      NotYet(k, s);
      assert MinuteStart(rx, p.station, s) == MinuteStart(rx, p.station, s + 1);
      StartFound(rx, p, k, s + 1);
    }
  }

  lemma NotYet(k: nat, s: nat)
    requires s < 60 && k % 60 + s <= 60 && (k + s) % 60 != 0
    requires s > 0 ==> k % 60 != 0
    ensures s + 1 < 60 && k % 60 + s + 1 <= 60 && k % 60 != 0
  {
    var m := k / 60;
    assert k % 60 + s == 60 ==> k + s == 60 * (m + 1);
  }

  /** From there on a minute arrives as it was prepared. */
  lemma MinuteFollows(rx: Reception, p: Program, k: nat, d: nat)
    requires Sane(p) && Listens(rx, p, k) && d < 60 && (k + d) % 60 == 0
    ensures Arrives(From(rx, d), p.station, p.zone, p.first + (k + d))
  {
    hide EnvelopeOf, LevelAt, EnvelopeLength;
    var m, heard := (k + d) / 60, From(rx, d);
    forall s, ms | 0 <= s < 60 && 0 <= ms < 1000
      ensures heard(s, ms) == LevelOf(p.station, p.zone, p.first + (k + d), s, ms)
    {
      SplitSecond(m, s);
      assert rx(s + d, ms) == Sync.At(p, k + (s + d), ms);
    }
  }

  // ----- Windows of a run -----

  /** What is heard from second k of a run of n minutes on. */
  function Window(p: Program, base: int, c0: int, n: nat, k: nat): Reception
    requires Sane(p) && n > 0
  {
    Heard(RunTrace(Envelopes(p), base, c0, 60 * n), base + k * SECOND)
  }

  /** The window of two minutes and one second lies within the run, and the program was running when it began. */
  predicate Within(base: int, c0: int, n: nat, k: nat) {
    base <= c0 <= base + k * SECOND && k + 121 <= 60 * n
  }

  lemma WindowListens(p: Program, base: int, c0: int, n: nat, k: nat)
    requires Sane(p) && Within(base, c0, n, k)
    ensures Listens(Window(p, base, c0, n, k), p, k)
  {
    hide SecondMod, LevelAt, RunTrace, InForce, Total;
    var rx := Window(p, base, c0, n, k);
    forall s, ms | 0 <= s < 120 && 0 <= ms < 1000
      ensures rx(s, ms) == Sync.At(p, k + s, ms)
    {
      MomentInRun(p, base, c0, n, k + s, ms);
      assert base + k * SECOND + s * SECOND == base + (k + s) * SECOND;
    }
  }

  /** Wherever a receiver comes in, it finds a second with which a minute begins, and then hears that minute. */
  lemma Locks(p: Program, base: int, c0: int, n: nat, k: nat)
    requires Sane(p) && Within(base, c0, n, k)
    ensures var rx := Window(p, base, c0, n, k);
            var d := MinuteStart(rx, p.station, 0);
            d < 60 && (k + d) % 60 == 0
              && Arrives(FirstMinuteHeard(rx, p.station), p.station, p.zone, p.first + (k + d))
  {
    hide Window, Listens, Arrives, From, Sane;
    var rx := Window(p, base, c0, n, k);
    WindowListens(p, base, c0, n, k);
    StartFound(rx, p, k, 0);
    MinuteFollows(rx, p, k, MinuteStart(rx, p.station, 0));
  }

  /** DCF77: the time decoded is that of the minute after the one that begins with the second found. */
  lemma Dcf77Locks(p: Program, base: int, c0: int, n: nat, k: nat)
    requires Sane(p) && p.station == DCF77 && Within(base, c0, n, k)
    ensures var rx := Window(p, base, c0, n, k);
            var d, bits := MinuteStart(rx, DCF77, 0), Dcf77.Received(FirstMinuteHeard(rx, DCF77));
            && d < 60 && (k + d) % 60 == 0
            && Dcf77.Says(bits, p.zone(p.first + (k + d) + 60))
  {
    hide Window, Arrives, FirstMinuteHeard, Sane, Dcf77.Received, Dcf77.Says;
    var rx := Window(p, base, c0, n, k);
    Locks(p, base, c0, n, k);
    Dcf77Hears(FirstMinuteHeard(rx, DCF77), p.zone, p.first + (k + MinuteStart(rx, DCF77, 0)));
  }

  /** MSF: likewise. */
  lemma MsfLocks(p: Program, base: int, c0: int, n: nat, k: nat)
    requires Sane(p) && p.station == MSF && Within(base, c0, n, k)
    ensures var rx := Window(p, base, c0, n, k);
            var d, heard := MinuteStart(rx, MSF, 0), FirstMinuteHeard(rx, MSF);
            var a, b := Msf.ReceivedA(heard), Msf.ReceivedB(heard);
            && d < 60 && (k + d) % 60 == 0
            && Msf.Says(a, b, p.zone(p.first + (k + d) + 60))
  {
    hide Window, Arrives, FirstMinuteHeard, Sane, Msf.ReceivedA, Msf.ReceivedB, Msf.Says;
    var rx := Window(p, base, c0, n, k);
    Locks(p, base, c0, n, k);
    MsfHears(FirstMinuteHeard(rx, MSF), p.zone, p.first + (k + MinuteStart(rx, MSF, 0)));
  }

  /** JJY: the time decoded is that of the minute found. */
  lemma JjyLocks(p: Program, base: int, c0: int, n: nat, k: nat)
    requires Sane(p) && (p.station == JJY40 || p.station == JJY60) && Within(base, c0, n, k)
    ensures var rx := Window(p, base, c0, n, k);
            var d, bits := MinuteStart(rx, p.station, 0), PulseBits(FirstMinuteHeard(rx, p.station), High);
            && d < 60 && (k + d) % 60 == 0
            && Jjy.Says(bits, p.zone(p.first + (k + d)))
  {
    hide Window, Arrives, FirstMinuteHeard, Sane, PulseBits, Jjy.Says;
    var rx := Window(p, base, c0, n, k);
    Locks(p, base, c0, n, k);
    JjyHears(FirstMinuteHeard(rx, p.station), p.station, p.zone, p.first + (k + MinuteStart(rx, p.station, 0)));
  }

  /** WWVB: the time decoded is the very second that was found. */
  lemma WwvbLocks(p: Program, base: int, c0: int, n: nat, k: nat)
    requires Sane(p) && p.station == WWVB && p.first % 60 == 0 && Within(base, c0, n, k)
    ensures var rx := Window(p, base, c0, n, k);
            var d := MinuteStart(rx, WWVB, 0);
            var t := p.first + (k + d);
            && d < 60 && (k + d) % 60 == 0 && NINETEEN_HUNDRED <= t
            && Wwvb.Says(PulseBits(FirstMinuteHeard(rx, WWVB), Low), p.zone, t)
  {
    hide Window, Arrives, FirstMinuteHeard, PulseBits, Wwvb.Says;
    var rx := Window(p, base, c0, n, k);
    Locks(p, base, c0, n, k);
    WwvbHears(FirstMinuteHeard(rx, WWVB), p.zone, p.first + (k + MinuteStart(rx, WWVB, 0)));
  }

  /** BPC: each of the three frames of the minute found says the local time at which it began. */
  lemma BpcLocks(p: Program, base: int, c0: int, n: nat, k: nat, frame: nat)
    requires Sane(p) && p.station == BPC && Within(base, c0, n, k) && frame < 3
    ensures var rx := Window(p, base, c0, n, k);
            var d, ws := MinuteStart(rx, BPC, 0), ReceivedFrame(FirstMinuteHeard(rx, BPC), frame);
            && d < 60 && (k + d) % 60 == 0 && BpcSelfTest.Readable(ws)
            && BpcSelfTest.Says(BpcSelfTest.Gathered(ws, 19), frame, p.zone(p.first + (k + d) + 20 * frame))
  {
    hide Window, Listens, LevelOf, EnvelopeOf, Sane, ReceivedFrame, FrameArrives, BpcSelfTest.Readable;
    hide BpcSelfTest.Says, BpcSelfTest.Gathered, BpcSelfTest.ReadNumbers;
    var rx := Window(p, base, c0, n, k);
    var d := MinuteStart(rx, BPC, 0);
    WindowListens(p, base, c0, n, k);
    StartFound(rx, p, k, 0);
    FrameFollows(rx, p, k, d, frame);
    BpcHears(From(rx, d), p.zone, p.first + (k + d), frame);
  }

  lemma FrameFollows(rx: Reception, p: Program, k: nat, d: nat, frame: nat)
    requires Sane(p) && p.station == BPC && Listens(rx, p, k) && d < 60 && (k + d) % 60 == 0 && frame < 3
    ensures FrameArrives(From(rx, d), p.zone, p.first + (k + d), frame)
  {
    hide EnvelopeOf, LevelAt;
    var m, t, heard := (k + d) / 60, p.first + (k + d), From(rx, d);
    forall s | 20 * frame <= s < 20 * frame + 20
      ensures SecondArrives(heard, p.zone, t, s)
    {
      SplitSecond(m, s);
      forall ms: nat | ms < 1000
        ensures heard(s, ms) == LevelOf(BPC, p.zone, t, s, ms)
      {
        assert rx(s + d, ms) == Sync.At(p, k + (s + d), ms);
      }
    }
  }
}
