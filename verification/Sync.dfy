/**
 Finding the place in the minute: a receiver switched on in an arbitrary second of an endless
 broadcast learns which second it is hearing.
 */
module Sync {
  import opened Words
  import opened Calendar
  import opened Signal
  import opened Sources
  import opened Programs
  import opened Markers
  import Wwvb
  import Jjy
  import Msf
  import Bpc
  import BpcSelfTest

  /** The level at millisecond `ms` of the k-th second of a broadcast. */
  function At(p: Program, k: nat, ms: nat): Power
    requires Sane(p)
  {
    LevelAt(SecondMod(p, k), ms * MS)
  }

  /** DCF77: the only second that is not reduced is the last of the minute. */
  lemma Dcf77Gap(p: Program, k: nat)
    requires Sane(p) && p.station == DCF77
    ensures At(p, k, 50) == High <==> k % 60 == 59
  {
  }

  /** MSF: the only gap that is still there after 450 ms is that of second 0. */
  lemma MsfGap(p: Program, k: nat)
    requires Sane(p) && p.station == MSF
    ensures At(p, k, 450) == Off <==> k % 60 == 0
  {
    hide SecondMod, MsfA, MsfB;
    var t, s := MinuteTime(p, k), k % 60;
    SecondIs(p, k);
    TwoLevels(Off, 500, High, 450);
    if s > 0 {
      var mod := SecondMod(p, k);
      assert mod[1..][1..] == mod[2..] && mod[2..][1..] == mod[3..];
      assert LevelAt(mod[3..], 150 * MS) == High;
      assert LevelAt(mod[2..], 250 * MS) == High;
      assert LevelAt(mod[1..], 350 * MS) == High;
    }
  }

  /** The local times that an MSF broadcast names, minute by minute. */
  function MsfMinutes(p: Program, n: nat): (tms: seq<Tm>)
    ensures |tms| == n && AllValid(tms)
  {
    seq(n, j => p.zone(p.first + 60 * j + 60))
  }

  lemma MsfBit(p: Program, n: nat, k: nat)
    requires Sane(p) && p.station == MSF && k < 60 * n
    ensures Msf.HeardA(MsfMinutes(p, n), k) <==> At(p, k, 150) == Off
  {
    hide SecondMod, Msf.EncodeA, Msf.EncodeB, Msf.Envelope, LevelAt;
    SecondIs(p, k);
  }

  /**
   MSF: the pattern 01111110 of A bits starts in second 52 of every minute and nowhere else, whatever the times
   are.
   */
  lemma MsfIdentifier(p: Program, k: nat)
    requires Sane(p) && p.station == MSF
    ensures At(p, k, 150) != Off && At(p, k + 1, 150) == Off && At(p, k + 2, 150) == Off && At(p, k + 3, 150) == Off
            && At(p, k + 4, 150) == Off && At(p, k + 5, 150) == Off && At(p, k + 6, 150) == Off
               && At(p, k + 7, 150) != Off
       <==> k % 60 == 52
  {
    hide At, Msf.HeardA, MsfMinutes, Sane;
    var n := k / 60 + 2;
    MsfBit(p, n, k);
    MsfBit(p, n, k + 1);
    MsfBit(p, n, k + 2);
    MsfBit(p, n, k + 3);
    MsfBit(p, n, k + 4);
    MsfBit(p, n, k + 5);
    MsfBit(p, n, k + 6);
    MsfBit(p, n, k + 7);
    Msf.IdentifierUnique(MsfMinutes(p, n), k);
  }

  /** A second that WWVB and JJY receivers take for a marker. */
  predicate SoundsLikeMarker(p: Program, k: nat)
    requires Sane(p)
  {
    if p.station == WWVB then At(p, k, 650) == Low else At(p, k, 350) == Low
  }

  lemma MarkerSeconds(p: Program, k: nat)
    requires Sane(p) && (p.station == WWVB || p.station == JJY40 || p.station == JJY60)
    ensures SoundsLikeMarker(p, k) <==> IsMarker(k % 60)
  {
    hide SecondMod, Wwvb.MinuteWord, Jjy.Encode, LevelAt;
    var t, s := MinuteTime(p, k), k % 60;
    SecondIs(p, k);
    TwoLevels(Low, 800, High, 650);
    TwoLevels(Low, 500, High, 650);
    TwoLevels(Low, 200, High, 650);
    TwoLevels(High, 200, Low, 350);
    TwoLevels(High, 500, Low, 350);
    TwoLevels(High, 800, Low, 350);
  }

  /** WWVB and JJY: two markers in a row are the last second of a minute and the first of the next. */
  lemma AdjacentMarkers(p: Program, k: nat)
    requires Sane(p) && (p.station == WWVB || p.station == JJY40 || p.station == JJY60)
    ensures SoundsLikeMarker(p, k) && SoundsLikeMarker(p, k + 1) <==> k % 60 == 59
  {
    hide SoundsLikeMarker;
    MarkerSeconds(p, k);
    MarkerSeconds(p, k + 1);
  }

  /** What the k-th second of a BPC broadcast reads as: its width in 100 ms, 0 for a marker. */
  function Width(p: Program, k: nat): nat
    requires Sane(p)
  {
    BpcSelfTest.Lead(Chart(SecondMod(p, k)))
  }

  /** BPC: markers are every 20 seconds, and the symbol after a marker counts them. */
  lemma BpcMarker(p: Program, k: nat)
    requires Sane(p) && p.station == BPC
    ensures Width(p, k) == 0 <==> k % 20 == 0
    ensures Width(p, k) == 0 ==> k % 60 == 20 * (Width(p, k + 1) - 1)
  {
    hide SecondMod, BpcSelfTest.Lead, Chart, Bpc.Envelope, Bpc.MinuteSymbol, Sane;
    var t := BpcSecondIs(p, k);
    var u := BpcSecondIs(p, k + 1);
    BpcWidth(p.zone, t, k % 60);
    BpcWidth(p.zone, u, (k + 1) % 60);
    FrameStarts(k);
    FrameSymbol(p.zone, u, k % 60 / 20);
  }

  lemma BpcSecondIs(p: Program, k: nat) returns (t: int)
    requires Sane(p) && p.station == BPC
    ensures k % 60 < 60 && SecondMod(p, k) == Bpc.Envelope(Bpc.MinuteSymbol(p.zone, t, k % 60))
  {
    hide Bpc.Envelope, Bpc.MinuteSymbol;
    t := MinuteTime(p, k);
  }

  lemma FrameStarts(k: nat)
    ensures k % 60 / 20 < 3 && k % 60 % 20 == k % 20
    ensures k % 20 == 0 ==> k % 60 == 20 * (k % 60 / 20)
    ensures k % 20 == 0 ==> (k + 1) % 60 == 20 * (k % 60 / 20) + 1 && (k + 1) % 60 % 20 == 1
  {
    var m, s := k / 60, k % 60;
    assert k == 60 * m + s;
    if k % 20 == 0 {
      assert s == 0 || s == 20 || s == 40;
    }
  }

  lemma BpcWidth(zone: Zone, t: int, s: nat)
    requires s < 60
    ensures var width := BpcSelfTest.Lead(Chart(Bpc.Envelope(Bpc.MinuteSymbol(zone, t, s))));
            && (width == 0 <==> s % 20 == 0)
            && (s % 20 != 0 ==> width == Bpc.MinuteSymbol(zone, t, s) + 1)
  {
    hide Bpc.MinuteSymbol, Chart, BpcSelfTest.Lead, Bpc.Envelope;
    Bpc.MinuteSymbolRange(zone, t, s);
    BpcSelfTest.LeadOfSymbol(Bpc.MinuteSymbol(zone, t, s));
  }

  /** The first symbol after a marker is the number of the frame. */
  lemma FrameSymbol(zone: Zone, t: int, frame: nat)
    requires frame < 3
    ensures Bpc.MinuteSymbol(zone, t, 20 * frame + 1) == frame
  {
    hide Bpc.Block, ToNat;
    assert (20 * frame + 1) / 20 == frame && (20 * frame + 1) % 20 == 1;
    Bpc.BlockSays(zone(t + frame * 20), frame);
  }

  // ----- Any window of the signal fixes the position -----

  /** Second k of one broadcast and second l of another have the same level at every millisecond. */
  ghost predicate SameLevels(p: Program, k: nat, q: Program, l: nat)
    requires Sane(p) && Sane(q)
  {
    forall ms: nat :: ms < 1000 ==> At(p, k, ms) == At(q, l, ms)
  }

  /** The same for the d-th second from there on. */
  ghost predicate SameSecond(p: Program, k: nat, q: Program, l: nat, d: nat)
    requires Sane(p) && Sane(q)
  {
    SameLevels(p, k + d, q, l + d)
  }

  /** The two broadcasts sound the same for n seconds. */
  ghost predicate SoundAlike(p: Program, k: nat, q: Program, l: nat, n: nat)
    requires Sane(p) && Sane(q)
  {
    forall d :: 0 <= d < n ==> SameSecond(p, k, q, l, d)
  }

  /** How long one has to listen to be sure. */
  function WindowLength(station: Station): nat {
    match station
    case DCF77 => 60
    case MSF => 60
    case WWVB => 61
    case JJY40 => 61
    case JJY60 => 61
    case BPC => 21
  }

  /**
   Wherever two receivers of a station came in, on whatever date: what sounds alike long enough is the same
   second of the minute.
   */
  lemma WindowFixesPosition(p: Program, k: nat, q: Program, l: nat)
    requires Sane(p) && Sane(q) && p.station == q.station
    requires SoundAlike(p, k, q, l, WindowLength(p.station))
    ensures k % 60 == l % 60
  {
    hide SecondMod, Sane, At, SameLevels, SoundsLikeMarker, Width;
    var n := if p.station == BPC then 20 else 60;
    var goal := match p.station case MSF => 0 case BPC => 0 case _ => 59;
    var d := (goal + n - k % n) % n;
    Reaches(k, n, goal);
    assert SameSecond(p, k, q, l, d);
    Heard(p, k + d, q, l + d);
    if p.station == DCF77 {
      Dcf77Gap(p, k + d);
      Dcf77Gap(q, l + d);
    } else if p.station == MSF {
      MsfGap(p, k + d);
      MsfGap(q, l + d);
    } else {
      assert SameSecond(p, k, q, l, d + 1);
      Heard(p, k + d + 1, q, l + d + 1);
      if p.station == BPC {
        BpcMarker(p, k + d);
        BpcMarker(q, l + d);
      } else {
        AdjacentMarkers(p, k + d);
        AdjacentMarkers(q, l + d);
      }
    }
    SamePlace(k, l, d);
  }

  /** Receivers go by nothing but the levels. */
  lemma Heard(p: Program, k: nat, q: Program, l: nat)
    requires Sane(p) && Sane(q) && p.station == q.station && SameLevels(p, k, q, l)
    ensures At(p, k, 50) == At(q, l, 50) && At(p, k, 450) == At(q, l, 450)
    ensures SoundsLikeMarker(p, k) == SoundsLikeMarker(q, l) && Width(p, k) == Width(q, l)
  {
    hide SecondMod, BpcSelfTest.Lead, LevelAt;
    assert Chart(SecondMod(p, k)) == Chart(SecondMod(q, l)) by {
      forall j | 0 <= j < 10
        ensures ChartSymbol(SecondMod(p, k), j) == ChartSymbol(SecondMod(q, l), j)
      {
        assert At(p, k, j * 100) == At(q, l, j * 100);
      }
    }
  }

  lemma SamePlace(k: nat, l: nat, d: nat)
    ensures (k + d) % 60 == (l + d) % 60 ==> k % 60 == l % 60
  {
  }

  lemma Reaches(k: nat, n: nat, goal: nat)
    requires (n == 20 || n == 60) && goal < n
    ensures (k + (goal + n - k % n) % n) % n == goal
  {
  }
}
