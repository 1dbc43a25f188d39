/** WWVB (United States), `src/wwvb-source.cc`. */
module Wwvb {
  import opened Words
  import opened Bcd
  import opened Calendar
  import opened Signal
  import opened Markers

  // ----- The word of one minute -----

  /** Minute, hour, day of year, year, leap year, daylight saving tomorrow and today. */
  function Values(utc: Tm, tomorrow: bool, today: bool): (values: seq<Word>)
    requires Valid(utc)
    ensures |values| == 7
  {
    [ ToPadded5Bcd(utc.min), ToPadded5Bcd(utc.hour), ToPadded5Bcd(utc.yday + 1), ToPadded5Bcd(utc.year % 100),
      U64(if IsLeap(utc.year + 1900) then 1 else 0), U64(if tomorrow then 1 else 0), U64(if today then 1 else 0) ]
  }

  function Fields(values: seq<Word>): seq<Field>
    requires |values| == 7
  {
    [ Field(values[0], 51, 8), Field(values[1], 41, 7), Field(values[2], 26, 12), Field(values[3], 6, 9),
      Field(values[4], 4, 1), Field(values[5], 2, 1), Field(values[6], 1, 1) ]
  }

  function Encode(utc: Tm, tomorrow: bool, today: bool): Word
    requires Valid(utc)
  {
    OrAll(Fields(Values(utc, tomorrow, today)))
  }

  /** The word of the minute that starts at t. */
  function MinuteWord(localtime: Zone, t: int): Word
    requires NINETEEN_HUNDRED <= t
  {
    Encode(Gmtime(t), localtime(t + 86400).isdst, localtime(t).isdst)
  }

  /** Reduced power for 800 ms is a marker, for 500 ms a one, for 200 ms a zero. */
  const CODE := PulseCode(Low, High, 800, 500, 200)

  class WwvbTimeSignalSource {
    var timeBits: Word
    const localtime: Zone

    constructor (zone: Zone)
      ensures localtime == zone
    {
      localtime := zone;
      timeBits := U64(0);
    }

    method PrepareMinute(t: int)
      requires NINETEEN_HUNDRED <= t
      modifies this
      ensures timeBits == MinuteWord(localtime, t)
    {
      hide ToPadded5Bcd, U64, OrAll, Fields, Or, Shl, Gmtime;
      var breakdown := Gmtime(t);
      ghost var utc := breakdown;
      timeBits := U64(0);
      timeBits := Or(timeBits, Shl(ToPadded5Bcd(breakdown.min), 59 - 8));
      timeBits := Or(timeBits, Shl(ToPadded5Bcd(breakdown.hour), 59 - 18));
      timeBits := Or(timeBits, Shl(ToPadded5Bcd(breakdown.yday + 1), 59 - 33));
      timeBits := Or(timeBits, Shl(ToPadded5Bcd(breakdown.year % 100), 59 - 53));
      timeBits := Or(timeBits, Shl(U64(if IsLeap(breakdown.year + 1900) then 1 else 0), 59 - 55));

      breakdown := localtime(t);
      var tomorrow := localtime(t + 86400);
      timeBits := Or(timeBits, Shl(U64(if tomorrow.isdst then 1 else 0), 59 - 57));
      timeBits := Or(timeBits, Shl(U64(if breakdown.isdst then 1 else 0), 59 - 58));
      Assembled(Values(utc, tomorrow.isdst, breakdown.isdst));
    }

    method GetModulationForSecond(second: nat) returns (mod: Modulation)
      ensures mod == Pulse(CODE, timeBits, second)
    {
      if second == 0 || second % 10 == 9 || second > 59 {
        return [Step(Low, 800), Step(High, 0)];
      }
      var bit := timeBits[59 - second];
      return [Step(Low, if bit then 500 else 200), Step(High, 0)];
    }
  }

  lemma Assembled(v: seq<Word>)
    requires |v| == 7
    ensures Or(Or(Or(Or(Or(Or(Or(U64(0), Shl(v[0], 51)), Shl(v[1], 41)), Shl(v[2], 26)), Shl(v[3], 6)), Shl(v[4], 4)),
              Shl(v[5], 2)), Shl(v[6], 1))
         == OrAll(Fields(v))
  {
    var fields := Fields(v);
    OrNext(fields, 0);
    OrNext(fields, 1);
    OrNext(fields, 2);
    OrNext(fields, 3);
    OrNext(fields, 4);
    OrNext(fields, 5);
    OrNext(fields, 6);
  }

  lemma FieldsDisjoint(v: seq<Word>)
    requires |v| == 7 && Narrow(v[0], 8) && Narrow(v[1], 7) && Narrow(v[2], 12) && Narrow(v[3], 9)
    requires Narrow(v[4], 1) && Narrow(v[5], 1) && Narrow(v[6], 1)
    ensures Disjoint(Fields(v))
  {
  }

  // ----- Reception -----

  datatype UtcStamp = UtcStamp(min: int, hour: int, dayOfYear: int, year: int, leap: bool, tomorrow: bool, today: bool)

  function Decode(bits: seq<bool>): UtcStamp
    requires 60 <= |bits|
  {
    UtcStamp(PaddedValue(bits[51..59]), PaddedValue(bits[41..48]), PaddedValue(bits[26..38]), PaddedValue(bits[6..15]),
             bits[4], bits[2], bits[1])
  }

  function StampOf(utc: Tm, tomorrow: bool, today: bool): UtcStamp
    requires Valid(utc)
  {
    UtcStamp(utc.min, utc.hour, utc.yday + 1, utc.year % 100, IsLeap(utc.year + 1900), tomorrow, today)
  }

  /** The places that no field uses: markers, reserved seconds, the correction and the leap second warning. */
  predicate Unused(i: nat) {
    i == 0 || i == 3 || i == 5 || 15 <= i <= 25 || 38 <= i <= 40 || 48 <= i <= 50 || i == 59
  }

  /** What every frame has in common: zeros where nothing is said, and decimal digits with zeros between them. */
  predicate Regular(bits: seq<bool>)
    requires 60 <= |bits|
  {
    && (forall i :: 0 <= i < 60 && Unused(i) ==> !bits[i])
    && IsPadded(bits[51..59]) && IsPadded(bits[41..48]) && IsPadded(bits[26..38]) && IsPadded(bits[6..15])
  }

  lemma Pieces(a: seq<bool>)
    requires |a| == 60 && Regular(a)
    ensures a == [false, a[1], a[2], false, a[4], false] + a[6..15] + Zeros(11) + a[26..38] + Zeros(3) + a[41..48]
                 + Zeros(3) + a[51..59] + [false]
  {
    hide IsPadded;
  }

  lemma ValuesFit(utc: Tm, tomorrow: bool, today: bool)
    requires Valid(utc)
    ensures var v := Values(utc, tomorrow, today);
            && Disjoint(Fields(v))
            && PaddedValue(v[0][..8]) == utc.min && PaddedValue(v[1][..7]) == utc.hour
            && PaddedValue(v[2][..12]) == utc.yday + 1 && PaddedValue(v[3][..9]) == utc.year % 100
            && v[4][0] == IsLeap(utc.year + 1900) && v[5][0] == tomorrow && v[6][0] == today
            && !v[2][4] && !v[2][9] && !v[3][4]
            && IsPadded(v[0][..8]) && IsPadded(v[1][..7]) && IsPadded(v[2][..12]) && IsPadded(v[3][..9])
  {
    hide ToPadded5Bcd, U64, PaddedValue, IsPadded, ToNat;
    SmallPowers();
    PaddedRoundTrip(utc.min, 8);
    PaddedRoundTrip(utc.hour, 7);
    PaddedRoundTrip(utc.yday + 1, 12);
    PaddedRoundTrip(utc.year % 100, 9);
    ParityIsBit(IsLeap(utc.year + 1900));
    ParityIsBit(tomorrow);
    ParityIsBit(today);
    FieldsDisjoint(Values(utc, tomorrow, today));
  }

  lemma FieldSlices(w: Word, v: seq<Word>)
    requires |v| == 7
    requires forall j :: 0 <= j < 7 ==> Extract(w, Fields(v)[j]) == v[j][..Fields(v)[j].width]
    ensures w[51..59] == v[0][..8] && w[41..48] == v[1][..7] && w[26..38] == v[2][..12] && w[6..15] == v[3][..9]
    ensures w[4] == v[4][0] && w[2] == v[5][0] && w[1] == v[6][0] && w[30] == v[2][4] && w[10] == v[3][4]
  {
    var f := Fields(v);
    assert Extract(w, f[0]) == v[0][..8] && Extract(w, f[1]) == v[1][..7] && Extract(w, f[2]) == v[2][..12]
           && Extract(w, f[3]) == v[3][..9];
    assert Extract(w, f[4]) == v[4][..1] && Extract(w, f[5]) == v[5][..1] && Extract(w, f[6]) == v[6][..1];
    assert w[4] == w[4..5][0] && w[2] == w[2..3][0] && w[1] == w[1..2][0];
    assert w[30] == w[26..38][4] && w[10] == w[6..15][4];
  }

  /** The word says what it should, and is zero wherever a marker replaces it. */
  lemma WordReadsBack(utc: Tm, tomorrow: bool, today: bool)
    requires Valid(utc)
    ensures var w := Encode(utc, tomorrow, today);
            && Decode(w) == StampOf(utc, tomorrow, today) && Regular(w)
            && ClearAtMarkers(w)
  {
    hide ToPadded5Bcd, U64, PaddedValue, IsPadded, ToNat, OrAll, Values, Disjoint, ClearAtMarkers, IsLeap, Extract;
    hide Valid, IsMarker;
    var v := Values(utc, tomorrow, today);
    var fields := Fields(v);
    ValuesFit(utc, tomorrow, today);
    forall j | 0 <= j < 7
      ensures Extract(OrAll(fields), fields[j]) == fields[j].value[..fields[j].width]
    {
      FieldReadsBack(fields, j);
    }
    FieldSlices(OrAll(fields), v);
    forall i | 0 <= i < 60 && Unused(i)
      ensures !OrAll(fields)[i]
    {
      UncoveredClear(fields, i);
    }
    MarkerPlaces(OrAll(fields));
  }

  /** A second takes the carrier down for 800 ms if it is a marker, otherwise for 500 or 200 ms as its bit says. */
  lemma SecondLevel(w: Word, s: nat, ms: nat)
    requires ms < 1000
    ensures var down := if s == 0 || s % 10 == 9 || s > 59 then 800 else if w[59 - s] then 500 else 200;
            LevelAt(Pulse(CODE, w, s), ms * MS) == if ms < down then Low else High
  {
    TwoLevels(Low, PulseMs(CODE, w, s), High, ms);
  }

  lemma RoundTrip(utc: Tm, tomorrow: bool, today: bool, rx: Reception)
    requires Valid(utc) && PulsesHeard(rx, CODE, Encode(utc, tomorrow, today))
    ensures PulseBits(rx, Low) == Encode(utc, tomorrow, today)[..60]
    ensures Decode(PulseBits(rx, Low)) == StampOf(utc, tomorrow, today) && Regular(PulseBits(rx, Low))
  {
    hide Encode, PaddedValue, IsPadded, StampOf, PulsesHeard, PulseBits, ClearAtMarkers;
    var w := Encode(utc, tomorrow, today);
    WordReadsBack(utc, tomorrow, today);
    PulsesReadBack(rx, CODE, w);
    var b := w[..60];
    assert b[51..59] == w[51..59] && b[41..48] == w[41..48] && b[26..38] == w[26..38] && b[6..15] == w[6..15];
  }

  // ----- Back to seconds since the Epoch -----

  /** The time a frame names, given the century (0 for 1900-1999, 1 for 2000-2099, ...). */
  function SecondsOf(stamp: UtcStamp, century: int): int
  {
    PosixSeconds(0, stamp.min, stamp.hour, stamp.dayOfYear - 1, century * 100 + stamp.year)
  }

  /** The stamp names the time t: its year in t's century, and t itself by the POSIX formula. */
  predicate Names(stamp: UtcStamp, t: int)
    requires NINETEEN_HUNDRED <= t
  {
    var year := Gmtime(t).year;
    && year == year / 100 * 100 + stamp.year && SecondsOf(stamp, year / 100) == t
    && 0 <= stamp.min < 60 && 0 <= stamp.hour < 24
    && 1 <= stamp.dayOfYear <= DaysBefore(year + 1) - DaysBefore(year)
  }

  /**
   The bits received say the minute that starts at t, whether its year has a leap day and whether it is summer now
   and a day later, and nothing else.
   */
  predicate Says(bits: seq<bool>, localtime: Zone, t: int)
    requires NINETEEN_HUNDRED <= t && 60 <= |bits|
  {
    var stamp, year := Decode(bits), Gmtime(t).year;
    && Names(stamp, t) && Regular(bits)
    && (stamp.leap <==> DaysBefore(year + 1) - DaysBefore(year) == 366)
    && stamp.today == localtime(t).isdst && stamp.tomorrow == localtime(t + 86400).isdst
  }

  /** There is one way to say a time. */
  lemma FrameDetermined(a: seq<bool>, b: seq<bool>, localtime: Zone, t: int)
    requires NINETEEN_HUNDRED <= t && |a| == |b| == 60 && Says(a, localtime, t) && Says(b, localtime, t)
    ensures a == b
  {
    hide PaddedValue, IsPadded, PosixSeconds, DaysBefore, Gmtime;
    SameStamp(Decode(a), Decode(b), t);
    PaddedDetermines(a[51..59], b[51..59]);
    PaddedDetermines(a[41..48], b[41..48]);
    PaddedDetermines(a[26..38], b[26..38]);
    PaddedDetermines(a[6..15], b[6..15]);
    Pieces(a);
    Pieces(b);
  }

  lemma SameStamp(x: UtcStamp, y: UtcStamp, t: int)
    requires NINETEEN_HUNDRED <= t && Names(x, t) && Names(y, t)
    ensures x.min == y.min && x.hour == y.hour && x.dayOfYear == y.dayOfYear && x.year == y.year
  {
    hide PosixSeconds, DaysBefore, YearLength, Gmtime;
    var year := Gmtime(t).year;
    LeapDayFollowsFormula(year);
    LongestYear(year);
    var a := Tm(0, x.min, x.hour, 1, 0, year, 0, x.dayOfYear - 1, false);
    var b := Tm(0, y.min, y.hour, 1, 0, year, 0, y.dayOfYear - 1, false);
    PosixDetermines(a, b);
  }

  lemma LongestYear(year: int)
    ensures YearLength(year) <= 366
  {
  }

  /** The frame of a minute, received and read with the POSIX formula, is that minute. */
  lemma InvertsTime(localtime: Zone, t: int, rx: Reception)
    requires NINETEEN_HUNDRED <= t && t % 60 == 0
    requires PulsesHeard(rx, CODE, MinuteWord(localtime, t))
    ensures Says(PulseBits(rx, Low), localtime, t)
  {
    hide Encode, Decode, Regular, PulseBits, PulsesHeard, DaysBefore, PosixSeconds, Gmtime;
    var utc := Gmtime(t);
    RoundTrip(utc, localtime(t + 86400).isdst, localtime(t).isdst, rx);
    WholeMinute(t);
    LeapDayFollowsFormula(utc.year);
  }

  lemma WholeMinute(t: int)
    requires NINETEEN_HUNDRED <= t && t % 60 == 0
    ensures Gmtime(t).sec == 0
  {
    hide YearOf, MonthDay, DaysBefore;
    assert t % DAY % 60 == 0;
  }

  /**
   Two minutes of one century whose frames read the same minute, hour, day of year and year are the same minute:
   whatever the two receivers' zones and daylight-saving bits.
   */
  lemma FrameIdentifiesMinute(here: Zone, t: int, rx: Reception, there: Zone, u: int, ry: Reception)
    requires NINETEEN_HUNDRED <= t && t % 60 == 0 && NINETEEN_HUNDRED <= u && u % 60 == 0
    requires Gmtime(t).year / 100 == Gmtime(u).year / 100
    requires PulsesHeard(rx, CODE, MinuteWord(here, t))
    requires PulsesHeard(ry, CODE, MinuteWord(there, u))
    requires var a, b := Decode(PulseBits(rx, Low)), Decode(PulseBits(ry, Low));
             a.min == b.min && a.hour == b.hour && a.dayOfYear == b.dayOfYear && a.year == b.year
    ensures t == u
  {
    hide MinuteWord, Decode, Regular, PulseBits, PulsesHeard, Gmtime, PosixSeconds;
    InvertsTime(here, t, rx);
    InvertsTime(there, u, ry);
  }
}
