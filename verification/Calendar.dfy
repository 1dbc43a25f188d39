/**
 Broken-down time as the C library hands it to the encoders.

 `localtime_r` stays abstract: a function from seconds to a valid `Tm`.
 `gmtime_r` is the calendar of POSIX.1-2017, Base Definitions, section 4.16, "Seconds Since the Epoch".
 */
module Calendar {

  /** `struct tm`: `mon` counts from 0, `year` from 1900, `wday` from Sunday, `yday` from 0. */
  datatype Tm = Tm(sec: int, min: int, hour: int, mday: int, mon: int, year: int, wday: int, yday: int, isdst: bool)

  predicate Valid(tm: Tm) {
    && 0 <= tm.sec < 60
    && 0 <= tm.min < 60
    && 0 <= tm.hour < 24
    && 1 <= tm.mday <= 31
    && 0 <= tm.mon < 12
    && 0 <= tm.year
    && 0 <= tm.wday < 7
    && 0 <= tm.yday < 366
  }

  /** A time zone: what `localtime_r` answers for each `time_t`. */
  type Zone = f: int -> Tm | forall t :: Valid(f(t)) ghost witness (t: int) => Tm(0, 0, 0, 1, 0, 70, 4, 0, false)

  /** A broadcast: any minutes, one after the other on the air. */
  predicate AllValid(tms: seq<Tm>) {
    forall m :: 0 <= m < |tms| ==> Valid(tms[m])
  }

  /** Second s of minute m. */
  lemma SplitSecond(m: nat, s: nat)
    requires s < 60
    ensures (60 * m + s) / 60 == m && (60 * m + s) % 60 == s
  {
  }

  /** The minute, hour, date and daylight-saving state that a local-time frame carries. */
  datatype Stamp = Stamp(min: int, hour: int, wday: int, mday: int, month: int, year: int, isdst: bool)

  /** `is_leap_year`, on a full year number. */
  predicate IsLeap(year: int) {
    year % 4 == 0 && (year % 100 != 0 || year % 400 == 0)
  }

  // ----- Seconds since the Epoch -----

  const DAY := 86400

  /** The first second of 1900, the first year a `struct tm` counts as not negative. */
  const NINETEEN_HUNDRED := -2_208_988_800

  /** The days from the Epoch to the year `year` (counted from 1900). */
  function DaysBefore(year: int): int
  {
    (year - 70) * 365 + (year - 69) / 4 - (year - 1) / 100 + (year + 299) / 400
  }

  /** The POSIX formula. */
  function PosixSeconds(sec: int, min: int, hour: int, yday: int, year: int): int
  {
    sec + min * 60 + hour * 3600 + yday * 86400 + (year - 70) * 31536000
    + ((year - 69) / 4) * 86400 - ((year - 1) / 100) * 86400 + ((year + 299) / 400) * 86400
  }

  function YearLength(year: int): int {
    if IsLeap(year + 1900) then 366 else 365
  }

  lemma FourYears(year: int)
    ensures (year - 68) / 4 - (year - 69) / 4 == if (year + 1900) % 4 == 0 then 1 else 0
  {
  }

  lemma Centuries(year: int)
    ensures year / 100 - (year - 1) / 100 == if (year + 1900) % 100 == 0 then 1 else 0
  {
  }

  lemma FourCenturies(year: int)
    ensures (year + 300) / 400 - (year + 299) / 400 == if (year + 1900) % 400 == 0 then 1 else 0
  {
  }

  lemma LeapCycle(year: int)
    ensures year % 400 == 0 ==> year % 100 == 0
    ensures year % 100 == 0 ==> year % 4 == 0
  {
  }

  /** The formula's own leap days fall exactly in the years `is_leap_year` accepts. */
  lemma LeapDayFollowsFormula(year: int)
    ensures DaysBefore(year + 1) - DaysBefore(year) == YearLength(year)
  {
    FourYears(year);
    Centuries(year);
    FourCenturies(year);
    LeapCycle(year + 1900);
  }

  /** The year (from 1900) that contains the given day, searching upwards from `year`. */
  function YearOf(day: int, year: int): (y: int)
    requires 0 <= year && DaysBefore(year) <= day
    ensures 0 <= y && DaysBefore(y) <= day < DaysBefore(y) + YearLength(y)
    decreases day - DaysBefore(year)
  {
    LeapDayFollowsFormula(year);
    if day < DaysBefore(year + 1) then year else YearOf(day, year + 1)
  }

  function MonthLength(mon: int, leap: bool): int {
    if mon == 1 then (if leap then 29 else 28)
    else if mon == 3 || mon == 5 || mon == 8 || mon == 10 then 30
    else 31
  }

  /** Month and day of month of the `rest`-th day counted from the first of month `mon`. */
  function MonthDay(rest: int, mon: int, leap: bool): (r: (int, int))
    requires 0 <= mon < 12 && 0 <= rest
    ensures mon <= r.0 < 12 && 1 <= r.1 <= 31
    decreases 12 - mon
  {
    if rest < MonthLength(mon, leap) then (mon, rest + 1)
    else if mon < 11 then MonthDay(rest - MonthLength(mon, leap), mon + 1, leap)
    else (11, 31)
  }

  lemma ClockSplit(rest: int)
    requires 0 <= rest < DAY
    ensures rest == rest % 60 + rest / 60 % 60 * 60 + rest / 3600 * 3600
    ensures rest / 3600 < 24
  {
    assert rest / 3600 == rest / 60 / 60;
  }

  lemma FormulaByDays(sec: int, min: int, hour: int, yday: int, year: int)
    ensures PosixSeconds(sec, min, hour, yday, year) == (DaysBefore(year) + yday) * DAY + sec + min * 60 + hour * 3600
  {
  }

  /** `gmtime_r` from 1900 on: POSIX gives the formula from the Epoch on, and the calendar continues it backwards. */
  function Gmtime(t: int): (tm: Tm)
    requires NINETEEN_HUNDRED <= t
    ensures Valid(tm) && !tm.isdst && tm.yday < YearLength(tm.year)
    ensures PosixSeconds(tm.sec, tm.min, tm.hour, tm.yday, tm.year) == t
  {
    hide PosixSeconds, MonthDay, IsLeap;
    var day, rest := t / DAY, t % DAY;
    assert DaysBefore(0) * DAY == NINETEEN_HUNDRED;
    var year := YearOf(day, 0);
    var yday := day - DaysBefore(year);
    var md := MonthDay(yday, 0, IsLeap(year + 1900));
    ClockSplit(rest);
    FormulaByDays(rest % 60, rest / 60 % 60, rest / 3600, yday, year);
    Tm(rest % 60, rest / 60 % 60, rest / 3600, md.1, md.0, year, (4 + day) % 7, yday, false)
  }

  // ----- The date -----

  /** The days of a common year before each month. */
  const DAYS_BEFORE_MONTH: seq<int> := [0, 31, 59, 90, 120, 151, 181, 212, 243, 273, 304, 334, 365]

  /** The days of a year before month `mon`, counted from 0. */
  function DayOfMonthStart(mon: int, leap: bool): int
    requires 0 <= mon <= 12
  {
    DAYS_BEFORE_MONTH[mon] + if leap && mon > 1 then 1 else 0
  }

  lemma MonthEnds(mon: int, leap: bool)
    requires 0 <= mon < 12
    ensures DayOfMonthStart(mon + 1, leap) == DayOfMonthStart(mon, leap) + MonthLength(mon, leap)
  {
  }

  lemma {:induction false} MonthDayIs(rest: int, mon: int, leap: bool)
    requires 0 <= mon < 12 && 0 <= rest
    requires DayOfMonthStart(mon, leap) + rest < (if leap then 366 else 365)
    ensures var (m, d) := MonthDay(rest, mon, leap);
            && DayOfMonthStart(mon, leap) + rest == DayOfMonthStart(m, leap) + d - 1
            && DayOfMonthStart(m, leap) + d <= DayOfMonthStart(m + 1, leap)
    decreases 12 - mon
  {
    hide DayOfMonthStart;
    MonthEnds(mon, leap);
    if rest < MonthLength(mon, leap) {
    } else if mon < 11 {
      MonthDayIs(rest - MonthLength(mon, leap), mon + 1, leap);
    } else {
      LastMonth(leap);
      assert false;
    }
  }

  lemma LastMonth(leap: bool)
    ensures DayOfMonthStart(12, leap) == if leap then 366 else 365
  {
  }

  /**
   Month and day of the month name the day of the year, by the days before each month; the day lies in its month.
   */
  lemma DateIs(t: int)
    requires NINETEEN_HUNDRED <= t
    ensures var tm, leap := Gmtime(t), YearLength(Gmtime(t).year) == 366;
            && tm.yday == DayOfMonthStart(tm.mon, leap) + tm.mday - 1
            && DayOfMonthStart(tm.mon, leap) + tm.mday <= DayOfMonthStart(tm.mon + 1, leap)
  {
    hide YearOf, MonthDay, DaysBefore, PosixSeconds, DayOfMonthStart;
    var year := Gmtime(t).year;
    var leap := IsLeap(year + 1900);
    MonthStartZero(leap);
    MonthDayIs(Gmtime(t).yday, 0, leap);
  }

  lemma MonthStartZero(leap: bool)
    ensures DayOfMonthStart(0, leap) == 0
  {
  }

  /** The Epoch was a Thursday, and a day later is the next weekday. */
  lemma WeekdaysAdvance(t: int)
    requires NINETEEN_HUNDRED <= t
    ensures Gmtime(0).wday == 4 && Gmtime(t + 86400).wday == (Gmtime(t).wday + 1) % 7
  {
    hide YearOf, MonthDay, DaysBefore, PosixSeconds;
    var d := t / DAY;
    assert (t + 86400) / DAY == d + 1 && 0 / DAY == 0;
    NextWeekday(d);
  }

  lemma NextWeekday(d: int)
    ensures (4 + (d + 1)) % 7 == ((4 + d) % 7 + 1) % 7
  {
  }

  lemma {:induction false} YearsAreOrdered(a: int, b: int)
    requires a < b
    ensures DaysBefore(a) + YearLength(a) <= DaysBefore(b)
    decreases b - a
  {
    LeapDayFollowsFormula(a);
    if a + 1 == b {
    } else {
      YearsAreOrdered(a + 1, b);
    }
  }

  lemma OneSplit(d: int, x: int, e: int, y: int)
    requires d * DAY + x == e * DAY + y
    requires 0 <= x < DAY && 0 <= y < DAY
    ensures d == e && x == y
  {
  }

  lemma ClockUnique(a: Tm, b: Tm)
    requires Valid(a) && Valid(b) && a.sec + a.min * 60 + a.hour * 3600 == b.sec + b.min * 60 + b.hour * 3600
    ensures a.sec == b.sec && a.min == b.min && a.hour == b.hour
  {
  }

  /** No other valid reading of the clock gives the same number of seconds: the formula determines `Gmtime`. */
  lemma PosixDetermines(a: Tm, b: Tm)
    requires Valid(a) && a.yday < YearLength(a.year)
    requires Valid(b) && b.yday < YearLength(b.year)
    requires PosixSeconds(a.sec, a.min, a.hour, a.yday, a.year) == PosixSeconds(b.sec, b.min, b.hour, b.yday, b.year)
    ensures a.sec == b.sec && a.min == b.min && a.hour == b.hour && a.yday == b.yday && a.year == b.year
  {
    hide PosixSeconds, DaysBefore, YearLength;
    FormulaByDays(a.sec, a.min, a.hour, a.yday, a.year);
    FormulaByDays(b.sec, b.min, b.hour, b.yday, b.year);
    OneSplit(DaysBefore(a.year) + a.yday, a.sec + a.min * 60 + a.hour * 3600,
             DaysBefore(b.year) + b.yday, b.sec + b.min * 60 + b.hour * 3600);
    ClockUnique(a, b);
    if a.year < b.year {
      YearsAreOrdered(a.year, b.year);
    } else if b.year < a.year {
      YearsAreOrdered(b.year, a.year);
    }
  }
}
