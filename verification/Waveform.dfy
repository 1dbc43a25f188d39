/**
 The signal on the air: what the interface promises at every instant, what a list of
 power switches amounts to, and why the two agree. Times are in nanoseconds.
 */
module Waveform {
  import opened Signal

  const SECOND: int := 1_000_000_000

  /** A broadcast: the envelope of every second, from its first one on. */
  type Stream = nat -> Modulation

  /** Every second keeps the contract. */
  ghost predicate Keeps(f: Stream) {
    forall k: nat :: WellFormed(f(k))
  }

  /** What should be on the air at instant T of a broadcast that began at `base`. */
  ghost function Promised(f: Stream, base: int, T: int): Power
    requires Keeps(f) && base <= T
  {
    assert WellFormed(f((T - base) / SECOND));
    LevelAt(f((T - base) / SECOND), (T - base) % SECOND)
  }

  // ----- Switching -----

  /** The power is set at a moment. */
  datatype Event = Event(at: int, power: Power)

  /** The power in force at T: that of the last event up to then. */
  function InForce(trace: seq<Event>, T: int): Power {
    if trace == [] then Off
    else if trace[|trace| - 1].at <= T then trace[|trace| - 1].power
    else InForce(trace[..|trace| - 1], T)
  }

  /**
   How many milliseconds into a second that began on time the loop is done with the first i entries of its list:
   it has waited for their durations, except that a wait for a full second or more of nanoseconds, which is no
   valid time, returns at once.
   */
  function Reach(mod: Modulation, i: nat): int
    requires i <= |mod|
  {
    if i == 0 then 0
    else if Total(mod[..i]) < 1000 then Total(mod[..i])
    else Reach(mod, i - 1)
  }

  /** The switches of one second that starts at `start`, at the times the loop makes them unless it is late. */
  function Transitions(start: int, mod: Modulation): (events: seq<Event>)
    ensures |events| == |mod|
  {
    seq(|mod|, i requires 0 <= i < |mod| => Event(start + Reach(mod, i) * MS, mod[i].power))
  }

  /** The switches of the first m seconds. */
  function Schedule(f: Stream, base: int, m: nat): seq<Event> {
    if m == 0 then [] else Schedule(f, base, m - 1) + Transitions(base + (m - 1) * SECOND, f(m - 1))
  }

  /** A program that starts at c0 makes overdue switches at once and the others on time. */
  function Timed(c0: int, events: seq<Event>): (r: seq<Event>)
    ensures |r| == |events|
  {
    seq(|events|, i requires 0 <= i < |events| => Event(Max(c0, events[i].at), events[i].power))
  }

  function Max(a: int, b: int): int {
    if a < b then b else a
  }

  /** The last valid deadline of second m-1: the last moment the program waits for. */
  function LastDeadline(f: Stream, base: int, m: nat): int
    requires m > 0
  {
    base + (m - 1) * SECOND + Reach(f(m - 1), |f(m - 1)|) * MS
  }

  /** Every switch of a run of m seconds that ends with the carrier off right after its last deadline. */
  function RunTrace(f: Stream, base: int, c0: int, m: nat): seq<Event>
    requires m > 0
  {
    Timed(c0, Schedule(f, base, m)) + [Event(Max(c0, LastDeadline(f, base, m)), Off)]
  }

  // ----- The power in force -----

  lemma {:induction false} SuffixLater(a: seq<Event>, b: seq<Event>, T: int)
    requires forall i :: 0 <= i < |b| ==> T < b[i].at
    ensures InForce(a + b, T) == InForce(a, T)
    decreases |b|
  {
    if b == [] {
      assert a + b == a;
    } else {
      var n := |b| - 1;
      assert (a + b)[..|a + b| - 1] == a + b[..n];
      assert (a + b)[|a + b| - 1] == b[n];
      SuffixLater(a, b[..n], T);
    }
  }

  lemma {:induction false} LastReached(trace: seq<Event>, i: nat, T: int)
    requires i < |trace| && trace[i].at <= T
    requires forall j :: i < j < |trace| ==> T < trace[j].at
    ensures InForce(trace, T) == trace[i].power
  {
    var a, b := trace[..i + 1], trace[i + 1..];
    assert trace == a + b;
    SuffixLater(a, b, T);
  }

  /** Some entry of the list is in force u nanoseconds into the second. */
  lemma {:induction false} FindEntry(mod: Modulation, u: int, from: nat) returns (i: nat)
    requires Ordered(mod) && from < |mod|
    requires Total(mod[..from]) * MS <= u
    ensures from <= i < |mod| && Total(mod[..i]) * MS <= u
    ensures i == |mod| - 1 || u < Total(mod[..i + 1]) * MS
    decreases |mod| - from
  {
    if from == |mod| - 1 || u < Total(mod[..from + 1]) * MS {
      i := from;
    } else {
      i := FindEntry(mod, u, from + 1);
    }
  }

  lemma {:induction false} TotalsGrow(mod: Modulation, i: nat, j: nat)
    requires Ordered(mod) && i <= j <= |mod|
    ensures Total(mod[..i]) <= Total(mod[..j])
    decreases j
  {
    if i == j {
    } else {
      TotalSnoc(mod, j - 1);
      TotalsGrow(mod, i, j - 1);
    }
  }

  // ----- One second -----

  /** If the first j entries fill the second, no more than an open last one follows. */
  lemma FullPrefix(mod: Modulation, j: nat)
    requires WellFormed(mod) && j < |mod| && 1000 <= Total(mod[..j])
    ensures 0 < j == |mod| - 1 && mod[j].ms == 0 && Total(mod) == Total(mod[..j]) == 1000
  {
    hide Total;
    EmptyTotal();
    assert mod[..|mod|] == mod;
    TotalSnoc(mod, j);
    TotalsGrow(mod, j + 1, |mod|);
  }

  /**
   The loop keeps the nominal times, but for an open last entry after a full second: it starts with the entry
   before it.
   */
  lemma ReachIs(mod: Modulation, i: nat)
    requires WellFormed(mod) && i < |mod|
    ensures Total(mod[..i]) < 1000 ==> Reach(mod, i) == Total(mod[..i])
    ensures 1000 <= Total(mod[..i]) ==> 0 < i == |mod| - 1 && Reach(mod, i) == Total(mod[..i - 1]) < 1000
    ensures 0 <= Reach(mod, i) < 1000
  {
    hide Total;
    EmptyTotal();
    TotalNonNegative(mod, i);
    if 1000 <= Total(mod[..i]) {
      FullPrefix(mod, i);
      TotalSnoc(mod, i - 1);
      TotalNonNegative(mod, i - 1);
    }
  }

  /** After the last entry the loop stands at its start or at the end of its duration, within the second. */
  lemma ReachEnd(mod: Modulation)
    requires WellFormed(mod)
    ensures var n := |mod|; Reach(mod, n) == (if Total(mod) < 1000 then Total(mod) else Reach(mod, n - 1))
    ensures 0 <= Reach(mod, |mod| - 1) <= Reach(mod, |mod|) < 1000
  {
    hide Total;
    var n := |mod| - 1;
    assert mod[..n + 1] == mod;
    ReachIs(mod, n);
    TotalsGrow(mod, n, n + 1);
  }

  /**
   The list fills the second with explicit durations and leaves another level for the remainder, of which there
   is none.
   */
  predicate Hurried(mod: Modulation) {
    && |mod| >= 2 && Total(mod) == 1000
    && mod[|mod| - 1].ms == 0 && mod[|mod| - 2].power != mod[|mod| - 1].power
  }

  /** From here on, in milliseconds, the loop sends the last level of such a list and not the one before it. */
  function HurriedFrom(mod: Modulation): int {
    if |mod| < 2 then 0 else Total(mod[..|mod| - 2])
  }

  /** u nanoseconds into the second the loop sends another level than the list prescribes. */
  predicate Misses(mod: Modulation, u: int) {
    Hurried(mod) && HurriedFrom(mod) * MS <= u
  }

  /**
   Of all switches of a second, the last one made by a moment within it is that of the entry in force, or a
   hurried one.
   */
  lemma LastMade(mod: Modulation, i: nat, u: int, j: nat)
    requires WellFormed(mod) && i < j < |mod| && u < 1000 * MS
    requires Total(mod[..i]) * MS <= u < Total(mod[..i + 1]) * MS
    ensures Reach(mod, j) * MS <= u <==> i == |mod| - 2 && Total(mod) == 1000 && mod[|mod| - 1].ms == 0
  {
    hide Total;
    assert mod[..|mod|] == mod;
    TotalsGrow(mod, i + 1, j);
    ReachIs(mod, j);
    if 1000 <= Total(mod[..j]) {
      FullPrefix(mod, j);
      if i < j - 1 {
        TotalsGrow(mod, i + 1, j - 1);
      }
    } else {
      TotalSnoc(mod, j);
      if j == |mod| - 1 && mod[j].ms == 0 {
        assert Total(mod) < 1000;
      }
    }
  }

  /** Where a list would be hurried, seen from the entry in force. */
  lemma MissesIs(mod: Modulation, i: nat, u: int)
    requires WellFormed(mod) && i < |mod| && Total(mod[..i]) * MS <= u < 1000 * MS
    requires i == |mod| - 1 || u < Total(mod[..i + 1]) * MS
    ensures Misses(mod, u) <==> Hurried(mod) && i == |mod| - 2
  {
    hide Total;
    var n := |mod| - 1;
    assert mod[..n + 1] == mod;
    if Hurried(mod) {
      TotalSnoc(mod, n);
      if i < n - 1 {
        TotalsGrow(mod, i + 1, n - 1);
      }
    }
  }

  /** At T, the switches of a second put on the air what its list prescribes. */
  predicate AsPrescribed(c0: int, before: seq<Event>, start: int, mod: Modulation, T: int)
    requires mod != []
  {
    InForce(before + Timed(c0, Transitions(start, mod)), T) == LevelAt(mod, T - start)
  }

  /**
   Within a second, the level on the air is the one its list prescribes, except exactly where a list that fills
   the second is hurried on to a different last level.
   */
  lemma SecondRefines(c0: int, before: seq<Event>, start: int, mod: Modulation, T: int)
    requires WellFormed(mod) && c0 <= T && start <= T < start + SECOND
    ensures AsPrescribed(c0, before, start, mod, T) <==> !Misses(mod, T - start)
  {
    hide LevelAt, InForce, Total, Hurried, Misses, Reach;
    var u := T - start;
    var events := Timed(c0, Transitions(start, mod));
    EmptyTotal();
    var i := FindEntry(mod, u, 0);
    LevelOfEntry(mod, i, u);
    MissesIs(mod, i, u);
    ReachIs(mod, i);
    var trace := before + events;
    var last := if i == |mod| - 2 && Total(mod) == 1000 && mod[|mod| - 1].ms == 0 then |mod| - 1 else i;
    forall j | i < j < |mod|
      ensures start + Reach(mod, j) * MS <= T <==> j <= last
    {
      LastMade(mod, i, u, j);
    }
    forall j | |before| + last < j < |trace|
      ensures T < trace[j].at
    {
      assert trace[j] == events[j - |before|];
    }
    LastReached(trace, |before| + last, T);
    HurriedIs(mod, i, last);
  }

  lemma HurriedIs(mod: Modulation, i: nat, last: nat)
    requires WellFormed(mod) && i < |mod|
    requires last == if i == |mod| - 2 && Total(mod) == 1000 && mod[|mod| - 1].ms == 0 then |mod| - 1 else i
    ensures Hurried(mod) && i == |mod| - 2 <==> mod[last].power != mod[i].power
  {
    hide Total;
  }

  /** The whole second is as prescribed exactly if its list is not hurried, however late the program began within it. */
  lemma WholeSecond(c0: int, before: seq<Event>, start: int, mod: Modulation)
    requires WellFormed(mod) && c0 < start + SECOND
    ensures (forall T :: c0 <= T && start <= T < start + SECOND ==> AsPrescribed(c0, before, start, mod, T))
            <==> !Hurried(mod)
  {
    hide InForce, Timed, Transitions, LevelAt, Total, Hurried;
    forall T | c0 <= T && start <= T < start + SECOND
      ensures AsPrescribed(c0, before, start, mod, T) <==> !Misses(mod, T - start)
    {
      SecondRefines(c0, before, start, mod, T);
    }
    if Hurried(mod) {
      HurriedWithin(mod);
      var T := Max(c0, start + HurriedFrom(mod) * MS);
      assert AsPrescribed(c0, before, start, mod, T) <==> !Misses(mod, T - start);
    }
  }

  lemma HurriedWithin(mod: Modulation)
    requires WellFormed(mod) && Hurried(mod)
    ensures 0 <= HurriedFrom(mod) < 1000 && mod[|mod| - 2].ms == 1000 - HurriedFrom(mod)
  {
    hide Total;
    var n := |mod| - 1;
    assert mod[..n + 1] == mod;
    TotalSnoc(mod, n);
    TotalSnoc(mod, n - 1);
    TotalNonNegative(mod, n - 1);
  }

  // ----- The chart and the air -----

  /** The hurried level and the one it replaces look different in a chart. */
  predicate ChartDiffers(mod: Modulation) {
    Hurried(mod) && (mod[|mod| - 2].power == High) != (mod[|mod| - 1].power == High)
  }

  /**
   Symbol j shows whether the carrier is at full power 100j ms into the second, unless a hurried switch has made
   the difference.
   */
  lemma ChartSymbolTrue(c0: int, before: seq<Event>, start: int, mod: Modulation, j: nat)
    requires WellFormed(mod) && j < 10 && c0 <= start + j * 100 * MS
    ensures (Chart(mod)[j] == '#' <==>
              InForce(before + Timed(c0, Transitions(start, mod)), start + j * 100 * MS) == High)
            <==> !(ChartDiffers(mod) && HurriedFrom(mod) <= 100 * j)
  {
    hide Timed, Transitions, LevelAt, Total, Hurried, HurriedFrom, InForce;
    var u := j * 100 * MS;
    HurriedLevels(c0, before, start, mod, start + u);
    SecondRefines(c0, before, start, mod, start + u);
  }

  /** While a list is hurried, its last level is on the air and the one before it prescribed. */
  lemma HurriedLevels(c0: int, before: seq<Event>, start: int, mod: Modulation, T: int)
    requires WellFormed(mod) && c0 <= T && start <= T < start + SECOND
    ensures Misses(mod, T - start) ==>
              && LevelAt(mod, T - start) == mod[|mod| - 2].power
              && InForce(before + Timed(c0, Transitions(start, mod)), T) == mod[|mod| - 1].power
  {
    hide LevelAt, InForce, Total, Reach;
    if Misses(mod, T - start) {
      var n := |mod| - 1;
      assert mod[..n + 1] == mod;
      TotalSnoc(mod, n);
      LevelOfEntry(mod, n - 1, T - start);
      ReachIs(mod, n);
      LastReached(before + Timed(c0, Transitions(start, mod)), |before| + n, T);
    }
  }

  /**
   The chart of a second that begins on time is true of what the loop sends exactly unless the list is hurried
   between full power and another level, and the entry that is cut lasts 100 ms or more.
   */
  lemma ChartShowsSignal(c0: int, before: seq<Event>, start: int, mod: Modulation)
    requires WellFormed(mod) && c0 <= start
    ensures (forall j :: 0 <= j < 10 ==> SymbolTrue(c0, before, start, mod, j))
       <==> !(ChartDiffers(mod) && mod[|mod| - 2].ms >= 100)
  {
    hide InForce, Timed, Transitions, LevelAt, Total, Hurried, Chart;
    forall j | 0 <= j < 10
      ensures SymbolTrue(c0, before, start, mod, j) <==> !(ChartDiffers(mod) && HurriedFrom(mod) <= 100 * j)
    {
      ChartSymbolTrue(c0, before, start, mod, j);
    }
    if ChartDiffers(mod) {
      HurriedWithin(mod);
      assert SymbolTrue(c0, before, start, mod, 9) <==> HurriedFrom(mod) > 900;
    }
  }

  predicate SymbolTrue(c0: int, before: seq<Event>, start: int, mod: Modulation, j: nat)
    requires j < 10
  {
    Chart(mod)[j] == '#' <==> InForce(before + Timed(c0, Transitions(start, mod)), start + j * 100 * MS) == High
  }

  /**
   A list that keeps the contract: half a second up, half a second down, then up. The loop never sends the second
   half as prescribed.
   */
  lemma HurriedExample(start: int)
    ensures var mod := [Step(High, 500), Step(Low, 500), Step(High, 0)];
            && WellFormed(mod) && Hurried(mod)
            && LevelAt(mod, 700 * MS) == Low && Chart(mod)[7] == '_'
            && InForce(Timed(start, Transitions(start, mod)), start + 700 * MS) == High
  {
    hide InForce, Timed, Transitions;
    var mod := [Step(High, 500), Step(Low, 500), Step(High, 0)];
    var m1, m2 := mod[1..], mod[2..];
    assert m1[1..] == m2 && m2[1..] == [] && mod[..1] == [mod[0]] && mod[..1][1..] == [];
    assert Total(m2) == 0 + Total(m2[1..]);
    assert Total(m1) == 500 + Total(m2);
    HurriedLevels(start, [], start, mod, start + 700 * MS);
    assert [] + Timed(start, Transitions(start, mod)) == Timed(start, Transitions(start, mod));
  }

  /**
   The contract allows a list that adds up to 1000 ms with an explicit last duration. The loop would then wait
   for 1000000000 ns past the second, which is no valid time: all its deadlines are valid just for shorter lists.
   */
  lemma DeadlinesValid(mod: Modulation)
    requires WellFormed(mod)
    ensures (forall i :: 0 <= i < |mod| && mod[i].ms != 0 ==> 0 <= EntryEnd(mod, i) * MS < SECOND)
            <==> Total(mod) < 1000
  {
    hide Total;
    var n := |mod| - 1;
    assert mod[..n + 1] == mod;
    forall i | 0 <= i < |mod|
      ensures 0 <= EntryEnd(mod, i) <= Total(mod)
    {
      TotalNonNegative(mod, i + 1);
      TotalsGrow(mod, i + 1, |mod|);
    }
    if Total(mod) == 1000 && mod[n].ms == 0 {
      TotalSnoc(mod, n);
      EmptyTotal();
      assert mod[n - 1].ms != 0 && EntryEnd(mod, n - 1) == 1000;
    }
  }

  /** Such a list keeps the contract, and its last wait is for an invalid time. */
  lemma FullSecondExample()
    ensures var mod := [Step(High, 200), Step(Low, 800)]; WellFormed(mod) && EntryEnd(mod, 1) * MS == SECOND
  {
  }

  function EntryEnd(mod: Modulation, i: nat): int
    requires i < |mod|
  {
    Total(mod[..i + 1])
  }

  lemma EmptyTotal()
    ensures forall mod: Modulation :: Total(mod[..0]) == 0
  {
  }

  lemma TimedConcat(c0: int, a: seq<Event>, b: seq<Event>)
    ensures Timed(c0, a + b) == Timed(c0, a) + Timed(c0, b)
  {
  }

  /** A shorter run makes the first of the switches of a longer one. */
  lemma {:induction false} SchedulePrefix(f: Stream, base: int, m: nat, n: nat)
    requires m <= n
    ensures Schedule(f, base, m) <= Schedule(f, base, n)
    decreases n
  {
    hide Transitions;
    if m == n {
    } else {
      SchedulePrefix(f, base, m, n - 1);
    }
  }

  /** Seconds that have not begun do not count yet. */
  lemma {:induction false} LaterSeconds(f: Stream, base: int, c0: int, k: nat, m: nat, T: int)
    requires Keeps(f) && k < m && T < base + (k + 1) * SECOND
    ensures InForce(Timed(c0, Schedule(f, base, m)), T) == InForce(Timed(c0, Schedule(f, base, k + 1)), T)
    decreases m
  {
    hide InForce;
    if k + 1 < m {
      var start, mod := base + (m - 1) * SECOND, f(m - 1);
      var later := Timed(c0, Transitions(start, mod));
      TimedConcat(c0, Schedule(f, base, m - 1), Transitions(start, mod));
      forall i | 0 <= i < |later|
        ensures T < later[i].at
      {
        ReachIs(mod, i);
      }
      SuffixLater(Timed(c0, Schedule(f, base, m - 1)), later, T);
      LaterSeconds(f, base, c0, k, m - 1, T);
    }
  }

  /**
   From the start of the program on, the switches of m seconds put on the air what is promised, except exactly
   where a list is hurried.
   */
  lemma ScheduleRefines(f: Stream, base: int, c0: int, m: nat, T: int)
    requires Keeps(f) && base <= c0 <= T < base + m * SECOND
    ensures InForce(Timed(c0, Schedule(f, base, m)), T) == Promised(f, base, T)
       <==> !Misses(f((T - base) / SECOND), (T - base) % SECOND)
  {
    hide InForce, LevelAt, Transitions, Misses;
    var k := (T - base) / SECOND;
    var start, mod := base + k * SECOND, f(k);
    LaterSeconds(f, base, c0, k, m, T);
    TimedConcat(c0, Schedule(f, base, k), Transitions(start, mod));
    SecondRefines(c0, Timed(c0, Schedule(f, base, k)), start, mod, T);
  }

  /** The level prescribed from the last valid deadline of a list to the end of its second. */
  function Closing(mod: Modulation): Power
    requires mod != []
  {
    if Hurried(mod) then mod[|mod| - 2].power else mod[|mod| - 1].power
  }

  /**
   A whole run: up to the last valid deadline the air is as promised except where a list is hurried; from then
   on nothing is sent, as promised only if the last second closes with OFF.
   */
  lemma RunRefines(f: Stream, base: int, c0: int, m: nat, T: int)
    requires Keeps(f) && m > 0 && base <= c0 <= T < base + m * SECOND
    ensures var stop := Max(c0, LastDeadline(f, base, m));
            && (T >= stop ==> InForce(RunTrace(f, base, c0, m), T) == Off)
            && (InForce(RunTrace(f, base, c0, m), T) == Promised(f, base, T)
                <==> if T < stop then !Misses(f((T - base) / SECOND), (T - base) % SECOND)
                     else Closing(f(m - 1)) == Off)
  {
    hide LevelAt, Schedule, Timed, LastDeadline, Misses, Closing;
    var trace := Timed(c0, Schedule(f, base, m));
    var stop := Max(c0, LastDeadline(f, base, m));
    assert RunTrace(f, base, c0, m)[..|trace|] == trace;
    if T < stop {
      ScheduleRefines(f, base, c0, m, T);
    } else {
      LastLevel(f, base, m, T);
    }
  }

  /** No run lasts to the end of its last second: from its last valid deadline on, nothing is sent. */
  lemma RunEndsEarly(f: Stream, base: int, c0: int, m: nat, T: int)
    requires Keeps(f) && m > 0 && base <= c0
    requires Max(c0, LastDeadline(f, base, m)) <= T < base + m * SECOND
    ensures InForce(RunTrace(f, base, c0, m), T) == Off && Promised(f, base, T) == Closing(f(m - 1))
    ensures LastDeadline(f, base, m) < base + m * SECOND
  {
    hide LevelAt, Schedule, Timed, InForce, Promised, Closing, Reach;
    RunRefines(f, base, c0, m, T);
    LastLevel(f, base, m, T);
    ReachEnd(f(m - 1));
  }

  lemma LastLevel(f: Stream, base: int, m: nat, T: int)
    requires Keeps(f) && m > 0 && LastDeadline(f, base, m) <= T < base + m * SECOND
    ensures base <= T && Promised(f, base, T) == Closing(f(m - 1))
  {
    hide LevelAt, Reach;
    var mod := f(m - 1);
    var u := T - base - (m - 1) * SECOND;
    ReachEnd(mod);
    assert (T - base) / SECOND == m - 1 && (T - base) % SECOND == u;
    ClosingLevel(mod, u);
  }

  lemma ClosingLevel(mod: Modulation, u: int)
    requires WellFormed(mod) && Reach(mod, |mod|) * MS <= u < SECOND
    ensures LevelAt(mod, u) == Closing(mod)
  {
    hide LevelAt, Total, Reach;
    var n := |mod| - 1;
    assert mod[..n + 1] == mod;
    ReachEnd(mod);
    ReachIs(mod, n);
    if Total(mod[..n]) < 1000 {
      TotalSnoc(mod, n);
      LevelOfEntry(mod, n, u);
    } else {
      FullPrefix(mod, n);
      LevelOfEntry(mod, n - 1, u);
    }
  }
}
