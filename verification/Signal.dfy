/**
 The envelope of one second: a list of power levels with durations, what the
 list means, and the chart the dry run prints of it.
 */
module Signal {

  datatype Power = Off | Low | High

  /** `ModulationDuration`. */
  datatype Step = Step(power: Power, ms: int)

  /** `SecondModulation`. */
  type Modulation = seq<Step>

  /** One millisecond in nanoseconds. */
  const MS: int := 1_000_000

  function Total(mod: Modulation): int {
    if mod == [] then 0 else mod[0].ms + Total(mod[1..])
  }

  /** Every transition but the last takes time; only the last may be left open. */
  predicate Ordered(mod: Modulation) {
    && mod != []
    && (forall i :: 0 <= i < |mod| - 1 ==> mod[i].ms > 0)
    && mod[|mod| - 1].ms >= 0
  }

  /** The contract of `GetModulationForSecond`: transitions that fit into the second. */
  predicate WellFormed(mod: Modulation) {
    Ordered(mod) && Total(mod) <= 1000
  }

  /** Transitions that fit into the second with room to spare, so that no deadline reaches the next second. */
  predicate Playable(mod: Modulation) {
    WellFormed(mod) && Total(mod) < 1000
  }

  /**
   What the contract says is on the air `ns` nanoseconds into the second:
   each level lasts for its duration, the last one for the remainder.
   */
  function LevelAt(mod: Modulation, ns: int): Power
    requires mod != []
  {
    if |mod| == 1 || mod[0].ms == 0 || ns < mod[0].ms * MS then mod[0].power
    else LevelAt(mod[1..], ns - mod[0].ms * MS)
  }

  lemma {:induction false} TotalSnoc(mod: Modulation, i: nat)
    requires i < |mod|
    ensures Total(mod[..i + 1]) == Total(mod[..i]) + mod[i].ms
  {
    if i == 0 {
      assert mod[..1] == [mod[0]];
    } else {
      assert mod[..i + 1][1..] == mod[1..][..i];
      assert mod[..i][1..] == mod[1..][..i - 1];
      TotalSnoc(mod[1..], i - 1);
    }
  }

  /** Entry i is the level from the end of entry i-1 to its own end, or to the end of the second if it is the last. */
  lemma {:induction false} LevelOfEntry(mod: Modulation, i: nat, ns: int)
    requires Ordered(mod) && i < |mod|
    requires Total(mod[..i]) * MS <= ns
    requires i == |mod| - 1 || ns < Total(mod[..i + 1]) * MS
    ensures LevelAt(mod, ns) == mod[i].power
  {
    if i == 0 {
      assert mod[..1] == [mod[0]];
    } else {
      var rest := mod[1..];
      assert mod[..i][1..] == rest[..i - 1];
      TotalNonNegative(rest, i - 1);
      assert mod[..i + 1][1..] == rest[..i];
      LevelOfEntry(rest, i - 1, ns - mod[0].ms * MS);
    }
  }

  lemma {:induction false} TotalNonNegative(mod: Modulation, i: nat)
    requires Ordered(mod) && i <= |mod|
    ensures 0 <= Total(mod[..i])
  {
    if i == 0 {
    } else {
      TotalNonNegative(mod, i - 1);
      TotalSnoc(mod, i - 1);
    }
  }

  /** The symbol for the level 100k ms into the second; an empty list never switches the power on. */
  function ChartSymbol(mod: Modulation, k: nat): char {
    if mod != [] && LevelAt(mod, k * 100 * MS) == High then '#' else '_'
  }

  /** The chart of a second: ten symbols. */
  function Chart(mod: Modulation): (chart: string)
    ensures |chart| == 10
  {
    seq(10, k requires 0 <= k < 10 => ChartSymbol(mod, k))
  }

  /** `PrintModulationChart`: one symbol per 100 ms, '#' for full power. */
  method PrintModulationChart(mod: Modulation) returns (chart: string)
    requires mod == [] || Ordered(mod)
    ensures |chart| == if Total(mod) <= 1000 then 10 else (Total(mod) + 99) / 100
    ensures forall k :: 0 <= k < |chart| ==> chart[k] == ChartSymbol(mod, k)
    ensures Total(mod) <= 1000 ==> chart == Chart(mod)
  {
    chart := "";
    var runningMs, targetMs, power := 0, 0, false;
    for i := 0 to |mod|
      invariant runningMs == 100 * |chart| && targetMs == Total(mod[..i])
      invariant targetMs <= runningMs < targetMs + 100
      invariant power == (i > 0 && mod[i - 1].power == High)
      invariant forall k :: 0 <= k < |chart| ==> chart[k] == ChartSymbol(mod, k)
    {
      var m := mod[i];
      power := m.power == High;
      TotalSnoc(mod, i);
      targetMs := targetMs + m.ms;
      while runningMs < targetMs
        invariant runningMs == 100 * |chart| && Total(mod[..i]) <= runningMs < targetMs + 100
        invariant forall k :: 0 <= k < |chart| ==> chart[k] == ChartSymbol(mod, k)
      {
        LevelOfEntry(mod, i, |chart| * 100 * MS);
        chart := chart + (if power then "#" else "_");
        runningMs := runningMs + 100;
      }
    }
    assert mod[..|mod|] == mod;
    while runningMs < 1000
      invariant runningMs == 100 * |chart| && Total(mod) <= runningMs
      invariant runningMs < Total(mod) + 100 || runningMs <= 1000
      invariant forall k :: 0 <= k < |chart| ==> chart[k] == ChartSymbol(mod, k)
    {
      if mod != [] {
        TotalSnoc(mod, |mod| - 1);
        LevelOfEntry(mod, |mod| - 1, |chart| * 100 * MS);
      }
      chart := chart + (if power then "#" else "_");
      runningMs := runningMs + 100;
    }
  }

  // ----- Reception -----

  /** A received minute: the level at millisecond `ms` of second `s`. */
  type Reception = (int, int) -> Power

  /** The reception shows the envelopes of `frame` in its seconds from..to-1. */
  ghost predicate Shows(rx: Reception, frame: seq<Modulation>, from: nat, to: nat)
    requires to <= |frame| && forall s :: 0 <= s < |frame| ==> frame[s] != []
  {
    forall s, ms :: from <= s < to && 0 <= ms < 1000 ==> rx(s, ms) == LevelAt(frame[s], ms * MS)
  }

  /** An envelope of two levels: the first for `ms` milliseconds, the second for the rest. */
  lemma TwoLevels(first: Power, ms: int, rest: Power, at: int)
    requires 0 < ms && 0 <= at
    ensures LevelAt([Step(first, ms), Step(rest, 0)], at * MS) == if at < ms then first else rest
  {
  }

  lemma OneStepWellFormed(level: Power)
    ensures var mod := [Step(level, 0)]; WellFormed(mod) && Total(mod) == 0
  {
  }

  lemma TwoStepsWellFormed(first: Power, ms: int, rest: Power)
    requires 0 < ms < 1000
    ensures var mod := [Step(first, ms), Step(rest, 0)]; WellFormed(mod) && Total(mod) == ms
  {
    var mod := [Step(first, ms), Step(rest, 0)];
    var tail := mod[1..];
    assert tail == [Step(rest, 0)];
    assert Total(tail) == 0 + Total(tail[1..]);
  }
}
