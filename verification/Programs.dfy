/** What txtempus broadcasts: the minutes of a station, one after the other. */
module Programs {
  import opened Calendar
  import opened Signal
  import opened Sources
  import opened Waveform

  /** What is broadcast: a station, a time zone, and the time of the first minute prepared. */
  datatype Program = Program(station: Station, zone: Zone, first: int)

  predicate Sane(p: Program) {
    Covers(p.station, p.first)
  }

  /** The time for which the minute of second k is prepared. */
  function MinuteTime(p: Program, k: nat): (t: int)
    requires Sane(p)
    ensures Covers(p.station, t)
  {
    p.first + 60 * (k / 60)
  }

  /** The list leaves room in its second and does not end in OFF. */
  predicate Fine(mod: Modulation) {
    Playable(mod) && mod[|mod| - 1].power != Off
  }

  /** The envelope of the k-th second of the broadcast. */
  function SecondMod(p: Program, k: nat): (mod: Modulation)
    requires Sane(p)
    ensures Fine(mod)
  {
    hide EnvelopeOf, Playable;
    EnvelopesPlayable(p.station, p.zone, MinuteTime(p, k), k % 60);
    EnvelopeOf(p.station, p.zone, MinuteTime(p, k), k % 60)
  }

  lemma SecondIs(p: Program, k: nat)
    requires Sane(p)
    ensures SecondMod(p, k) == EnvelopeOf(p.station, p.zone, MinuteTime(p, k), k % 60)
  {
  }

  /** The broadcast as a stream of envelopes. */
  function Envelopes(p: Program): Stream
    requires Sane(p)
  {
    (k: nat) => SecondMod(p, k)
  }

  /** Whatever a station broadcasts keeps the contract, is nowhere hurried and never closes a second with OFF. */
  lemma EnvelopesKeep(p: Program)
    requires Sane(p)
    ensures Keeps(Envelopes(p))
    ensures forall k: nat :: !Hurried(Envelopes(p)(k)) && Closing(Envelopes(p)(k)) != Off
  {
    hide SecondMod, Total;
  }

  /** In a whole run of a station the air is as promised exactly up to the last deadline, and then nothing is sent. */
  lemma RunOfStation(p: Program, base: int, c0: int, m: nat, T: int)
    requires Sane(p) && m > 0 && base <= c0 <= T < base + m * SECOND
    ensures Keeps(Envelopes(p))
    ensures var stop := Max(c0, LastDeadline(Envelopes(p), base, m));
            && (InForce(RunTrace(Envelopes(p), base, c0, m), T) == Promised(Envelopes(p), base, T) <==> T < stop)
            && (T >= stop ==> InForce(RunTrace(Envelopes(p), base, c0, m), T) == Off)
  {
    hide Envelopes, RunTrace, InForce, Promised, LastDeadline, Hurried, Closing;
    EnvelopesKeep(p);
    RunRefines(Envelopes(p), base, c0, m, T);
  }

  /** While seconds follow, the air is as promised at every instant. */
  lemma ScheduleOfStation(p: Program, base: int, c0: int, m: nat, T: int)
    requires Sane(p) && base <= c0 <= T < base + m * SECOND
    ensures Keeps(Envelopes(p))
    ensures InForce(Timed(c0, Schedule(Envelopes(p), base, m)), T) == Promised(Envelopes(p), base, T)
  {
    hide Envelopes, Timed, Schedule, InForce, Promised, Hurried, Closing;
    EnvelopesKeep(p);
    ScheduleRefines(Envelopes(p), base, c0, m, T);
  }
}
