/** What WWVB and JJY share: marker seconds, and bits sent as the length of a pulse. */
module Markers {
  import opened Words
  import opened Signal

  /** Second 0 and every second ending in 9. */
  predicate IsMarker(second: nat) {
    second == 0 || second % 10 == 9 || second > 59
  }

  /** No bit of the word falls on a second that is sent as a marker. */
  predicate ClearAtMarkers(w: Word) {
    forall s :: 0 <= s < 60 && IsMarker(s) ==> !w[59 - s]
  }

  lemma MarkerPlaces(w: Word)
    requires !w[59] && !w[50] && !w[40] && !w[30] && !w[20] && !w[10] && !w[0]
    ensures ClearAtMarkers(w)
  {
  }

  // ----- Pulses -----

  /** Every second begins at one level for a time that says what it is, and goes on at another. */
  datatype PulseCode = PulseCode(level: Power, rest: Power, markerMs: int, oneMs: int, zeroMs: int)

  /** Only the pulse of a one ends between the receiver's two samples, and all end within the second. */
  predicate Readable(code: PulseCode) {
    && code.level != code.rest
    && 0 < code.markerMs < 1000 && 0 < code.oneMs < 1000 && 0 < code.zeroMs < 1000
    && 350 < code.oneMs <= 650
    && !(350 < code.markerMs <= 650) && !(350 < code.zeroMs <= 650)
  }

  function PulseMs(code: PulseCode, w: Word, second: nat): int {
    if IsMarker(second) then code.markerMs else if w[59 - second] then code.oneMs else code.zeroMs
  }

  /** The envelope of a second; second s sends the bit at position 59-s unless it is a marker. */
  function Pulse(code: PulseCode, w: Word, second: nat): (mod: Modulation)
    requires Readable(code)
    ensures WellFormed(mod) && Total(mod) == PulseMs(code, w, second) < 1000
  {
    TwoStepsWellFormed(code.level, PulseMs(code, w, second), code.rest);
    [Step(code.level, PulseMs(code, w, second)), Step(code.rest, 0)]
  }

  function PulseFrame(code: PulseCode, w: Word): (frame: seq<Modulation>)
    requires Readable(code)
    ensures |frame| == 60 && forall s :: 0 <= s < 60 ==> frame[s] != []
  {
    seq(60, s requires 0 <= s < 60 => Pulse(code, w, s))
  }

  /**
   A receiver samples each second twice: a pulse that is still there after 350 ms but not after 650 ms is a one.
   Second s goes to position 59-s.
   */
  function PulseBits(rx: Reception, level: Power): (bits: seq<bool>)
    ensures |bits| == 60
  {
    seq(60, i => rx(59 - i, 350) == level && rx(59 - i, 650) != level)
  }

  /** The reception shows the pulses of a word; of its last second, a marker, only that it does not look like a one. */
  ghost predicate PulsesHeard(rx: Reception, code: PulseCode, w: Word)
    requires Readable(code)
  {
    Shows(rx, PulseFrame(code, w), 0, 59) && !(rx(59, 350) == code.level && rx(59, 650) != code.level)
  }

  lemma SamplePulse(code: PulseCode, w: Word, s: nat)
    requires Readable(code) && s < 60
    ensures LevelAt(Pulse(code, w, s), 350 * MS) == code.level && LevelAt(Pulse(code, w, s), 650 * MS) != code.level
       <==> !IsMarker(s) && w[59 - s]
  {
    TwoLevels(code.level, PulseMs(code, w, s), code.rest, 350);
    TwoLevels(code.level, PulseMs(code, w, s), code.rest, 650);
  }

  /** The receiver gets the whole word back although seven of its seconds carried markers. */
  lemma PulsesReadBack(rx: Reception, code: PulseCode, w: Word)
    requires Readable(code) && PulsesHeard(rx, code, w) && ClearAtMarkers(w)
    ensures PulseBits(rx, code.level) == w[..60]
  {
    hide LevelAt;
    forall i | 0 <= i < 60
      ensures PulseBits(rx, code.level)[i] == w[i]
    {
      var s := 59 - i;
      if s < 59 {
        assert rx(s, 350) == LevelAt(PulseFrame(code, w)[s], 350 * MS);
        assert rx(s, 650) == LevelAt(PulseFrame(code, w)[s], 650 * MS);
        SamplePulse(code, w, s);
      } else {
        assert IsMarker(s);
      }
    }
  }
}
