/** DCF77 (Germany), `src/dcf77-source.cc`. */
module Dcf77 {
  import opened BitSeqs
  import opened Words
  import opened Bcd
  import opened Calendar
  import opened Signal

  // ----- The word of one minute -----

  function IsoWeekday(tm: Tm): nat
    requires Valid(tm)
  {
    if tm.wday != 0 then tm.wday else 7
  }

  /** Daylight-saving bits, start bit and the six numbers of a frame. */
  function Values(tm: Tm): (values: seq<Word>)
    requires Valid(tm)
    ensures |values| == 9
  {
    [ U64(if tm.isdst then 1 else 0), U64(if tm.isdst then 0 else 1), U64(1),
      ToBcd(tm.min), ToBcd(tm.hour), ToBcd(tm.mday), ToBcd(IsoWeekday(tm)), ToBcd(tm.mon + 1), ToBcd(tm.year % 100) ]
  }

  /** Where each value goes. */
  function Fields(values: seq<Word>): seq<Field>
    requires |values| == 9
  {
    [ Field(values[0], 17, 1), Field(values[1], 18, 1), Field(values[2], 20, 1),
      Field(values[3], 21, 7), Field(values[4], 29, 6), Field(values[5], 36, 6),
      Field(values[6], 42, 3), Field(values[7], 45, 5), Field(values[8], 50, 8) ]
  }

  /** The three parity bits, in the order they are added. */
  function WithParity(w: Word): Word {
    var minute := Or(w, Shl(ParityWord(w, 21, 27), 28));
    var hour := Or(minute, Shl(ParityWord(minute, 29, 34), 35));
    Or(hour, Shl(ParityWord(hour, 36, 57), 58))
  }

  function Encode(tm: Tm): Word
    requires Valid(tm)
  {
    WithParity(OrAll(Fields(Values(tm))))
  }

  function Envelope(w: Word, second: nat): (mod: Modulation)
    ensures WellFormed(mod) && Total(mod) < 1000
  {
    if second >= 59 then
      OneStepWellFormed(High);
      [Step(High, 0)]
    else
      var ms := if w[second] then 200 else 100;
      TwoStepsWellFormed(Low, ms, High);
      [Step(Low, ms), Step(High, 0)]
  }

  class Dcf77TimeSignalSource {
    var timeBits: Word
    const localtime: Zone

    constructor (zone: Zone)
      ensures localtime == zone
    {
      localtime := zone;
      timeBits := U64(0);
    }

    method PrepareMinute(t: int)
      modifies this
      ensures timeBits == Encode(localtime(t + 60))
    {
      hide ToBcd, U64, OrAll, Fields, Or, Shl, ParityWord;
      var breakdown := localtime(t + 60);  // the upcoming minute
      timeBits := U64(0);
      timeBits := Or(timeBits, Shl(U64(if breakdown.isdst then 1 else 0), 17));
      timeBits := Or(timeBits, Shl(U64(if breakdown.isdst then 0 else 1), 18));
      timeBits := Or(timeBits, Shl(U64(1), 20));
      timeBits := Or(timeBits, Shl(ToBcd(breakdown.min), 21));
      timeBits := Or(timeBits, Shl(ToBcd(breakdown.hour), 29));
      timeBits := Or(timeBits, Shl(ToBcd(breakdown.mday), 36));
      timeBits := Or(timeBits, Shl(ToBcd(if breakdown.wday != 0 then breakdown.wday else 7), 42));
      timeBits := Or(timeBits, Shl(ToBcd(breakdown.mon + 1), 45));
      timeBits := Or(timeBits, Shl(ToBcd(breakdown.year % 100), 50));
      Assembled(Values(breakdown));

      var p := Parity(timeBits, 21, 27);
      timeBits := Or(timeBits, Shl(p, 28));
      p := Parity(timeBits, 29, 34);
      timeBits := Or(timeBits, Shl(p, 35));
      p := Parity(timeBits, 36, 57);
      timeBits := Or(timeBits, Shl(p, 58));
    }

    method GetModulationForSecond(second: nat) returns (mod: Modulation)
      ensures mod == Envelope(timeBits, second)
    {
      if second >= 59 {
        return [Step(High, 0)];  // synchronisation
      }
      var bit := timeBits[second];
      return [Step(Low, if bit then 200 else 100), Step(High, 0)];
    }
  }

  lemma Assembled(v: seq<Word>)
    requires |v| == 9
    ensures var head := Or(Or(Or(U64(0), Shl(v[0], 17)), Shl(v[1], 18)), Shl(v[2], 20));
            Or(Or(Or(Or(Or(Or(head, Shl(v[3], 21)), Shl(v[4], 29)), Shl(v[5], 36)), Shl(v[6], 42)), Shl(v[7], 45)),
              Shl(v[8], 50))
            == OrAll(Fields(v))
  {
    var fields := Fields(v);
    OrNext(fields, 0);
    OrNext(fields, 1);
    OrNext(fields, 2);
    OrNext(fields, 3);
    OrNext(fields, 4);
    OrNext(fields, 5);
    OrNext(fields, 6);
    OrNext(fields, 7);
    OrNext(fields, 8);
  }

  /** The values fit their places, and no two share one. */
  lemma FieldsDisjoint(v: seq<Word>)
    requires |v| == 9 && Narrow(v[0], 1) && Narrow(v[1], 1) && Narrow(v[2], 1) && Narrow(v[3], 7) && Narrow(v[4], 6)
    requires Narrow(v[5], 6) && Narrow(v[6], 3) && Narrow(v[7], 5) && Narrow(v[8], 8)
    ensures Disjoint(Fields(v))
  {
  }

  // ----- Reception -----

  /** A receiver samples 150 ms into each second: still reduced means a long pulse, a one. */
  function Received(rx: Reception): (bits: seq<bool>)
    ensures |bits| == 59
  {
    seq(59, s => rx(s, 150) == Low)
  }

  function Frame(w: Word): (frame: seq<Modulation>)
    ensures |frame| == 60 && forall s :: 0 <= s < 60 ==> frame[s] != []
  {
    seq(60, s requires 0 <= s < 60 => Envelope(w, s))
  }

  function Decode(bits: seq<bool>): Stamp
    requires 59 <= |bits|
  {
    Stamp(BcdValue(bits[21..28]), BcdValue(bits[29..35]), ToNat(bits[42..45]), BcdValue(bits[36..42]),
          BcdValue(bits[45..50]), BcdValue(bits[50..58]), bits[17])
  }

  /** The three groups, parity bits included, hold even numbers of ones. */
  predicate ChecksPass(bits: seq<bool>)
    requires 59 <= |bits|
  {
    !OddCount(bits[21..29]) && !OddCount(bits[29..36]) && !OddCount(bits[36..59])
  }

  /** What a frame should say about `tm`. */
  function StampOf(tm: Tm): Stamp
    requires Valid(tm)
  {
    Stamp(tm.min, tm.hour, (tm.wday + 6) % 7 + 1, tm.mday, tm.mon + 1, tm.year % 100, tm.isdst)
  }

  /**
   What every frame has in common: the weather and announcement bits are zero, the two zone bits differ, the time
   starts with a one, and all digits are decimal.
   */
  predicate Regular(bits: seq<bool>)
    requires 59 <= |bits|
  {
    && (forall i :: 0 <= i < 17 ==> !bits[i]) && bits[17] != bits[18] && !bits[19] && bits[20]
    && IsBcd(bits[21..28]) && IsBcd(bits[29..35]) && IsBcd(bits[36..42]) && IsBcd(bits[45..50]) && IsBcd(bits[50..58])
  }

  /** The bits received say the time `tm`, and nothing else. */
  predicate Says(bits: seq<bool>, tm: Tm)
    requires Valid(tm) && 59 <= |bits|
  {
    Decode(bits) == StampOf(tm) && ChecksPass(bits) && Regular(bits)
  }

  /** There is one way to say a time. */
  lemma FrameDetermined(a: seq<bool>, b: seq<bool>, tm: Tm)
    requires Valid(tm) && |a| == |b| == 59 && Says(a, tm) && Says(b, tm)
    ensures a == b
  {
    hide BcdValue, IsBcd, ToNat, OddCount;
    BcdDetermines(a[21..28], b[21..28]);
    BcdDetermines(a[29..35], b[29..35]);
    BcdDetermines(a[36..42], b[36..42]);
    SameBits(a[42..45], b[42..45]);
    BcdDetermines(a[45..50], b[45..50]);
    BcdDetermines(a[50..58], b[50..58]);
    assert a[36..58] == a[36..42] + a[42..45] + a[45..50] + a[50..58];
    assert b[36..58] == b[36..42] + b[42..45] + b[45..50] + b[50..58];
    ParityBitCompletes(a, 21, 28);
    ParityBitCompletes(b, 21, 28);
    ParityBitCompletes(a, 29, 35);
    ParityBitCompletes(b, 29, 35);
    ParityBitCompletes(a, 36, 58);
    ParityBitCompletes(b, 36, 58);
    Pieces(a);
    Pieces(b);
  }

  lemma Pieces(a: seq<bool>)
    requires |a| == 59 && Regular(a)
    ensures a == Zeros(17) + [a[17], !a[17], false, true] + a[21..28] + [a[28]] + a[29..35] + [a[35]]
                 + a[36..58] + [a[58]]
  {
    hide IsBcd;
  }

  lemma ValuesFit(tm: Tm)
    requires Valid(tm)
    ensures Disjoint(Fields(Values(tm)))
    ensures var v := Values(tm);
            && v[0][0] == tm.isdst && v[1][0] == !tm.isdst && v[2][0]
            && BcdValue(v[3][..7]) == tm.min && BcdValue(v[4][..6]) == tm.hour && BcdValue(v[5][..6]) == tm.mday
            && ToNat(v[6][..3]) == IsoWeekday(tm) && BcdValue(v[7][..5]) == tm.mon + 1
               && BcdValue(v[8][..8]) == tm.year % 100
            && IsBcd(v[3][..7]) && IsBcd(v[4][..6]) && IsBcd(v[5][..6]) && IsBcd(v[7][..5]) && IsBcd(v[8][..8])
  {
    hide ToBcd, U64, BcdValue, IsBcd, ToNat;
    ParityIsBit(tm.isdst);
    ParityIsBit(!tm.isdst);
    ParityIsBit(true);
    SmallPowers();
    BcdRoundTrip(tm.min, 7);
    BcdRoundTrip(tm.hour, 6);
    BcdRoundTrip(tm.mday, 6);
    OneDigit(IsoWeekday(tm), 3);
    BcdRoundTrip(tm.mon + 1, 5);
    BcdRoundTrip(tm.year % 100, 8);
    FieldsDisjoint(Values(tm));
  }

  lemma FieldSlices(w: Word, v: seq<Word>)
    requires |v| == 9
    requires forall j :: 0 <= j < 9 ==> Extract(w, Fields(v)[j]) == v[j][..Fields(v)[j].width]
    ensures w[17] == v[0][0] && w[18] == v[1][0] && w[20] == v[2][0]
    ensures w[21..28] == v[3][..7] && w[29..35] == v[4][..6] && w[36..42] == v[5][..6]
    ensures w[42..45] == v[6][..3] && w[45..50] == v[7][..5] && w[50..58] == v[8][..8]
  {
  }

  lemma WordReadsBack(tm: Tm)
    requires Valid(tm)
    ensures var w := OrAll(Fields(Values(tm)));
            Decode(w) == StampOf(tm) && Regular(w) && !w[28] && !w[35] && !w[58]
  {
    hide ToBcd, U64, BcdValue, IsBcd, ToNat, OrAll, Values, Disjoint;
    var v := Values(tm);
    var fields := Fields(v);
    ValuesFit(tm);
    forall j | 0 <= j < 9
      ensures Extract(OrAll(fields), fields[j]) == fields[j].value[..fields[j].width]
    {
      FieldReadsBack(fields, j);
    }
    UncoveredClear(fields, 28);
    UncoveredClear(fields, 35);
    UncoveredClear(fields, 58);
    UncoveredClear(fields, 19);
    forall i | 0 <= i < 17
      ensures !OrAll(fields)[i]
    {
      UncoveredClear(fields, i);
    }
    FieldSlices(OrAll(fields), v);
  }

  /** Each parity bit makes its own group even and disturbs no other bit. */
  lemma ParityCompletes(w: Word)
    requires !w[28] && !w[35] && !w[58]
    ensures var r := WithParity(w);
            && ChecksPass(r)
            && r == w[28 := r[28]][35 := r[35]][58 := r[58]]
  {
    hide U64, Or, Shl, CountTrue;
    AddBit(w, OddCount(w[21..28]), 28);
    var m := w[28 := OddCount(w[21..28])];
    AddBit(m, OddCount(m[29..35]), 35);
    var h := m[35 := OddCount(m[29..35])];
    AddBit(h, OddCount(h[36..58]), 58);
    var r := WithParity(w);
    assert r == h[58 := OddCount(h[36..58])];
    assert r[21..28] == w[21..28] && r[29..35] == m[29..35] && r[36..58] == h[36..58];
    ParityBitCompletes(r, 21, 28);
    ParityBitCompletes(r, 29, 35);
    ParityBitCompletes(r, 36, 58);
  }

  /** Everything a receiver reads from a frame of local time `tm`. */
  lemma FrameSays(tm: Tm)
    requires Valid(tm)
    ensures Says(Encode(tm), tm)
  {
    hide ToBcd, U64, BcdValue, IsBcd, ToNat, OrAll, Values, Fields, WithParity, ChecksPass;
    var w := OrAll(Fields(Values(tm)));
    WordReadsBack(tm);
    ParityCompletes(w);
    var r := WithParity(w);
    assert r[21..28] == w[21..28] && r[29..35] == w[29..35] && r[36..42] == w[36..42];
    assert r[42..45] == w[42..45] && r[45..50] == w[45..50] && r[50..58] == w[50..58];
  }

  /** A second takes the carrier down for 100 ms, or for 200 ms if its bit is set; second 59 leaves it up. */
  lemma SecondLevel(w: Word, s: nat, ms: nat)
    requires ms < 1000
    ensures LevelAt(Envelope(w, s), ms * MS) == if s < 59 && ms < (if w[s] then 200 else 100) then Low else High
  {
    if s < 59 {
      TwoLevels(Low, if w[s] then 200 else 100, High, ms);
    }
  }

  lemma ReceivedIsWord(rx: Reception, w: Word)
    requires Shows(rx, Frame(w), 0, 59)
    ensures Received(rx) == w[..59]
  {
    forall s | 0 <= s < 59
      ensures Received(rx)[s] == w[s]
    {
      assert rx(s, 150) == LevelAt(Frame(w)[s], 150 * MS);
      var mod := Envelope(w, s);
      assert LevelAt(mod[1..], 150 * MS - mod[0].ms * MS) == High;
    }
  }

  /** From the local time of the upcoming minute through word, envelope and receiver back to that time. */
  lemma RoundTrip(tm: Tm, rx: Reception)
    requires Valid(tm) && Shows(rx, Frame(Encode(tm)), 0, 59)
    ensures Says(Received(rx), tm)
  {
    hide Encode, BcdValue, IsBcd, StampOf, OddCount, Frame, Shows;
    var w := Encode(tm);
    FrameSays(tm);
    ReceivedIsWord(rx, w);
    var b := w[..59];
    assert b[21..28] == w[21..28] && b[29..35] == w[29..35] && b[36..42] == w[36..42];
    assert b[42..45] == w[42..45] && b[45..50] == w[45..50] && b[50..58] == w[50..58];
    assert b[21..29] == w[21..29] && b[29..36] == w[29..36] && b[36..59] == w[36..59];
  }

  // ----- Transmission errors -----

  /** A misread frame passes all three checks exactly when every group has an even number of misread bits. */
  lemma ErrorsDetected(bits: seq<bool>, errors: seq<bool>)
    requires |bits| == |errors| == 59 && ChecksPass(bits)
    ensures ChecksPass(Flip(bits, errors)) <==> ChecksPass(errors)
  {
    hide OddCount;
    FlipRange(bits, errors, 21, 29);
    FlipRange(bits, errors, 29, 36);
    FlipRange(bits, errors, 36, 59);
    ErrorDetected(bits[21..29], errors[21..29]);
    ErrorDetected(bits[29..36], errors[29..36]);
    ErrorDetected(bits[36..59], errors[36..59]);
  }

  /** Frames of two times that differ inside a group differ there in at least two bits. */
  lemma FramesApart(a: Tm, b: Tm)
    requires Valid(a) && Valid(b)
    ensures var v, w := Encode(a), Encode(b);
            && (v[21..29] != w[21..29] ==> Distance(v[21..29], w[21..29]) >= 2)
            && (v[29..36] != w[29..36] ==> Distance(v[29..36], w[29..36]) >= 2)
            && (v[36..59] != w[36..59] ==> Distance(v[36..59], w[36..59]) >= 2)
    ensures StampOf(a).min != StampOf(b).min ==> Encode(a)[21..29] != Encode(b)[21..29]
    ensures StampOf(a).hour != StampOf(b).hour ==> Encode(a)[29..36] != Encode(b)[29..36]
  {
    hide Encode, BcdValue, OddCount, Distance, Regular;
    var v, w := Encode(a), Encode(b);
    FrameSays(a);
    FrameSays(b);
    if v[21..29] != w[21..29] {
      ParityDistance(v[21..29], w[21..29]);
    }
    if v[29..36] != w[29..36] {
      ParityDistance(v[29..36], w[29..36]);
    }
    if v[36..59] != w[36..59] {
      ParityDistance(v[36..59], w[36..59]);
    }
    assert v[21..28] == v[21..29][..7] && w[21..28] == w[21..29][..7];
    assert v[29..35] == v[29..36][..6] && w[29..35] == w[29..36][..6];
  }
}
