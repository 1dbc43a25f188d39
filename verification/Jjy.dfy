/** JJY (Japan), both carrier frequencies, `src/jjy-source.cc`. */
module Jjy {
  import opened BitSeqs
  import opened Words
  import opened Bcd
  import opened Calendar
  import opened Signal
  import opened Markers

  // ----- The word of one minute -----

  /** Minute, hour, day of year, year and weekday. */
  function Values(tm: Tm): (values: seq<Word>)
    requires Valid(tm)
    ensures |values| == 5
  {
    [ ToPadded5Bcd(tm.min), ToPadded5Bcd(tm.hour), ToPadded5Bcd(tm.yday + 1), ToBcd3(tm.year % 100), ToBcd3(tm.wday) ]
  }

  function Fields(values: seq<Word>): seq<Field>
    requires |values| == 5
  {
    [ Field(values[0], 51, 8), Field(values[1], 41, 7), Field(values[2], 26, 12), Field(values[3], 11, 8),
      Field(values[4], 7, 3) ]
  }

  /** The hour's and the minute's parity bits, in the order they are added. */
  function WithParity(w: Word): Word {
    var pa1 := Or(w, Shl(ParityWord(w, 41, 47), 23));
    Or(pa1, Shl(ParityWord(pa1, 51, 58), 22))
  }

  function Encode(tm: Tm): Word
    requires Valid(tm)
  {
    WithParity(OrAll(Fields(Values(tm))))
  }

  /** Full power for 200 ms is a marker, for 500 ms a one, for 800 ms a zero. */
  const CODE := PulseCode(High, Low, 200, 500, 800)

  class JjyTimeSignalSource {
    var timeBits: Word
    const localtime: Zone

    constructor (zone: Zone)
      ensures localtime == zone
    {
      localtime := zone;
      timeBits := U64(0);
    }

    method PrepareMinute(t: int)
      modifies this
      ensures timeBits == Encode(localtime(t))
    {
      hide ToPadded5Bcd, ToBcd3, U64, OrAll, Fields, Or, Shl, ParityWord;
      var breakdown := localtime(t);
      timeBits := U64(0);
      timeBits := Or(timeBits, Shl(ToPadded5Bcd(breakdown.min), 59 - 8));
      timeBits := Or(timeBits, Shl(ToPadded5Bcd(breakdown.hour), 59 - 18));
      timeBits := Or(timeBits, Shl(ToPadded5Bcd(breakdown.yday + 1), 59 - 33));
      timeBits := Or(timeBits, Shl(ToBcd3(breakdown.year % 100), 59 - 48));
      timeBits := Or(timeBits, Shl(ToBcd3(breakdown.wday), 59 - 52));
      Assembled(Values(breakdown));

      var p := Parity(timeBits, 59 - 18, 59 - 12);
      timeBits := Or(timeBits, Shl(p, 59 - 36));  // PA1
      p := Parity(timeBits, 59 - 8, 59 - 1);
      timeBits := Or(timeBits, Shl(p, 59 - 37));  // PA2
    }

    method GetModulationForSecond(second: nat) returns (mod: Modulation)
      ensures mod == Pulse(CODE, timeBits, second)
    {
      if second == 0 || second % 10 == 9 || second > 59 {
        return [Step(High, 200), Step(Low, 0)];
      }
      var bit := timeBits[59 - second];
      return [Step(High, if bit then 500 else 800), Step(Low, 0)];
    }
  }

  lemma Assembled(v: seq<Word>)
    requires |v| == 5
    ensures Or(Or(Or(Or(Or(U64(0), Shl(v[0], 51)), Shl(v[1], 41)), Shl(v[2], 26)), Shl(v[3], 11)), Shl(v[4], 7))
            == OrAll(Fields(v))
  {
    var fields := Fields(v);
    OrNext(fields, 0);
    OrNext(fields, 1);
    OrNext(fields, 2);
    OrNext(fields, 3);
    OrNext(fields, 4);
  }

  lemma FieldsDisjoint(v: seq<Word>)
    requires |v| == 5 && Narrow(v[0], 8) && Narrow(v[1], 7) && Narrow(v[2], 12) && Narrow(v[3], 8) && Narrow(v[4], 3)
    ensures Disjoint(Fields(v))
  {
  }

  // ----- Reception -----

  datatype JjyStamp = JjyStamp(min: int, hour: int, dayOfYear: int, year: int, wday: int)

  function Decode(bits: seq<bool>): JjyStamp
    requires 60 <= |bits|
  {
    JjyStamp(PaddedValue(bits[51..59]), PaddedValue(bits[41..48]), PaddedValue(bits[26..38]), BcdValue(bits[11..19]),
      ToNat(bits[7..10]))
  }

  function StampOf(tm: Tm): JjyStamp
    requires Valid(tm)
  {
    JjyStamp(tm.min, tm.hour, tm.yday + 1, tm.year % 100, tm.wday)
  }

  /** The places that no field uses: markers, the reserved, spare and leap second bits. */
  predicate Unused(i: nat) {
    i <= 6 || i == 10 || 19 <= i <= 21 || 24 <= i <= 25 || 38 <= i <= 40 || 48 <= i <= 50 || i == 59
  }

  /** What every frame has in common: zeros where nothing is said, and decimal digits with zeros between them. */
  predicate Regular(bits: seq<bool>)
    requires 60 <= |bits|
  {
    && (forall i :: 0 <= i < 60 && Unused(i) ==> !bits[i])
    && IsPadded(bits[51..59]) && IsPadded(bits[41..48]) && IsPadded(bits[26..38]) && IsBcd(bits[11..19])
  }

  /** The bits received say the time `tm`, and nothing else. */
  predicate Says(bits: seq<bool>, tm: Tm)
    requires Valid(tm) && 60 <= |bits|
  {
    Decode(bits) == StampOf(tm) && ChecksPass(bits) && Regular(bits)
  }

  /** There is one way to say a time. */
  lemma FrameDetermined(a: seq<bool>, b: seq<bool>, tm: Tm)
    requires Valid(tm) && |a| == |b| == 60 && Says(a, tm) && Says(b, tm)
    ensures a == b
  {
    hide PaddedValue, IsPadded, BcdValue, IsBcd, ToNat, OddCount;
    PaddedDetermines(a[51..59], b[51..59]);
    PaddedDetermines(a[41..48], b[41..48]);
    PaddedDetermines(a[26..38], b[26..38]);
    BcdDetermines(a[11..19], b[11..19]);
    SameBits(a[7..10], b[7..10]);
    AppendedParity(a[41..48], a[23]);
    AppendedParity(b[41..48], b[23]);
    AppendedParity(a[51..59], a[22]);
    AppendedParity(b[51..59], b[22]);
    LowPieces(a);
    LowPieces(b);
    HighPieces(a);
    HighPieces(b);
    assert a == a[..26] + a[26..] && b == b[..26] + b[26..];
  }

  lemma LowPieces(a: seq<bool>)
    requires |a| == 60 && Regular(a)
    ensures a[..26] == Zeros(7) + a[7..10] + [false] + a[11..19] + Zeros(3) + [a[22], a[23]] + Zeros(2)
  {
    hide IsPadded, IsBcd;
  }

  lemma HighPieces(a: seq<bool>)
    requires |a| == 60 && Regular(a)
    ensures a[26..] == a[26..38] + Zeros(3) + a[41..48] + Zeros(3) + a[51..59] + [false]
  {
    hide IsPadded, IsBcd;
  }

  /** Hour with PA1 and minute with PA2 hold even numbers of ones. */
  predicate ChecksPass(bits: seq<bool>)
    requires 60 <= |bits|
  {
    !OddCount(bits[41..48] + [bits[23]]) && !OddCount(bits[51..59] + [bits[22]])
  }

  lemma ValuesFit(tm: Tm)
    requires Valid(tm)
    ensures var v := Values(tm);
            && Disjoint(Fields(v))
            && PaddedValue(v[0][..8]) == tm.min && PaddedValue(v[1][..7]) == tm.hour
               && PaddedValue(v[2][..12]) == tm.yday + 1
            && BcdValue(v[3][..8]) == tm.year % 100 && ToNat(v[4][..3]) == tm.wday
            && !v[2][4]
            && IsPadded(v[0][..8]) && IsPadded(v[1][..7]) && IsPadded(v[2][..12]) && IsBcd(v[3][..8])
  {
    hide ToPadded5Bcd, ToBcd, ToBcd3, U64, PaddedValue, IsPadded, BcdValue, IsBcd, ToNat;
    SmallPowers();
    PaddedRoundTrip(tm.min, 8);
    PaddedRoundTrip(tm.hour, 7);
    PaddedRoundTrip(tm.yday + 1, 12);
    ToBcd3IsToBcd(tm.year % 100);
    BcdRoundTrip(tm.year % 100, 8);
    ToBcd3IsToBcd(tm.wday);
    OneDigit(tm.wday, 3);
    FieldsDisjoint(Values(tm));
  }

  lemma FieldSlices(w: Word, v: seq<Word>)
    requires |v| == 5
    requires forall j :: 0 <= j < 5 ==> Extract(w, Fields(v)[j]) == v[j][..Fields(v)[j].width]
    ensures w[51..59] == v[0][..8] && w[41..48] == v[1][..7] && w[26..38] == v[2][..12] && w[11..19] == v[3][..8]
            && w[7..10] == v[4][..3]
    ensures w[30] == v[2][4]
  {
  }

  lemma WordReadsBack(tm: Tm)
    requires Valid(tm)
    ensures var w := OrAll(Fields(Values(tm)));
            && Decode(w) == StampOf(tm) && Regular(w) && !w[22] && !w[23] && !w[30]
  {
    hide ToPadded5Bcd, ToBcd3, PaddedValue, IsPadded, BcdValue, IsBcd, ToNat, OrAll, Values, Disjoint;
    var v := Values(tm);
    var fields := Fields(v);
    ValuesFit(tm);
    forall j | 0 <= j < 5
      ensures Extract(OrAll(fields), fields[j]) == fields[j].value[..fields[j].width]
    {
      FieldReadsBack(fields, j);
    }
    FieldSlices(OrAll(fields), v);
    UncoveredClear(fields, 22);
    UncoveredClear(fields, 23);
    forall i | 0 <= i < 60 && Unused(i)
      ensures !OrAll(fields)[i]
    {
      UncoveredClear(fields, i);
    }
  }

  lemma ParityCompletes(w: Word)
    requires !w[22] && !w[23]
    ensures var r := WithParity(w); ChecksPass(r) && r == w[22 := r[22]][23 := r[23]]
  {
    hide U64, Or, Shl, CountTrue;
    AddBit(w, OddCount(w[41..48]), 23);
    var h := w[23 := OddCount(w[41..48])];
    AddBit(h, OddCount(h[51..59]), 22);
    var r := WithParity(w);
    assert r == h[22 := OddCount(h[51..59])];
    assert r[41..48] == w[41..48] && r[51..59] == h[51..59];
    AppendedParity(r[41..48], r[23]);
    AppendedParity(r[51..59], r[22]);
  }

  lemma FrameSays(tm: Tm)
    requires Valid(tm)
    ensures Says(Encode(tm), tm) && ClearAtMarkers(Encode(tm))
  {
    hide PaddedValue, IsPadded, BcdValue, IsBcd, ToNat, OrAll, Values, Fields, WithParity, ChecksPass, ClearAtMarkers;
    var w := OrAll(Fields(Values(tm)));
    WordReadsBack(tm);
    ParityCompletes(w);
    var r := WithParity(w);
    assert r[51..59] == w[51..59] && r[41..48] == w[41..48] && r[26..38] == w[26..38] && r[11..19] == w[11..19]
           && r[7..10] == w[7..10];
    MarkerPlaces(r);
  }

  /** A second holds the carrier up for 200 ms if it is a marker, otherwise for 500 or 800 ms as its bit says. */
  lemma SecondLevel(w: Word, s: nat, ms: nat)
    requires ms < 1000
    ensures var up := if s == 0 || s % 10 == 9 || s > 59 then 200 else if w[59 - s] then 500 else 800;
            LevelAt(Pulse(CODE, w, s), ms * MS) == if ms < up then High else Low
  {
    TwoLevels(High, PulseMs(CODE, w, s), Low, ms);
  }

  lemma RoundTrip(tm: Tm, rx: Reception)
    requires Valid(tm) && PulsesHeard(rx, CODE, Encode(tm))
    ensures PulseBits(rx, High) == Encode(tm)[..60] && Says(PulseBits(rx, High), tm)
  {
    hide Encode, PaddedValue, IsPadded, BcdValue, IsBcd, StampOf, OddCount, PulsesHeard, PulseBits, ClearAtMarkers;
    var w := Encode(tm);
    FrameSays(tm);
    PulsesReadBack(rx, CODE, w);
    var b := w[..60];
    assert b[51..59] == w[51..59] && b[41..48] == w[41..48] && b[26..38] == w[26..38] && b[11..19] == w[11..19]
           && b[7..10] == w[7..10];
  }

  // ----- Transmission errors -----

  /** A misread frame passes both checks exactly when each group has an even number of misread bits. */
  lemma ErrorsDetected(bits: seq<bool>, errors: seq<bool>)
    requires |bits| == |errors| == 60 && ChecksPass(bits)
    ensures ChecksPass(Flip(bits, errors)) <==> ChecksPass(errors)
  {
    hide OddCount;
    FlipGroup(bits, errors, 41, 48, 23);
    FlipGroup(bits, errors, 51, 59, 22);
    ErrorDetected(bits[41..48] + [bits[23]], errors[41..48] + [errors[23]]);
    ErrorDetected(bits[51..59] + [bits[22]], errors[51..59] + [errors[22]]);
  }

  /** Frames of two times that differ in hour or minute differ there in at least two bits, parity included. */
  lemma FramesApart(a: Tm, b: Tm)
    requires Valid(a) && Valid(b)
    ensures var v, w := Encode(a), Encode(b);
            && (a.hour != b.hour ==> Distance(v[41..48] + [v[23]], w[41..48] + [w[23]]) >= 2)
            && (a.min != b.min ==> Distance(v[51..59] + [v[22]], w[51..59] + [w[22]]) >= 2)
  {
    hide Encode, PaddedValue, BcdValue, OddCount, Distance, Regular;
    var v, w := Encode(a), Encode(b);
    FrameSays(a);
    FrameSays(b);
    if a.hour != b.hour {
      var x, y := v[41..48] + [v[23]], w[41..48] + [w[23]];
      assert x[..7] == v[41..48] && y[..7] == w[41..48];
      ParityDistance(x, y);
    }
    if a.min != b.min {
      var x, y := v[51..59] + [v[22]], w[51..59] + [w[22]];
      assert x[..8] == v[51..59] && y[..8] == w[51..59];
      ParityDistance(x, y);
    }
  }
}
