/** MSF (United Kingdom), `src/msf-source.cc`. */
module Msf {
  import opened BitSeqs
  import opened Words
  import opened Bcd
  import opened Calendar
  import opened Signal

  // ----- The two words of one minute -----

  /** The minute identifier, year, month, day, weekday, hour and minute. */
  function Values(tm: Tm): (values: seq<Word>)
    requires Valid(tm)
    ensures |values| == 7
  {
    [ U64(126), ToBcd(tm.year % 100), ToBcd(tm.mon + 1), ToBcd(tm.mday), ToBcd(tm.wday), ToBcd(tm.hour), ToBcd(tm.min) ]
  }

  function Fields(values: seq<Word>): seq<Field>
    requires |values| == 7
  {
    [ Field(values[0], 0, 8), Field(values[1], 35, 8), Field(values[2], 30, 5), Field(values[3], 24, 6),
      Field(values[4], 21, 3), Field(values[5], 15, 6), Field(values[6], 8, 7) ]
  }

  function EncodeA(tm: Tm): Word
    requires Valid(tm)
  {
    OrAll(Fields(Values(tm)))
  }

  /** The value of `odd_parity`: 1 when an even number of the bits lo..hi is set. */
  function OddParityWord(w: Word, lo: nat, hi: nat): Word
    requires lo <= hi < 64
  {
    U64(if OddCount(w[lo..hi + 1]) then 0 else 1)
  }

  /** Parity of year, date, weekday and time, and summer time. */
  function EncodeB(a: Word, isdst: bool): Word {
    Or(Or(Or(Or(Or(U64(0), Shl(OddParityWord(a, 35, 42), 5)), Shl(OddParityWord(a, 24, 34), 4)),
             Shl(OddParityWord(a, 21, 23), 3)), Shl(OddParityWord(a, 8, 20), 2)), Shl(U64(if isdst then 1 else 0), 1))
  }

  function Envelope(a: Word, b: Word, second: nat): (mod: Modulation)
    requires second < 60
    ensures mod != []
  {
    if second == 0 then [Step(Off, 500), Step(High, 0)]
    else [Step(Off, 100), Step(if a[59 - second] then Off else High, 100),
      Step(if b[59 - second] then Off else High, 100), Step(High, 0)]
  }

  method OddParity(d: Word, from: nat, toIncluding: nat) returns (p: Word)
    requires from <= toIncluding < 64
    ensures p == OddParityWord(d, from, toIncluding)
  {
    var result := 0;
    var bit := from;
    while bit <= toIncluding
      invariant from <= bit <= toIncluding + 1
      invariant result + CountTrue(d[bit..toIncluding + 1]) == CountTrue(d[from..toIncluding + 1])
    {
      CountRange(d, bit, toIncluding + 1);
      if d[bit] {
        result := result + 1;
      }
      bit := bit + 1;
    }
    p := U64(if result % 2 == 0 then 1 else 0);
  }

  class MsfTimeSignalSource {
    var aBits: Word
    var bBits: Word
    const localtime: Zone

    constructor (zone: Zone)
      ensures localtime == zone
    {
      localtime := zone;
      aBits, bBits := U64(0), U64(0);
    }

    method PrepareMinute(t: int)
      modifies this
      ensures aBits == EncodeA(localtime(t + 60))
      ensures bBits == EncodeB(aBits, localtime(t + 60).isdst)
    {
      hide ToBcd, U64, OrAll, Fields, Or, Shl, OddParityWord;
      var breakdown := localtime(t + 60);  // the upcoming minute
      aBits := U64(126);  // 0b1111110
      aBits := Or(aBits, Shl(ToBcd(breakdown.year % 100), 59 - 24));
      aBits := Or(aBits, Shl(ToBcd(breakdown.mon + 1), 59 - 29));
      aBits := Or(aBits, Shl(ToBcd(breakdown.mday), 59 - 35));
      aBits := Or(aBits, Shl(ToBcd(breakdown.wday), 59 - 38));
      aBits := Or(aBits, Shl(ToBcd(breakdown.hour), 59 - 44));
      aBits := Or(aBits, Shl(ToBcd(breakdown.min), 59 - 51));
      Assembled(Values(breakdown));

      bBits := U64(0);
      var p := OddParity(aBits, 59 - 24, 59 - 17);  // year
      bBits := Or(bBits, Shl(p, 59 - 54));
      p := OddParity(aBits, 59 - 35, 59 - 25);      // month and day
      bBits := Or(bBits, Shl(p, 59 - 55));
      p := OddParity(aBits, 59 - 38, 59 - 36);      // weekday
      bBits := Or(bBits, Shl(p, 59 - 56));
      p := OddParity(aBits, 59 - 51, 59 - 39);      // hour and minute
      bBits := Or(bBits, Shl(p, 59 - 57));
      bBits := Or(bBits, Shl(U64(if breakdown.isdst then 1 else 0), 59 - 58));
    }

    method GetModulationForSecond(second: nat) returns (mod: Modulation)
      requires second < 60
      ensures mod == Envelope(aBits, bBits, second)
    {
      if second == 0 {
        return [Step(Off, 500), Step(High, 0)];
      }
      var a := aBits[59 - second];
      var b := bBits[59 - second];
      return [Step(Off, 100), Step(if a then Off else High, 100), Step(if b then Off else High, 100), Step(High, 0)];
    }
  }

  lemma Assembled(v: seq<Word>)
    requires |v| == 7
    ensures Or(Or(Or(Or(Or(Or(v[0], Shl(v[1], 35)), Shl(v[2], 30)), Shl(v[3], 24)), Shl(v[4], 21)), Shl(v[5], 15)),
              Shl(v[6], 8)) == OrAll(Fields(v))
  {
    var fields := Fields(v);
    OrNext(fields, 0);
    FirstField(v[0]);
    OrNext(fields, 1);
    OrNext(fields, 2);
    OrNext(fields, 3);
    OrNext(fields, 4);
    OrNext(fields, 5);
    OrNext(fields, 6);
  }

  lemma FieldsDisjoint(v: seq<Word>)
    requires |v| == 7 && Narrow(v[0], 8) && Narrow(v[1], 8) && Narrow(v[2], 5) && Narrow(v[3], 6)
    requires Narrow(v[4], 3) && Narrow(v[5], 6) && Narrow(v[6], 7)
    ensures Disjoint(Fields(v))
  {
  }

  // ----- Reception -----

  function Frame(a: Word, b: Word): (frame: seq<Modulation>)
    ensures |frame| == 60 && forall s :: 0 <= s < 60 ==> frame[s] != []
  {
    seq(60, s requires 0 <= s < 60 => Envelope(a, b, s))
  }

  /** The carrier off 150 ms into second s is an A one; second s goes to position 59-s. Second 0 is the minute mark. */
  function ReceivedA(rx: Reception): (bits: seq<bool>)
    ensures |bits| == 59
  {
    seq(59, i => rx(59 - i, 150) == Off)
  }

  /** The carrier off 250 ms into second s is a B one. */
  function ReceivedB(rx: Reception): (bits: seq<bool>)
    ensures |bits| == 59
  {
    seq(59, i => rx(59 - i, 250) == Off)
  }

  function Decode(a: seq<bool>, b: seq<bool>): Stamp
    requires 59 <= |a| && 59 <= |b|
  {
    Stamp(BcdValue(a[8..15]), BcdValue(a[15..21]), ToNat(a[21..24]), BcdValue(a[24..30]), BcdValue(a[30..35]),
      BcdValue(a[35..43]), b[1])
  }

  /** Year, date, weekday and time hold an odd number of ones, their B bits included. */
  predicate ChecksPass(a: seq<bool>, b: seq<bool>)
    requires 59 <= |a| && 59 <= |b|
  {
    OddCount(a[35..43] + [b[5]]) && OddCount(a[24..35] + [b[4]]) && OddCount(a[21..24] + [b[3]])
      && OddCount(a[8..21] + [b[2]])
  }

  function StampOf(tm: Tm): Stamp
    requires Valid(tm)
  {
    Stamp(tm.min, tm.hour, tm.wday, tm.mday, tm.mon + 1, tm.year % 100, tm.isdst)
  }

  /** What the A bits of every frame have in common: nothing before the year, the identifier, decimal digits. */
  predicate RegularA(a: seq<bool>)
    requires 59 <= |a|
  {
    && (forall i :: 43 <= i < 59 ==> !a[i])
    && !a[0] && (forall i :: 1 <= i < 7 ==> a[i]) && !a[7]
    && IsBcd(a[8..15]) && IsBcd(a[15..21]) && IsBcd(a[24..30]) && IsBcd(a[30..35]) && IsBcd(a[35..43])
  }

  /** And the B bits: nothing but parity and summer time, no correction and no warning. */
  predicate RegularB(b: seq<bool>)
    requires 59 <= |b|
  {
    !b[0] && forall i :: 6 <= i < 59 ==> !b[i]
  }

  /** The bits received say the time `tm`, and nothing else. */
  predicate Says(a: seq<bool>, b: seq<bool>, tm: Tm)
    requires Valid(tm) && 59 <= |a| && 59 <= |b|
  {
    Decode(a, b) == StampOf(tm) && ChecksPass(a, b) && RegularA(a) && RegularB(b)
  }

  /** There is one way to say a time. */
  lemma FrameDetermined(a: seq<bool>, b: seq<bool>, c: seq<bool>, d: seq<bool>, tm: Tm)
    requires Valid(tm) && |a| == |b| == |c| == |d| == 59 && Says(a, b, tm) && Says(c, d, tm)
    ensures a == c && b == d
  {
    hide BcdValue, IsBcd, ToNat, OddCount;
    BcdDetermines(a[8..15], c[8..15]);
    BcdDetermines(a[15..21], c[15..21]);
    SameBits(a[21..24], c[21..24]);
    BcdDetermines(a[24..30], c[24..30]);
    BcdDetermines(a[30..35], c[30..35]);
    BcdDetermines(a[35..43], c[35..43]);
    Pieces(a);
    Pieces(c);
    ParityForced(a, b);
    ParityForced(c, d);
  }

  lemma Pieces(a: seq<bool>)
    requires |a| == 59 && RegularA(a)
    ensures a == [false, true, true, true, true, true, true, false] + a[8..15] + a[15..21] + a[21..24] + a[24..30]
                 + a[30..35] + a[35..43] + Zeros(16)
  {
    hide IsBcd;
  }

  lemma ParityForced(a: seq<bool>, b: seq<bool>)
    requires |a| == |b| == 59 && ChecksPass(a, b)
    ensures b[5] == !OddCount(a[35..43]) && b[4] == !OddCount(a[24..35])
    ensures b[3] == !OddCount(a[21..24]) && b[2] == !OddCount(a[8..21])
  {
    hide OddCount;
    AppendedParity(a[35..43], b[5]);
    AppendedParity(a[24..35], b[4]);
    AppendedParity(a[21..24], b[3]);
    AppendedParity(a[8..21], b[2]);
  }

  lemma Identifier()
    ensures var i := U64(126);
            Narrow(i, 8) && !i[0] && i[1] && i[2] && i[3] && i[4] && i[5] && i[6] && !i[7]
  {
    assert Pow2(7) == 128;
    HighBits(126, 7, 64);
  }

  lemma ValuesFit(tm: Tm)
    requires Valid(tm)
    ensures var v := Values(tm);
            && Disjoint(Fields(v))
            && BcdValue(v[1][..8]) == tm.year % 100 && BcdValue(v[2][..5]) == tm.mon + 1
               && BcdValue(v[3][..6]) == tm.mday
            && ToNat(v[4][..3]) == tm.wday && BcdValue(v[5][..6]) == tm.hour && BcdValue(v[6][..7]) == tm.min
            && IsBcd(v[1][..8]) && IsBcd(v[2][..5]) && IsBcd(v[3][..6]) && IsBcd(v[5][..6]) && IsBcd(v[6][..7])
  {
    hide ToBcd, U64, BcdValue, IsBcd, ToNat;
    SmallPowers();
    Identifier();
    BcdRoundTrip(tm.year % 100, 8);
    BcdRoundTrip(tm.mon + 1, 5);
    BcdRoundTrip(tm.mday, 6);
    OneDigit(tm.wday, 3);
    BcdRoundTrip(tm.hour, 6);
    BcdRoundTrip(tm.min, 7);
    FieldsDisjoint(Values(tm));
  }

  lemma FieldSlices(w: Word, v: seq<Word>)
    requires |v| == 7
    requires forall j :: 0 <= j < 7 ==> Extract(w, Fields(v)[j]) == v[j][..Fields(v)[j].width]
    ensures w[0..8] == v[0][..8] && w[35..43] == v[1][..8] && w[30..35] == v[2][..5] && w[24..30] == v[3][..6]
    ensures w[21..24] == v[4][..3] && w[15..21] == v[5][..6] && w[8..15] == v[6][..7]
  {
  }

  /** The A word holds the seven values, each in its place, and nothing above the year. */
  lemma WordHolds(tm: Tm)
    requires Valid(tm)
    ensures var w, v := EncodeA(tm), Values(tm);
            && w[0..8] == v[0][..8] && w[35..43] == v[1][..8] && w[30..35] == v[2][..5] && w[24..30] == v[3][..6]
            && w[21..24] == v[4][..3] && w[15..21] == v[5][..6] && w[8..15] == v[6][..7]
            && forall i :: 43 <= i < 64 ==> !w[i]
  {
    hide OrAll, Values, Disjoint, BcdValue, ToNat;
    var v := Values(tm);
    var fields := Fields(v);
    ValuesFit(tm);
    forall j | 0 <= j < 7
      ensures Extract(OrAll(fields), fields[j]) == fields[j].value[..fields[j].width]
    {
      FieldReadsBack(fields, j);
    }
    FieldSlices(OrAll(fields), v);
    forall i | 43 <= i < 64
      ensures !OrAll(fields)[i]
    {
      UncoveredClear(fields, i);
    }
  }

  lemma IdentifierSent(tm: Tm)
    requires Valid(tm)
    ensures var w := EncodeA(tm); !w[0] && w[1] && w[2] && w[3] && w[4] && w[5] && w[6] && !w[7]
  {
    hide EncodeA, ToBcd, ToNat;
    var w := EncodeA(tm);
    WordHolds(tm);
    Identifier();
    var i := U64(126)[..8];
    assert w[0] == w[0..8][0] == i[0] && w[1] == w[0..8][1] == i[1] && w[2] == w[0..8][2] == i[2]
           && w[3] == w[0..8][3] == i[3];
    assert w[4] == w[0..8][4] == i[4] && w[5] == w[0..8][5] == i[5] && w[6] == w[0..8][6] == i[6]
           && w[7] == w[0..8][7] == i[7];
  }

  /** The B bits: each completes its group to an odd count, and bit 1 is summer time. */
  lemma ParityCompletes(a: Word, isdst: bool)
    ensures var b := EncodeB(a, isdst); ChecksPass(a, b) && b[1] == isdst && RegularB(b)
  {
    hide U64, Or, Shl, CountTrue;
    var y, d, w, t := !OddCount(a[35..43]), !OddCount(a[24..35]), !OddCount(a[21..24]), !OddCount(a[8..21]);
    var b0 := U64(0);
    ZeroWord();
    AddBit(b0, y, 5);
    var b1 := b0[5 := y];
    AddBit(b1, d, 4);
    var b2 := b1[4 := d];
    AddBit(b2, w, 3);
    var b3 := b2[3 := w];
    AddBit(b3, t, 2);
    var b4 := b3[2 := t];
    AddBit(b4, isdst, 1);
    assert EncodeB(a, isdst) == b4[1 := isdst];
    AppendedParity(a[35..43], y);
    AppendedParity(a[24..35], d);
    AppendedParity(a[21..24], w);
    AppendedParity(a[8..21], t);
  }

  lemma FrameSays(tm: Tm)
    requires Valid(tm)
    ensures Says(EncodeA(tm), EncodeB(EncodeA(tm), tm.isdst), tm)
  {
    hide EncodeA, EncodeB, Values, Disjoint, BcdValue, IsBcd, ToNat, ChecksPass, RegularB;
    WordHolds(tm);
    IdentifierSent(tm);
    ValuesFit(tm);
    ParityCompletes(EncodeA(tm), tm.isdst);
  }

  lemma SampleSecond(a: Word, b: Word, s: nat)
    requires 0 < s < 60
    ensures (LevelAt(Envelope(a, b, s), 150 * MS) == Off) == a[59 - s]
    ensures (LevelAt(Envelope(a, b, s), 250 * MS) == Off) == b[59 - s]
  {
    var mod := Envelope(a, b, s);
    assert LevelAt(mod, 150 * MS) == LevelAt(mod[1..], 50 * MS) == mod[1].power;
    assert LevelAt(mod, 250 * MS) == LevelAt(mod[1..], 150 * MS) == LevelAt(mod[1..][1..], 50 * MS) == mod[2].power;
  }

  /** A second takes the carrier off for 100 ms and for 100 ms more by each bit that is set; second 0 for 500 ms. */
  lemma SecondLevel(a: Word, b: Word, s: nat, ms: nat)
    requires s < 60 && ms < 1000
    ensures var off := if s == 0 then ms < 500
                       else ms < 100 || (ms < 200 && a[59 - s]) || (200 <= ms < 300 && b[59 - s]);
            LevelAt(Envelope(a, b, s), ms * MS) == if off then Off else High
  {
    var mod := Envelope(a, b, s);
    if s == 0 {
      TwoLevels(Off, 500, High, ms);
    } else {
      var i := if ms < 300 then ms / 100 else 3;
      TotalSnoc(mod, 0);
      TotalSnoc(mod, 1);
      TotalSnoc(mod, 2);
      LevelOfEntry(mod, i, ms * MS);
    }
  }

  lemma ReceivedIsWord(rx: Reception, a: Word, b: Word)
    requires Shows(rx, Frame(a, b), 1, 59)
    requires rx(59, 150) == LevelAt(Envelope(a, b, 59), 150 * MS)
             && rx(59, 250) == LevelAt(Envelope(a, b, 59), 250 * MS)
    ensures ReceivedA(rx) == a[..59] && ReceivedB(rx) == b[..59]
  {
    hide Envelope, LevelAt;
    forall i | 0 <= i < 59
      ensures ReceivedA(rx)[i] == a[i] && ReceivedB(rx)[i] == b[i]
    {
      var s := 59 - i;
      SampleSecond(a, b, s);
      if s < 59 {
        assert rx(s, 150) == LevelAt(Frame(a, b)[s], 150 * MS);
        assert rx(s, 250) == LevelAt(Frame(a, b)[s], 250 * MS);
      }
    }
  }

  /** From the local time of the upcoming minute through both words, envelope and receiver back to that time. */
  lemma RoundTrip(tm: Tm, rx: Reception)
    requires Valid(tm)
    requires var a := EncodeA(tm); var b := EncodeB(a, tm.isdst);
             && Shows(rx, Frame(a, b), 1, 59)
             && rx(59, 150) == LevelAt(Envelope(a, b, 59), 150 * MS)
                && rx(59, 250) == LevelAt(Envelope(a, b, 59), 250 * MS)
    ensures Says(ReceivedA(rx), ReceivedB(rx), tm)
  {
    hide EncodeA, EncodeB, BcdValue, IsBcd, StampOf, OddCount, Frame, Shows, Envelope, LevelAt;
    var a := EncodeA(tm);
    var b := EncodeB(a, tm.isdst);
    FrameSays(tm);
    ReceivedIsWord(rx, a, b);
    var c := a[..59];
    assert c[8..15] == a[8..15] && c[15..21] == a[15..21] && c[21..24] == a[21..24];
    assert c[24..30] == a[24..30] && c[30..35] == a[30..35] && c[35..43] == a[35..43];
    assert c[24..35] == a[24..35] && c[8..21] == a[8..21];
  }

  // ----- Transmission errors -----

  /**
   Misread bits in both words go unnoticed exactly when every group, its B bit included, has an even number of
   them.
   */
  lemma ErrorsDetected(a: seq<bool>, b: seq<bool>, ea: seq<bool>, eb: seq<bool>)
    requires |a| == |ea| == 59 && |b| == |eb| == 59 && ChecksPass(a, b)
    ensures ChecksPass(Flip(a, ea), Flip(b, eb))
            <==> (&& !OddCount(ea[35..43] + [eb[5]]) && !OddCount(ea[24..35] + [eb[4]])
                  && !OddCount(ea[21..24] + [eb[3]]) && !OddCount(ea[8..21] + [eb[2]]))
  {
    hide OddCount;
    GroupError(a, b, ea, eb, 35, 43, 5);
    GroupError(a, b, ea, eb, 24, 35, 4);
    GroupError(a, b, ea, eb, 21, 24, 3);
    GroupError(a, b, ea, eb, 8, 21, 2);
  }

  lemma GroupError(a: seq<bool>, b: seq<bool>, ea: seq<bool>, eb: seq<bool>, lo: nat, hi: nat, p: nat)
    requires |a| == |ea| && |b| == |eb| && lo <= hi <= |a| && p < |b|
    ensures OddCount(Flip(a, ea)[lo..hi] + [Flip(b, eb)[p]]) != OddCount(a[lo..hi] + [b[p]])
            <==> OddCount(ea[lo..hi] + [eb[p]])
  {
    hide OddCount;
    var g, e := a[lo..hi] + [b[p]], ea[lo..hi] + [eb[p]];
    assert Flip(g, e) == Flip(a, ea)[lo..hi] + [Flip(b, eb)[p]];
    ErrorDetected(g, e);
  }

  /** Frames of two times that differ in a group differ there, parity included, in at least two bits. */
  lemma FramesApart(x: Tm, y: Tm)
    requires Valid(x) && Valid(y)
    ensures var a, c := EncodeA(x), EncodeA(y);
            var b, d := EncodeB(a, x.isdst), EncodeB(c, y.isdst);
            && (a[35..43] != c[35..43] ==> Distance(a[35..43] + [b[5]], c[35..43] + [d[5]]) >= 2)
            && (a[24..35] != c[24..35] ==> Distance(a[24..35] + [b[4]], c[24..35] + [d[4]]) >= 2)
            && (a[21..24] != c[21..24] ==> Distance(a[21..24] + [b[3]], c[21..24] + [d[3]]) >= 2)
            && (a[8..21] != c[8..21] ==> Distance(a[8..21] + [b[2]], c[8..21] + [d[2]]) >= 2)
  {
    hide EncodeA, EncodeB, OddCount, Distance, Decode, StampOf, RegularA, RegularB;
    var a, c := EncodeA(x), EncodeA(y);
    var b, d := EncodeB(a, x.isdst), EncodeB(c, y.isdst);
    FrameSays(x);
    FrameSays(y);
    GroupsApart(a[35..43], b[5], c[35..43], d[5]);
    GroupsApart(a[24..35], b[4], c[24..35], d[4]);
    GroupsApart(a[21..24], b[3], c[21..24], d[3]);
    GroupsApart(a[8..21], b[2], c[8..21], d[2]);
  }

  lemma GroupsApart(g: seq<bool>, p: bool, h: seq<bool>, q: bool)
    requires |g| == |h| && OddCount(g + [p]) && OddCount(h + [q])
    ensures g != h ==> Distance(g + [p], h + [q]) >= 2
  {
    if g != h {
      assert (g + [p])[..|g|] == g && (h + [q])[..|h|] == h;
      ParityDistance(g + [p], h + [q]);
    }
  }

  // ----- The minute identifier -----

  /** The four bits from `at` on are a decimal digit: an eight excludes fours and twos. */
  predicate DigitShape(w: seq<bool>, at: nat)
    requires at + 4 <= |w|
  {
    !(w[at + 3] && w[at + 2]) && !(w[at + 3] && w[at + 1])
  }

  /** Where a calendar time cannot put ones: the reason why no six of them meet. */
  predicate CalendarShape(w: seq<bool>)
    requires |w| == 64
  {
    && DigitShape(w, 8) && !(w[13] && w[14])                  // minute: tens at most 5
    && DigitShape(w, 15) && !(w[19] && w[20])                 // hour: tens at most 2
    && !(w[21] && w[22] && w[23])                             // weekday at most 6
    && DigitShape(w, 24) && !(w[27] && w[28] && w[29])        // day at most 31
    && DigitShape(w, 30) && !(w[33] && w[34])                 // month at most 12
    && DigitShape(w, 35)                                      // year
    && forall i :: 43 <= i < 64 ==> !w[i]
  }

  /** A two-digit value of the word, as bits: units in four, tens in up to four. */
  lemma ValueShape(n: nat, k: nat, w: seq<bool>, at: nat)
    requires n < 100 && 4 <= k <= 8 && n / 10 < Pow2(k - 4)
    requires at + k <= |w| && w[at..at + k] == ToBcd(n)[..k]
    ensures DigitShape(w, at) && ToNat(w[at..at + 4]) == n % 10 && ToNat(w[at + 4..at + k]) == n / 10
  {
    hide ToBcd, ToNat;
    BcdRoundTrip(n, k);
    var f := ToBcd(n);
    assert w[at..at + 4] == w[at..at + k][..4] == f[..4];
    assert w[at + 4..at + k] == w[at..at + k][4..] == f[4..k];
    FourBits(w[at..at + 4]);
  }

  lemma WordShape(tm: Tm)
    requires Valid(tm)
    ensures CalendarShape(EncodeA(tm))
    ensures var w := EncodeA(tm); !w[0] && w[1] && w[2] && w[3] && w[4] && w[5] && w[6] && !w[7]
  {
    hide EncodeA, ToBcd, ToNat;
    var w := EncodeA(tm);
    WordHolds(tm);
    SmallPowers();
    ValueShape(tm.min, 7, w, 8);
    ThreeBits(w[12..15]);
    ValueShape(tm.hour, 6, w, 15);
    TwoBits(w[19..21]);
    OneDigit(tm.wday, 3);
    ThreeBits(w[21..24]);
    ValueShape(tm.mday, 6, w, 24);
    FourBits(w[24..28]);
    TwoBits(w[28..30]);
    ValueShape(tm.mon + 1, 5, w, 30);
    FourBits(w[30..34]);
    assert ToNat(w[34..35]) == BitValue(w[34]) by {
      OneBit(w[34..35]);
    }
    ValueShape(tm.year % 100, 8, w, 35);
    IdentifierSent(tm);
  }

  predicate SixOnes(w: seq<bool>, j: nat)
    requires j + 6 <= |w|
  {
    w[j] && w[j + 1] && w[j + 2] && w[j + 3] && w[j + 4] && w[j + 5]
  }

  /** No six consecutive ones stand in any calendar word above the identifier. */
  lemma NoLongRun(w: seq<bool>, j: nat)
    requires |w| == 64 && CalendarShape(w) && !w[7]
    requires 2 <= j < 53
    ensures !SixOnes(w, j)
  {
  }

  /** The A bit heard in second s of a minute: the carrier off after 150 ms. */
  function HeardBit(tm: Tm, s: nat): bool
    requires Valid(tm) && s < 60
  {
    var a := EncodeA(tm);
    LevelAt(Envelope(a, EncodeB(a, tm.isdst), s), 150 * MS) == Off
  }

  /** The A bit heard in second p of a broadcast. */
  function HeardA(tms: seq<Tm>, p: nat): bool
    requires AllValid(tms) && p < 60 * |tms|
  {
    HeardBit(tms[p / 60], p % 60)
  }

  /** The minute mark itself sounds like a one. */
  lemma HeardIsBit(tm: Tm, s: nat)
    requires Valid(tm) && s < 60
    ensures HeardBit(tm, s) == (s == 0 || EncodeA(tm)[59 - s])
  {
    hide EncodeA, EncodeB;
    var a := EncodeA(tm);
    if s > 0 {
      SampleSecond(a, EncodeB(a, tm.isdst), s);
    }
  }

  /** The pattern 01111110 starts in second p. */
  predicate IdentifierAt(tms: seq<Tm>, p: nat)
    requires AllValid(tms) && p + 7 < 60 * |tms|
  {
    && !HeardA(tms, p)
    && HeardA(tms, p + 1) && HeardA(tms, p + 2) && HeardA(tms, p + 3) && HeardA(tms, p + 4) && HeardA(tms, p + 5)
       && HeardA(tms, p + 6)
    && !HeardA(tms, p + 7)
  }

  lemma HeardInMinute(tms: seq<Tm>, m: nat, s: nat)
    requires AllValid(tms) && m < |tms| && s < 60
    ensures HeardA(tms, 60 * m + s) == (s == 0 || EncodeA(tms[m])[59 - s])
  {
    hide EncodeA, HeardBit;
    SplitSecond(m, s);
    HeardIsBit(tms[m], s);
  }

  lemma InsideMinute(tms: seq<Tm>, m: nat, s: nat)
    requires AllValid(tms) && m < |tms| && s <= 52
    ensures IdentifierAt(tms, 60 * m + s) <==> s == 52
  {
    hide EncodeA, HeardA, CalendarShape, Valid;
    var w := EncodeA(tms[m]);
    WordShape(tms[m]);
    HeardInMinute(tms, m, s);
    HeardInMinute(tms, m, s + 1);
    HeardInMinute(tms, m, s + 2);
    HeardInMinute(tms, m, s + 3);
    HeardInMinute(tms, m, s + 4);
    HeardInMinute(tms, m, s + 5);
    HeardInMinute(tms, m, s + 6);
    HeardInMinute(tms, m, s + 7);
    if 0 < s < 52 {
      NoLongRun(w, 53 - s);
    }
  }

  lemma AcrossMinutes(tms: seq<Tm>, m: nat, s: nat)
    requires AllValid(tms) && m < |tms| && 52 < s < 60 && 60 * m + s + 7 < 60 * |tms|
    ensures !IdentifierAt(tms, 60 * m + s)
  {
    hide EncodeA, HeardA, CalendarShape, Valid;
    WordShape(tms[m]);
    HeardInMinute(tms, m, s);
    if s == 59 {
      HeardInMinute(tms, m + 1, 1);
      HighSecond(tms[m + 1]);
      assert 60 * m + s + 2 == 60 * (m + 1) + 1;
    }
  }

  lemma HighSecond(tm: Tm)
    requires Valid(tm)
    ensures !EncodeA(tm)[58]
  {
    hide EncodeA, Values;
    WordHolds(tm);
  }

  /** In any broadcast of calendar minutes the identifier is heard at seconds 52-59 of each minute and nowhere else. */
  lemma IdentifierUnique(tms: seq<Tm>, p: nat)
    requires AllValid(tms) && p + 7 < 60 * |tms|
    ensures IdentifierAt(tms, p) <==> p % 60 == 52
  {
    hide IdentifierAt, AllValid;
    var m, s := p / 60, p % 60;
    if s <= 52 {
      InsideMinute(tms, m, s);
    } else {
      AcrossMinutes(tms, m, s);
    }
  }
}
