/** BPC (China), `src/bpc-source.cc`: three 20-second blocks a minute, one base-4 symbol a second. */
module Bpc {
  import opened BitSeqs
  import opened Words
  import opened Calendar
  import opened Signal

  // ----- The 38-bit block -----

  /** `(1 << width) - 1`; all ones from width 64 on. */
  function Mask(width: nat): Word {
    seq(64, i => i < width)
  }

  /** `put_bits`: `v |= (value & mask) << lsb`. */
  function PutBits(v: Word, lsb: nat, width: nat, value: nat): Word {
    Or(v, Shl(And(U64(value), Mask(width)), lsb))
  }

  function Hour12(hour: nat): nat {
    if hour % 12 == 0 then 12 else hour % 12
  }

  function Weekday(wday: nat): nat {
    if wday == 0 then 7 else wday
  }

  /** The numbers of a block, in the order they are packed. */
  function Numbers(tm: Tm, frame: nat): (numbers: seq<nat>)
    requires Valid(tm)
    ensures |numbers| == 8
  {
    [ frame, if tm.hour >= 12 then 1 else 0, Hour12(tm.hour), tm.min, Weekday(tm.wday), tm.mday, tm.mon + 1,
      tm.year % 100 ]
  }

  /** Where each number goes. */
  function Fields(n: seq<nat>): seq<Field>
    requires |n| == 8
  {
    [ Slot(n[0], 36, 2), Slot(n[1], 35, 1), Slot(n[2], 31, 4), Slot(n[3], 25, 6),
      Slot(n[4], 22, 3), Slot(n[5], 17, 5), Slot(n[6], 13, 4), Slot(n[7], 6, 7) ]
  }

  function Slot(value: nat, lsb: nat, width: nat): Field {
    Field(And(U64(value), Mask(width)), lsb, width)
  }

  /** The block with its parity bit, computed over everything from bit 2 up. */
  function WithParity(b: Word): Word {
    PutBits(b, 1, 1, if OddCount(Shr(b, 2)) then 1 else 0)
  }

  function Block(tm: Tm, frame: nat): Word
    requires Valid(tm)
  {
    WithParity(OrAll(Fields(Numbers(tm, frame))))
  }

  method EncodeBlock(tm: Tm, frame: nat) returns (b: Word)
    requires Valid(tm)
    ensures b == Block(tm, frame)
  {
    hide U64, And, Or, Shl, OrAll, Mask, Fields;
    var hour12 := tm.hour % 12;
    if hour12 == 0 {
      hour12 := 12;
    }
    var ampm := if tm.hour >= 12 then 1 else 0;
    var weekday := if tm.wday == 0 then 7 else tm.wday;

    b := U64(0);
    b := PutBits(b, 36, 2, frame);
    b := PutBits(b, 35, 1, ampm);
    b := PutBits(b, 31, 4, hour12);
    b := PutBits(b, 25, 6, tm.min);
    b := PutBits(b, 22, 3, weekday);
    b := PutBits(b, 17, 5, tm.mday);
    b := PutBits(b, 13, 4, tm.mon + 1);
    b := PutBits(b, 6, 7, tm.year % 100);
    Assembled(Numbers(tm, frame));
    var p := PopcountParity(Shr(b, 2));
    b := PutBits(b, 1, 1, p);
  }

  lemma Assembled(n: seq<nat>)
    requires |n| == 8
    ensures PutBits(PutBits(PutBits(PutBits(PutBits(PutBits(PutBits(PutBits(U64(0),
              36, 2, n[0]), 35, 1, n[1]), 31, 4, n[2]), 25, 6, n[3]), 22, 3, n[4]), 17, 5, n[5]), 13, 4, n[6]),
              6, 7, n[7])
         == OrAll(Fields(n))
  {
    hide U64, And, Or, Shl, Mask;
    var fields := Fields(n);
    OrNext(fields, 0);
    OrNext(fields, 1);
    OrNext(fields, 2);
    OrNext(fields, 3);
    OrNext(fields, 4);
    OrNext(fields, 5);
    OrNext(fields, 6);
    OrNext(fields, 7);
  }

  /** Whatever the numbers are, the masks keep the eight fields apart. */
  lemma FieldsDisjoint(n: seq<nat>)
    requires |n| == 8
    ensures Disjoint(Fields(n))
  {
    hide U64;
  }

  // ----- The 60 symbols of a minute -----

  const MARKER: nat := 0xFF

  /** The symbol of second `p` of a block: a marker, then bits 37-36, 35-34, ..., 1-0. */
  function SymbolAt(block: Word, p: nat): nat
    requires p < 20
  {
    if p == 0 then MARKER else ToNat(block[2 * (19 - p)..2 * (19 - p) + 2])
  }

  function BlockAt(localtime: Zone, t: int, frame: nat): Word {
    Block(localtime(t + frame * 20), frame)
  }

  /** The symbol of second s of the minute that starts at t. */
  function MinuteSymbol(localtime: Zone, t: int, s: nat): nat
    requires s < 60
  {
    SymbolAt(BlockAt(localtime, t, s / 20), s % 20)
  }

  lemma SymbolRange(block: Word, p: nat)
    requires p < 20
    ensures SymbolAt(block, p) == MARKER || SymbolAt(block, p) < 4
    ensures SymbolAt(block, p) == MARKER <==> p == 0
  {
    if p > 0 {
      TwoBits(block[2 * (19 - p)..2 * (19 - p) + 2]);
    }
  }

  lemma MinuteSymbolRange(localtime: Zone, t: int, s: nat)
    requires s < 60
    ensures var symbol := MinuteSymbol(localtime, t, s);
            (symbol == MARKER <==> s % 20 == 0) && (symbol == MARKER || symbol < 4)
  {
    hide SymbolAt;
    SymbolRange(BlockAt(localtime, t, s / 20), s % 20);
  }

  /** The symbols are those of the minute that starts at t. */
  ghost predicate IsMinute(symbols: seq<nat>, localtime: Zone, t: int) {
    |symbols| == 60 && forall s :: 0 <= s < 60 ==> symbols[s] == MinuteSymbol(localtime, t, s)
  }

  function Envelope(symbol: nat): (mod: Modulation) {
    if symbol == MARKER then [Step(High, 0)]
    else [Step(Low, (symbol + 1) * 100), Step(High, 0)]
  }

  /** A second takes the carrier down for 100 ms more than its symbol says; a marker leaves it up. */
  lemma SecondLevel(symbol: nat, ms: nat)
    requires ms < 1000
    ensures LevelAt(Envelope(symbol), ms * MS) == if symbol != 0xFF && ms < 100 + 100 * symbol then Low else High
  {
    TwoLevels(Low, (symbol + 1) * 100, High, ms);
  }

  class BpcTimeSignalSource {
    const symbols: array<nat>
    const localtime: Zone

    constructor (zone: Zone)
      ensures localtime == zone && fresh(symbols) && symbols.Length == 60
    {
      localtime := zone;
      symbols := new nat[60](i => 0);
    }

    method PrepareMinute(t: int)
      requires symbols.Length == 60
      modifies symbols
      ensures IsMinute(symbols[..], localtime, t)
    {
      hide Block, SymbolAt, U64;
      for frame := 0 to 3
        invariant forall s :: 0 <= s < 20 * frame ==> symbols[s] == MinuteSymbol(localtime, t, s)
      {
        var tm := localtime(t + frame * 20);
        var bits := EncodeBlock(tm, frame);
        var base := frame * 20;
        symbols[base + 0] := MARKER;
        SymbolOf(localtime, t, frame, 0, bits);
        for p := 1 to 20
          invariant forall s :: 0 <= s < base + p ==> symbols[s] == MinuteSymbol(localtime, t, s)
        {
          var shift := 2 * (19 - p);
          symbols[base + p] := ToNat(bits[shift..shift + 2]);  // (bits >> shift) & 0x3
          SymbolOf(localtime, t, frame, p, bits);
        }
      }
    }

    /** Any second is taken modulo 60; C's remainder has the sign of the dividend. */
    method GetModulationForSecond(second: int) returns (mod: Modulation)
      requires symbols.Length == 60
      ensures mod == Envelope(symbols[second % 60])
    {
      var sec := second;
      if second < 0 || second >= 60 {
        sec := Remainder(Remainder(second, 60) + 60, 60);
      }
      var s := symbols[sec];
      if s == MARKER {
        return [Step(High, 0)];
      }
      var widthMs := (s + 1) * 100;
      return [Step(Low, widthMs), Step(High, 0)];
    }
  }

  lemma SymbolOf(localtime: Zone, t: int, frame: nat, p: nat, bits: Word)
    requires frame < 3 && p < 20 && bits == Block(localtime(t + frame * 20), frame)
    ensures MinuteSymbol(localtime, t, 20 * frame + p)
            == if p == 0 then MARKER else ToNat(bits[2 * (19 - p)..2 * (19 - p) + 2])
  {
    hide Block, ToNat;
    assert (20 * frame + p) / 20 == frame && (20 * frame + p) % 20 == p;
  }

  // ----- What a block holds -----

  lemma MaskedFits(value: nat, width: nat)
    requires width <= 64 && value < Pow2(width)
    ensures ToNat(And(U64(value), Mask(width))[..width]) == value
  {
    assert And(U64(value), Mask(width))[..width] == U64(value)[..width];
    LowBitsRoundTrip(value, width, 64);
  }

  lemma SlotReadsBack(n: seq<nat>, j: nat)
    requires |n| == 8 && j < 8
    requires n[j] < Pow2(Fields(n)[j].width)
    ensures var f := Fields(n)[j]; ToNat(OrAll(Fields(n))[f.at..f.at + f.width]) == n[j]
  {
    hide U64, OrAll, ToNat, Disjoint;
    FieldsDisjoint(n);
    var f := Fields(n)[j];
    FieldReadsBack(Fields(n), j);
    assert f == Slot(n[j], f.at, f.width);
    MaskedFits(n[j], f.width);
  }

  /** The numbers in a block of which the parity bit may still be missing. */
  predicate Holds(b: seq<bool>, n: seq<nat>)
    requires 38 <= |b| && |n| == 8
  {
    && ToNat(b[36..38]) == n[0] && ToNat(b[35..36]) == n[1] && ToNat(b[31..35]) == n[2] && ToNat(b[25..31]) == n[3]
    && ToNat(b[22..25]) == n[4] && ToNat(b[17..22]) == n[5] && ToNat(b[13..17]) == n[6] && ToNat(b[6..13]) == n[7]
  }

  /** The numbers fit their fields. */
  predicate InRange(n: seq<nat>)
    requires |n| == 8
  {
    n[0] < 4 && n[1] < 2 && n[2] < 16 && n[3] < 64 && n[4] < 8 && n[5] < 32 && n[6] < 16 && n[7] < 128
  }

  /** What every block has in common: zeros where nothing is said, and the hour of a twelve-hour clock. */
  predicate Regular(b: seq<bool>) {
    && |b| == 64 && !b[0] && !b[2] && !b[3] && !b[4] && !b[5]
    && (forall i :: 38 <= i < 64 ==> !b[i])
    && 1 <= ToNat(b[31..35]) <= 12
  }

  lemma FieldsHold(n: seq<nat>)
    requires |n| == 8 && InRange(n)
    ensures var b := OrAll(Fields(n));
            && Holds(b, n) && !b[0] && !b[1] && !b[2] && !b[3] && !b[4] && !b[5]
            && forall i :: 38 <= i < 64 ==> !b[i]
  {
    hide U64, OrAll, ToNat, Disjoint, Slot;
    assert Pow2(1) == 2 && Pow2(2) == 4 && Pow2(3) == 8 && Pow2(4) == 16 && Pow2(5) == 32 && Pow2(6) == 64
           && Pow2(7) == 128;
    SlotWidths(n);
    var f := Fields(n);
    SlotReadsBack(n, 0);
    SlotReadsBack(n, 1);
    SlotReadsBack(n, 2);
    SlotReadsBack(n, 3);
    SlotReadsBack(n, 4);
    SlotReadsBack(n, 5);
    SlotReadsBack(n, 6);
    SlotReadsBack(n, 7);
    FieldsDisjoint(n);
    UncoveredClear(f, 0);
    UncoveredClear(f, 1);
    UncoveredClear(f, 2);
    UncoveredClear(f, 3);
    UncoveredClear(f, 4);
    UncoveredClear(f, 5);
    forall i | 38 <= i < 64
      ensures !OrAll(f)[i]
    {
      UncoveredClear(f, i);
    }
  }

  lemma SlotWidths(n: seq<nat>)
    requires |n| == 8
    ensures var f := Fields(n);
            && f[0].at == 36 && f[0].width == 2 && f[1].at == 35 && f[1].width == 1 && f[2].at == 31 && f[2].width == 4
            && f[3].at == 25 && f[3].width == 6 && f[4].at == 22 && f[4].width == 3 && f[5].at == 17 && f[5].width == 5
            && f[6].at == 13 && f[6].width == 4 && f[7].at == 6 && f[7].width == 7
  {
  }

  // ----- Parity -----

  /** The scan of all 64 bits of `b >> 2` is the scan of bits 2 to 37. */
  lemma ShiftedParity(b: Word)
    requires forall i :: 38 <= i < 64 ==> !b[i]
    ensures OddCount(Shr(b, 2)) == OddCount(b[2..38])
  {
    assert Shr(b, 2) == b[2..38] + (b[38..] + [false, false]);
    CountConcat(b[2..38], b[38..] + [false, false]);
    CountNone(b[38..] + [false, false]);
  }

  lemma ParityCompletes(b: Word)
    requires !b[1] && forall i :: 38 <= i < 64 ==> !b[i]
    ensures WithParity(b) == b[1 := OddCount(b[2..38])]
    ensures var r := WithParity(b); r[1] == OddCount(r[2..38])
  {
    hide OddCount, U64;
    ShiftedParity(b);
    var odd := OddCount(b[2..38]);
    OneBitMask(odd);
    AddBit(b, odd, 1);
    assert b[1 := odd][2..38] == b[2..38];
  }

  lemma OneBitMask(odd: bool)
    ensures var p := U64(if odd then 1 else 0); And(p, Mask(1)) == p
  {
    ParityIsBit(odd);
  }

  lemma NumbersInRange(tm: Tm, frame: nat)
    requires Valid(tm) && frame < 3
    ensures InRange(Numbers(tm, frame))
  {
  }

  /** Everything a block says about its time. */
  lemma BlockSays(tm: Tm, frame: nat)
    requires Valid(tm) && frame < 3
    ensures var b := Block(tm, frame);
            && Holds(b, Numbers(tm, frame)) && b[1] == OddCount(b[2..38]) && Regular(b)
  {
    hide U64, OrAll, ToNat, Numbers, Fields, InRange, WithParity;
    var n := Numbers(tm, frame);
    NumbersInRange(tm, frame);
    FieldsHold(n);
    var w := OrAll(Fields(n));
    ParityCompletes(w);
    var b := WithParity(w);
    assert b[36..38] == w[36..38] && b[35..36] == w[35..36] && b[31..35] == w[31..35] && b[25..31] == w[25..31];
    assert b[22..25] == w[22..25] && b[17..22] == w[17..22] && b[13..17] == w[13..17] && b[6..13] == w[6..13];
    TwelveHours(tm, frame);
  }

  lemma TwelveHours(tm: Tm, frame: nat)
    requires Valid(tm)
    ensures 1 <= Numbers(tm, frame)[2] <= 12
  {
  }

  /** A misread block passes its check exactly when an even number of bits 1 to 37 is misread. */
  lemma ErrorsDetected(bits: seq<bool>, errors: seq<bool>)
    requires |bits| == |errors| == 38 && !OddCount(bits[1..38])
    ensures !OddCount(Flip(bits, errors)[1..38]) <==> !OddCount(errors[1..38])
  {
    FlipRange(bits, errors, 1, 38);
    ErrorDetected(bits[1..38], errors[1..38]);
  }

  /** The check of the self-test, as an even count. */
  lemma CheckIsEvenCount(b: seq<bool>)
    requires 38 <= |b|
    ensures b[1] == OddCount(b[2..38]) <==> !OddCount(b[1..38])
  {
  }

  /** Two blocks that differ in a protected bit differ in at least two of bits 1 to 37. */
  lemma BlocksApart(x: Tm, y: Tm, f: nat, g: nat)
    requires Valid(x) && Valid(y) && f < 3 && g < 3
    ensures var a, b := Block(x, f), Block(y, g); a[2..38] != b[2..38] ==> Distance(a[1..38], b[1..38]) >= 2
  {
    hide Block, Numbers, OddCount, Distance, Holds, ToNat;
    var a, b := Block(x, f), Block(y, g);
    BlockSays(x, f);
    BlockSays(y, g);
    CheckIsEvenCount(a);
    CheckIsEvenCount(b);
    if a[2..38] != b[2..38] {
      assert a[1..38][1..] == a[2..38] && b[1..38][1..] == b[2..38];
      ParityDistance(a[1..38], b[1..38]);
    }
  }
}
