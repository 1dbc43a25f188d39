/** The receiver side of BPC, `test/bpc_selftest.py`: charts to widths, widths to numbers. */
module BpcSelfTest {
  import opened Options
  import opened BitSeqs
  import opened Words
  import opened Calendar
  import opened Signal
  import opened Bpc

  /** What the line pattern finds in a line of dry-run output: the second and its chart. */
  datatype Line = Line(second: nat, envelope: string)

  predicate IsDigit(c: char) {
    '0' <= c <= '9'
  }

  function DigitValue(c: char): nat
    requires IsDigit(c)
  {
    c as int - '0' as int
  }

  predicate IsStroke(c: char) {
    c == '_' || c == '#'
  }

  /** How many strokes stand at the beginning of the text. */
  function Strokes(text: string): (n: nat)
    ensures n <= |text|
  {
    if text == "" || !IsStroke(text[0]) then 0 else 1 + Strokes(text[1..])
  }

  /** `LINE_RE` at the beginning of the text: a colon, two digits, a blank and strokes in brackets. */
  function MatchHere(text: string): Option<Line> {
    if |text| >= 5 && text[0] == ':' && IsDigit(text[1]) && IsDigit(text[2]) && text[3] == ' ' && text[4] == '[' then
      var rest := text[5..];
      var n := Strokes(rest);
      if 0 < n < |rest| && rest[n] == ']' then
        Some(Line(10 * DigitValue(text[1]) + DigitValue(text[2]), rest[..n]))
      else None
    else None
  }

  /** `LINE_RE.search`: the first place where the pattern matches. */
  function Search(text: string): Option<Line> {
    if MatchHere(text).Some? then MatchHere(text)
    else if text == "" then None
    else Search(text[1..])
  }

  /** What the pattern finds in each line. */
  function Found(lines: seq<string>): (found: seq<Option<Line>>)
    ensures |found| == |lines|
  {
    seq(|lines|, i requires 0 <= i < |lines| => Search(lines[i]))
  }

  /** `len(env) - len(env.lstrip("_"))` */
  function Lead(envelope: string): nat {
    if envelope == "" || envelope[0] != '_' then 0 else 1 + Lead(envelope[1..])
  }

  // ----- Charts to widths -----

  /** The width table after the given lines; lines that do not match are skipped, later lines win. */
  function Widths(lines: seq<Option<Line>>): (widths: seq<Option<nat>>)
    ensures |widths| == 60
  {
    if lines == [] then seq(60, i => None)
    else
      var before := Widths(lines[..|lines| - 1]);
      match lines[|lines| - 1]
      case None => before
      case Some(line) => if line.second < 60 then before[line.second := Some(Lead(line.envelope))] else before
  }

  predicate IsFor(line: Option<Line>, s: nat) {
    line.Some? && line.value.second == s
  }

  /** A second has the width of the last line found for it. */
  lemma {:induction false} LastLineCounts(lines: seq<Option<Line>>, s: nat, i: nat)
    requires s < 60 && i < |lines| && IsFor(lines[i], s) && forall j :: i < j < |lines| ==> !IsFor(lines[j], s)
    ensures Widths(lines)[s] == Some(Lead(lines[i].value.envelope))
    decreases |lines|
  {
    hide Lead;
    var n := |lines| - 1;
    if i < n {
      LastLineCounts(lines[..n], s, i);
      assert !IsFor(lines[n], s);
    }
  }

  /** A second for which no line is found has none. */
  lemma {:induction false} MissingSecond(lines: seq<Option<Line>>, s: nat)
    requires s < 60 && forall j :: 0 <= j < |lines| ==> !IsFor(lines[j], s)
    ensures Widths(lines)[s] == None
    decreases |lines|
  {
    hide Lead;
    if lines == [] {
    } else {
      var n := |lines| - 1;
      MissingSecond(lines[..n], s);
      assert !IsFor(lines[n], s);
    }
  }

  method ParseWidths(lines: seq<string>) returns (widths: seq<Option<nat>>)
    ensures widths == Widths(Found(lines))
  {
    hide Search, Lead;
    ghost var found := Found(lines);
    widths := seq(60, i => None);
    for i := 0 to |lines|
      invariant widths == Widths(found[..i])
    {
      assert found[..i + 1][..i] == found[..i] && found[..i + 1][i] == Search(lines[i]);
      match Search(lines[i]) {
        case None =>
        case Some(line) =>
          if line.second < 60 {
            widths := widths[line.second := Some(Lead(line.envelope))];
          }
      }
    }
    assert found[..|lines|] == found;
  }

  // ----- Widths to numbers -----

  datatype Decoded = Decoded(frame: nat, ampm: nat, hour12: nat, minute: nat, weekday: nat,
    day: nat, month: nat, year: nat, parity: nat, parityOk: bool)

  /** A failed assertion names the second it is about. */
  datatype Result = Ok(value: Decoded) | Failed(second: nat)

  predicate GoodSymbol(w: Option<nat>) {
    w.Some? && 1 <= w.value <= 4
  }

  /** The twenty widths of a frame. */
  function FrameWidths(widths: seq<Option<nat>>, frame: nat): (ws: seq<Option<nat>>)
    requires |widths| == 60 && frame < 3
    ensures |ws| == 20
  {
    widths[frame * 20..frame * 20 + 20]
  }

  /** A marker, then nineteen symbols. */
  predicate Readable(ws: seq<Option<nat>>)
    requires |ws| == 20
  {
    ws[0] == Some(0) && forall p :: 1 <= p < 20 ==> GoodSymbol(ws[p])
  }

  /** Symbol p is the first that a frame should not have. */
  predicate FirstBad(ws: seq<Option<nat>>, p: nat)
    requires |ws| == 20 && p < 20
  {
    if p == 0 then ws[0] != Some(0)
    else ws[0] == Some(0) && !GoodSymbol(ws[p]) && forall q :: 1 <= q < p ==> GoodSymbol(ws[q])
  }

  /** The bits gathered from the first p symbols of a frame. */
  function Gathered(ws: seq<Option<nat>>, p: nat): Word
    requires |ws| == 20 && p < 20
    requires forall q :: 1 <= q <= p ==> GoodSymbol(ws[q])
  {
    if p == 0 then U64(0)
    else
      assert GoodSymbol(ws[p]);
      Or(Gathered(ws, p - 1), Shl(U64(ws[p].value - 1), 2 * (19 - p)))
  }

  /** The numbers read from the bits: `(bits >> 36) & 0x3` and so on. */
  function ReadNumbers(bits: Word): Decoded {
    Decoded(ToNat(bits[36..38]), ToNat(bits[35..36]), ToNat(bits[31..35]), ToNat(bits[25..31]), ToNat(bits[22..25]),
            ToNat(bits[17..22]), ToNat(bits[13..17]), ToNat(bits[6..13]), ToNat(bits[1..2]),
            bits[1] == OddCount(Shr(bits, 2)))
  }

  method DecodeFrame(widths: seq<Option<nat>>, frame: nat) returns (r: Result)
    requires |widths| == 60 && frame < 3
    ensures r.Ok? <==> Readable(FrameWidths(widths, frame))
    ensures r.Ok? ==> r.value == ReadNumbers(Gathered(FrameWidths(widths, frame), 19))
    ensures r.Failed? ==>
              exists p :: 0 <= p < 20 && r.second == 20 * frame + p && FirstBad(FrameWidths(widths, frame), p)
  {
    hide Or, Shl, U64, ToNat, OddCount;
    var base := frame * 20;
    ghost var ws := FrameWidths(widths, frame);
    assert forall q :: 0 <= q < 20 ==> ws[q] == widths[base + q];
    if widths[base] != Some(0) {
      assert FirstBad(ws, 0);
      return Failed(base);
    }
    var bits := U64(0);
    for p := 1 to 20
      invariant forall q :: 1 <= q < p ==> GoodSymbol(ws[q])
      invariant bits == Gathered(ws, p - 1)
    {
      var w := widths[base + p];
      assert ws[p] == w;
      if w.None? || !(1 <= w.value <= 4) {
        assert FirstBad(ws, p);
        return Failed(base + p);
      }
      var sym := w.value - 1;
      bits := Or(bits, Shl(U64(sym), 2 * (19 - p)));
    }
    var parity := PopcountParity(Shr(bits, 2));
    r := Ok(Decoded(ToNat(bits[36..38]), ToNat(bits[35..36]), ToNat(bits[31..35]), ToNat(bits[25..31]),
                    ToNat(bits[22..25]), ToNat(bits[17..22]), ToNat(bits[13..17]), ToNat(bits[6..13]),
                    ToNat(bits[1..2]), bits[1] == (parity == 1)));
  }

  // ----- From the encoder to the decoder -----

  /**
   What should be found in the dry run of the minute that starts at t: a heading, a line for each second, an
   empty line.
   */
  function DryRunLines(localtime: Zone, t: int): seq<Option<Line>> {
    [None] + SecondLines(localtime, t, 60) + [None]
  }

  function SecondLines(localtime: Zone, t: int, n: nat): seq<Option<Line>>
    requires n <= 60
  {
    seq(n, s requires 0 <= s < 60 => Some(Line(s, Chart(Bpc.Envelope(MinuteSymbol(localtime, t, s))))))
  }

  lemma {:induction false} LeadIs(envelope: string, k: nat)
    requires k <= |envelope| && forall i :: 0 <= i < k ==> envelope[i] == '_'
    requires k == |envelope| || envelope[k] != '_'
    ensures Lead(envelope) == k
    decreases k
  {
    if k == 0 {
    } else {
      LeadIs(envelope[1..], k - 1);
    }
  }

  /** The chart of a symbol starts with one low stroke per 100 ms of its pulse; a marker has none. */
  lemma LeadOfSymbol(symbol: nat)
    requires symbol == MARKER || symbol < 4
    ensures Lead(Chart(Bpc.Envelope(symbol))) == if symbol == MARKER then 0 else symbol + 1
  {
    var mod := Bpc.Envelope(symbol);
    var chart := Chart(mod);
    if symbol == MARKER {
      LeadIs(chart, 0);
    } else {
      forall k | 0 <= k < 10
        ensures chart[k] == if k < symbol + 1 then '_' else '#'
      {
        TwoLevels(Low, (symbol + 1) * 100, High, k * 100);
      }
      LeadIs(chart, symbol + 1);
    }
  }

  /** Width of second s as the self-test should measure it. */
  function ExpectedWidth(localtime: Zone, t: int, s: nat): nat
    requires s < 60
  {
    var symbol := MinuteSymbol(localtime, t, s);
    if symbol == MARKER then 0 else symbol + 1
  }

  lemma {:induction false} ParsedSeconds(localtime: Zone, t: int, n: nat)
    requires n <= 60
    ensures forall s :: 0 <= s < n ==>
              Widths([None] + SecondLines(localtime, t, n))[s] == Some(ExpectedWidth(localtime, t, s))
  {
    hide MinuteSymbol, Chart, Lead;
    if n == 0 {
    } else {
      var lines, before := [None] + SecondLines(localtime, t, n), [None] + SecondLines(localtime, t, n - 1);
      assert lines[..|lines| - 1] == before;
      ParsedSeconds(localtime, t, n - 1);
      MinuteSymbolRange(localtime, t, n - 1);
      LeadOfSymbol(MinuteSymbol(localtime, t, n - 1));
    }
  }

  /** The widths are those of the minute that starts at t. */
  predicate MinuteWidths(widths: seq<Option<nat>>, localtime: Zone, t: int)
    requires |widths| == 60
  {
    forall s :: 0 <= s < 60 ==> widths[s] == Some(ExpectedWidth(localtime, t, s))
  }

  lemma ParsedMinute(localtime: Zone, t: int)
    ensures MinuteWidths(Widths(DryRunLines(localtime, t)), localtime, t)
  {
    hide ExpectedWidth;
    var lines := DryRunLines(localtime, t);
    assert lines[..|lines| - 1] == [None] + SecondLines(localtime, t, 60);
    ParsedSeconds(localtime, t, 60);
  }

  /** A symbol back in its two bits. */
  lemma SymbolBits(b: seq<bool>)
    requires |b| == 2
    ensures var w := U64(ToNat(b)); w[0] == b[0] && w[1] == b[1] && Narrow(w, 2)
  {
    TwoBits(b);
    assert Pow2(2) == 4;
    HighBits(ToNat(b), 2, 64);
    LowBitsRoundTrip(ToNat(b), 2, 64);
    TwoBits(U64(ToNat(b))[..2]);
  }

  lemma AddSymbol(w: Word, f: Word, at: nat, b: Word)
    requires at + 2 <= 64 && Narrow(f, 2) && f[0] == b[at] && f[1] == b[at + 1]
    requires forall i :: 0 <= i < 64 ==> w[i] == (i >= at + 2 && b[i])
    ensures forall i :: 0 <= i < 64 ==> Or(w, Shl(f, at))[i] == (i >= at && b[i])
  {
  }

  /** After p symbols the receiver has the top 2p bits of the block. */
  lemma {:induction false} GatheredIsTop(ws: seq<Option<nat>>, p: nat, block: Word)
    requires |ws| == 20 && p < 20
    requires forall q :: 1 <= q < 20 ==> GoodSymbol(ws[q]) && ws[q] == Some(SymbolAt(block, q) + 1)
    requires forall i :: 38 <= i < 64 ==> !block[i]
    ensures forall i :: 0 <= i < 64 ==> Gathered(ws, p)[i] == (i >= 38 - 2 * p && block[i])
    decreases p
  {
    hide U64, Or, Shl, ToNat;
    if p == 0 {
      ZeroWord();
    } else {
      GatheredIsTop(ws, p - 1, block);
      var at := 2 * (19 - p);
      SymbolBits(block[at..at + 2]);
      AddSymbol(Gathered(ws, p - 1), U64(SymbolAt(block, p)), at, block);
    }
  }

  /** The twenty widths are those of a frame of the minute that starts at t. */
  predicate FrameHas(ws: seq<Option<nat>>, localtime: Zone, t: int, frame: nat)
    requires |ws| == 20 && frame < 3
  {
    forall p :: 0 <= p < 20 ==> ws[p] == Some(ExpectedWidth(localtime, t, 20 * frame + p))
  }

  lemma MinuteHasFrames(widths: seq<Option<nat>>, localtime: Zone, t: int, frame: nat)
    requires frame < 3 && |widths| == 60 && MinuteWidths(widths, localtime, t)
    ensures FrameHas(FrameWidths(widths, frame), localtime, t, frame)
  {
    hide ExpectedWidth;
  }

  lemma FrameWidthsExpected(ws: seq<Option<nat>>, localtime: Zone, t: int, frame: nat)
    requires |ws| == 20 && frame < 3 && FrameHas(ws, localtime, t, frame)
    ensures var block := BlockAt(localtime, t, frame);
            && Readable(ws)
            && forall q :: 1 <= q < 20 ==> GoodSymbol(ws[q]) && ws[q] == Some(SymbolAt(block, q) + 1)
  {
    hide Block, SymbolAt;
    var block := BlockAt(localtime, t, frame);
    forall p | 0 <= p < 20
      ensures ws[p] == Some(if p == 0 then 0 else SymbolAt(block, p) + 1)
      ensures p > 0 ==> SymbolAt(block, p) < 4
    {
      assert (20 * frame + p) / 20 == frame && (20 * frame + p) % 20 == p;
      SymbolRange(block, p);
      assert ws[p] == Some(ExpectedWidth(localtime, t, 20 * frame + p));
    }
  }

  /** The receiver ends up with the encoder's block. */
  lemma FrameRecovered(ws: seq<Option<nat>>, localtime: Zone, t: int, frame: nat)
    requires |ws| == 20 && frame < 3 && FrameHas(ws, localtime, t, frame)
    ensures Readable(ws) && Gathered(ws, 19) == BlockAt(localtime, t, frame)
  {
    hide FrameHas, Block, SymbolAt, Gathered;
    FrameWidthsExpected(ws, localtime, t, frame);
    BlockSays(localtime(t + frame * 20), frame);
    GatheredIsTop(ws, 19, BlockAt(localtime, t, frame));
  }

  /** `(d["hour12"] % 12) + (12 if d["ampm"] else 0)` */
  function Hour24(d: Decoded): nat {
    d.hour12 % 12 + if d.ampm != 0 then 12 else 0
  }

  /** The self-test's comparison: all numbers, the 24-hour hour and the parity are those of `tm`. */
  predicate Agrees(d: Decoded, frame: nat, tm: Tm)
    requires Valid(tm)
  {
    && d.frame == frame && Hour24(d) == tm.hour && d.minute == tm.min && d.weekday == (tm.wday + 6) % 7 + 1
    && d.day == tm.mday && d.month == tm.mon + 1 && d.year == tm.year % 100 && d.parityOk
  }

  /** From the right widths the decoder gets the right numbers. */
  lemma FrameAgrees(ws: seq<Option<nat>>, localtime: Zone, t: int, frame: nat)
    requires |ws| == 20 && frame < 3 && FrameHas(ws, localtime, t, frame)
    ensures Readable(ws) && Says(Gathered(ws, 19), frame, localtime(t + frame * 20))
  {
    hide FrameHas, Block, Gathered, Readable, ToNat, OddCount;
    FrameRecovered(ws, localtime, t, frame);
    BlockSays(localtime(t + frame * 20), frame);
    ShiftedParity(BlockAt(localtime, t, frame));
  }

  /** The bits gathered agree with the time, and nothing else is in them. */
  predicate Says(bits: Word, frame: nat, tm: Tm)
    requires Valid(tm)
  {
    Agrees(ReadNumbers(bits), frame, tm) && Regular(bits)
  }

  /** There is one block that says a time. */
  lemma BlockDetermined(a: Word, b: Word, frame: nat, tm: Tm)
    requires Valid(tm) && Says(a, frame, tm) && Says(b, frame, tm)
    ensures a == b
  {
    hide ToNat, OddCount;
    SameHour(ReadNumbers(a), ReadNumbers(b));
    SameBits(a[36..38], b[36..38]);
    HalfDay(a);
    HalfDay(b);
    SameBits(a[31..35], b[31..35]);
    SameBits(a[25..31], b[25..31]);
    SameBits(a[22..25], b[22..25]);
    SameBits(a[17..22], b[17..22]);
    SameBits(a[13..17], b[13..17]);
    SameBits(a[6..13], b[6..13]);
    Pieces(a);
    Pieces(b);
    ShiftedParity(a);
    ShiftedParity(b);
  }

  lemma Pieces(a: Word)
    requires Regular(a)
    ensures a == [false, a[1]] + a[2..38] + Zeros(26)
    ensures a[2..38] == Zeros(4) + a[6..13] + a[13..17] + a[17..22] + a[22..25] + a[25..31] + a[31..35] + [a[35]]
                        + a[36..38]
  {
    hide ToNat;
  }

  lemma HalfDay(a: Word)
    ensures a[35] <==> ToNat(a[35..36]) != 0
  {
    OneBit(a[35..36]);
  }

  /** Twelve hours and a half of the day are one hour of 24. */
  lemma SameHour(d: Decoded, e: Decoded)
    requires 1 <= d.hour12 <= 12 && 1 <= e.hour12 <= 12 && Hour24(d) == Hour24(e)
    ensures d.hour12 == e.hour12 && (d.ampm != 0 <==> e.ampm != 0)
  {
  }

  /** The self-test passes for every time zone, every time and every frame. */
  lemma SelfTestPasses(localtime: Zone, t: int, frame: nat)
    requires frame < 3
    ensures var ws := FrameWidths(Widths(DryRunLines(localtime, t)), frame);
            Readable(ws) && Says(Gathered(ws, 19), frame, localtime(t + frame * 20))
  {
    hide DryRunLines, Widths, MinuteWidths, FrameHas, FrameWidths, Says, Readable;
    ParsedMinute(localtime, t);
    MinuteHasFrames(Widths(DryRunLines(localtime, t)), localtime, t, frame);
    FrameAgrees(FrameWidths(Widths(DryRunLines(localtime, t)), frame), localtime, t, frame);
  }

  /** The frame is readable, and what it says agrees with the time. */
  predicate FramePasses(widths: seq<Option<nat>>, frame: nat, tm: Tm)
    requires |widths| == 60 && frame < 3 && Valid(tm)
  {
    var ws := FrameWidths(widths, frame);
    Readable(ws) && Agrees(ReadNumbers(Gathered(ws, 19)), frame, tm)
  }

  /** All three frames found in the lines pass. */
  ghost predicate Passes(lines: seq<string>, tm: Tm)
    requires Valid(tm)
  {
    forall frame :: 0 <= frame < 3 ==> FramePasses(Widths(Found(lines)), frame, tm)
  }

  /** `check`, given the lines that the dry run printed; a failed assertion is a failure, too. */
  method Check(lines: seq<string>, tm: Tm) returns (ok: bool)
    requires Valid(tm)
    ensures ok <==> Passes(lines, tm)
  {
    hide Widths, FrameWidths, Readable, Gathered, ReadNumbers;
    var widths := ParseWidths(lines);
    for frame := 0 to 3
      invariant forall f :: 0 <= f < frame ==> FramePasses(widths, f, tm)
    {
      var r := DecodeFrame(widths, frame);
      if r.Failed? || !Agrees(r.value, frame, tm) {
        assert !FramePasses(widths, frame, tm);
        return false;
      }
    }
    ok := true;
  }

  /** What the comparison can see of a time. */
  predicate SameFields(a: Tm, b: Tm) {
    && a.hour == b.hour && a.min == b.min && a.wday == b.wday
    && a.mday == b.mday && a.mon == b.mon && a.year % 100 == b.year % 100
  }

  /** A frame sent for one time passes for another exactly if all the fields of the two are equal. */
  lemma FrameDecides(localtime: Zone, t: int, frame: nat, tm: Tm)
    requires frame < 3 && Valid(tm)
    ensures FramePasses(Widths(DryRunLines(localtime, t)), frame, tm)
            <==> SameFields(localtime(t + frame * 20), tm)
  {
    hide DryRunLines, Widths, Readable, Gathered, ReadNumbers, FrameWidths;
    SelfTestPasses(localtime, t, frame);
  }

  lemma DayParts(t: int, x: int)
    requires NINETEEN_HUNDRED <= t && t % 60 == 0 && 0 <= x < 60
    ensures (t + x) / DAY == t / DAY && (t + x) % DAY == t % DAY + x && t % DAY % 60 == 0
  {
    var m := t / 60;
    assert t == 60 * m;
    assert t / DAY == m / 1440 && t % DAY == 60 * (m % 1440);
  }

  lemma MinuteParts(rest: int, x: int)
    requires 0 <= rest && rest % 60 == 0 && 0 <= x < 60
    ensures (rest + x) / 60 == rest / 60 && (rest + x) % 60 == x && (rest + x) / 3600 == rest / 3600
  {
    var m := rest / 60;
    assert rest == 60 * m;
    assert (rest + x) / 3600 == m / 60;
  }

  /** Within a whole minute of UTC only the seconds change. */
  lemma SameMinute(t: int, frame: nat)
    requires NINETEEN_HUNDRED <= t && t % 60 == 0 && frame < 3
    ensures Gmtime(t + 20 * frame) == Gmtime(t).(sec := 20 * frame)
  {
    hide YearOf, MonthDay, DaysBefore, PosixSeconds, IsLeap, Valid;
    var x := 20 * frame;
    DayParts(t, x);
    MinuteParts(t % DAY, x);
    MinuteParts(t % DAY, 0);
  }

  /** The self-test as it is run, in UTC, passes for every whole minute from 1900 on. */
  lemma CheckPasses(localtime: Zone, t: int, frame: nat)
    requires NINETEEN_HUNDRED <= t && t % 60 == 0 && frame < 3
    requires localtime(t + 20 * frame) == Gmtime(t + 20 * frame)
    ensures FramePasses(Widths(DryRunLines(localtime, t)), frame, Gmtime(t))
  {
    hide DryRunLines, Widths, Readable, Gmtime, Gathered, ReadNumbers;
    SelfTestPasses(localtime, t, frame);
    SameMinute(t, frame);
  }

  // ----- The printed dry run -----

  function DigitChar(d: nat): char
    requires d < 10
  {
    (d + '0' as int) as char
  }

  /** The line of a second: three backspaces, the second in two digits, its chart in brackets. */
  function SecondText(s: nat, chart: string): string
    requires s < 60
  {
    "\U{0008}\U{0008}\U{0008}:" + [DigitChar(s / 10), DigitChar(s % 10)] + " [" + chart + "]"
  }

  /** All that a dry run prints, line by line: the time of the minute, its seconds, and an empty line. */
  function Printed(heading: string, charts: seq<string>): (lines: seq<string>)
    requires |charts| == 60
    ensures |lines| == 62
  {
    [heading] + seq(60, s requires 0 <= s < 60 => SecondText(s, charts[s])) + [""]
  }

  lemma {:induction false} NothingFound(text: string)
    requires '[' !in text
    ensures Search(text).None?
  {
    if text == "" {
    } else {
      NothingFound(text[1..]);
    }
  }

  lemma {:induction false} StrokesOf(chart: string, rest: string)
    requires forall i :: 0 <= i < |chart| ==> IsStroke(chart[i])
    requires rest != "" && !IsStroke(rest[0])
    ensures Strokes(chart + rest) == |chart|
  {
    if chart == "" {
      assert chart + rest == rest;
    } else {
      assert (chart + rest)[1..] == chart[1..] + rest;
      StrokesOf(chart[1..], rest);
    }
  }

  /** The pattern finds the second and the whole chart. */
  lemma SecondFound(s: nat, chart: string)
    requires s < 60 && chart != "" && forall i :: 0 <= i < |chart| ==> IsStroke(chart[i])
    ensures Search(SecondText(s, chart)) == Some(Line(s, chart))
  {
    var text := SecondText(s, chart);
    var t1, t2, t3 := text[1..], text[2..], text[3..];
    assert t1[1..] == t2 && t2[1..] == t3;
    assert t3[5..] == chart + "]";
    StrokesOf(chart, "]");
    assert (chart + "]")[..|chart|] == chart;
    assert MatchHere(t3) == Some(Line(s, chart));
    assert Search(t2) == Search(t3) && Search(t1) == Search(t2) && Search(text) == Search(t1);
  }

  // ----- What the pattern matches -----

  /** A colon, two digits, a blank, strokes in brackets, and any rest. */
  function PatternText(tens: nat, units: nat, chart: string, rest: string): string
    requires tens < 10 && units < 10
  {
    ":" + [DigitChar(tens), DigitChar(units)] + " [" + chart + "]" + rest
  }

  predicate IsChart(chart: string) {
    chart != "" && forall i :: 0 <= i < |chart| ==> chart[i] == '_' || chart[i] == '#'
  }

  lemma MatchReads(tens: nat, units: nat, chart: string, rest: string)
    requires tens < 10 && units < 10 && IsChart(chart)
    ensures MatchHere(PatternText(tens, units, chart, rest)) == Some(Line(10 * tens + units, chart))
  {
    hide Strokes;
    var text := PatternText(tens, units, chart, rest);
    assert text[5..] == chart + ("]" + rest);
    StrokesOf(chart, "]" + rest);
    assert (chart + ("]" + rest))[..|chart|] == chart;
  }

  /** Nothing else matches. */
  lemma MatchParts(text: string) returns (tens: nat, units: nat, rest: string)
    requires MatchHere(text).Some?
    ensures tens < 10 && units < 10 && IsChart(MatchHere(text).value.envelope)
    ensures text == PatternText(tens, units, MatchHere(text).value.envelope, rest)
  {
    hide Strokes;
    var chart, n := text[5..], Strokes(text[5..]);
    StrokesAre(chart);
    tens, units, rest := DigitValue(text[1]), DigitValue(text[2]), chart[n + 1..];
    assert chart == chart[..n] + "]" + rest;
    assert text == ":" + [text[1], text[2]] + " [" + chart;
  }

  lemma {:induction false} StrokesAre(text: string)
    ensures forall i :: 0 <= i < Strokes(text) ==> IsStroke(text[i])
  {
    if text == "" || !IsStroke(text[0]) {
    } else {
      StrokesAre(text[1..]);
    }
  }

  /** The search ends at the first place where the pattern matches. */
  lemma {:induction false} SearchFirst(text: string, i: nat)
    requires i <= |text| && MatchHere(text[i..]).Some?
    requires forall j :: 0 <= j < i ==> MatchHere(text[j..]).None?
    ensures Search(text) == MatchHere(text[i..])
    decreases i
  {
    hide MatchHere;
    assert text[0..] == text;
    if i > 0 {
      assert text[1..][i - 1..] == text[i..];
      forall j | 0 <= j < i - 1
        ensures MatchHere(text[1..][j..]).None?
      {
        assert text[1..][j..] == text[j + 1..];
      }
      SearchFirst(text[1..], i - 1);
    }
  }

  /** And finds nothing if there is none. */
  lemma {:induction false} SearchNone(text: string)
    requires forall j :: 0 <= j <= |text| ==> MatchHere(text[j..]).None?
    ensures Search(text).None?
    decreases |text|
  {
    hide MatchHere;
    assert text[0..] == text;
    if text == "" {
    } else {
      forall j | 0 <= j <= |text| - 1
        ensures MatchHere(text[1..][j..]).None?
      {
        assert text[1..][j..] == text[j + 1..];
      }
      SearchNone(text[1..]);
    }
  }

  lemma ChartStrokes(mod: Modulation)
    ensures forall i :: 0 <= i < |Chart(mod)| ==> IsStroke(Chart(mod)[i])
  {
    hide LevelAt;
  }

  /** What is found in the printed charts of a minute. */
  lemma FoundInPrint(localtime: Zone, t: int, heading: string, charts: seq<string>)
    requires '[' !in heading && |charts| == 60
    requires forall s :: 0 <= s < 60 ==> charts[s] == Chart(Bpc.Envelope(MinuteSymbol(localtime, t, s)))
    ensures Found(Printed(heading, charts)) == DryRunLines(localtime, t)
  {
    hide Search, SecondText, Chart, MinuteSymbol, Bpc.Envelope;
    var found, lines := Found(Printed(heading, charts)), DryRunLines(localtime, t);
    NothingFound(heading);
    NothingFound("");
    forall i | 0 <= i < 62
      ensures found[i] == lines[i]
    {
      if 0 < i < 61 {
        ChartStrokes(Bpc.Envelope(MinuteSymbol(localtime, t, i - 1)));
        SecondFound(i - 1, charts[i - 1]);
      }
    }
  }

  /** The printed charts of a whole minute of UTC pass the self-test. */
  lemma PrintPasses(localtime: Zone, t: int, heading: string, charts: seq<string>, frame: nat)
    requires NINETEEN_HUNDRED <= t && t % 60 == 0 && frame < 3
    requires localtime(t + 20 * frame) == Gmtime(t + 20 * frame)
    requires '[' !in heading && |charts| == 60
    requires forall s :: 0 <= s < 60 ==> charts[s] == Chart(Bpc.Envelope(MinuteSymbol(localtime, t, s)))
    ensures FramePasses(Widths(Found(Printed(heading, charts))), frame, Gmtime(t))
  {
    hide DryRunLines, Found, Printed, FramePasses, Widths, Gmtime, Chart, MinuteSymbol, Bpc.Envelope;
    FoundInPrint(localtime, t, heading, charts);
    CheckPasses(localtime, t, frame);
  }

  /**
   What `check` decides about the printed charts of a minute: whether the three times at which its frames began look
   like the time expected.
   */
  lemma PrintDecides(localtime: Zone, t: int, heading: string, charts: seq<string>, tm: Tm)
    requires Valid(tm) && '[' !in heading && |charts| == 60
    requires forall s :: 0 <= s < 60 ==> charts[s] == Chart(Bpc.Envelope(MinuteSymbol(localtime, t, s)))
    ensures Passes(Printed(heading, charts), tm)
            <==> (forall frame :: 0 <= frame < 3 ==> SameFields(localtime(t + frame * 20), tm))
  {
    hide DryRunLines, Found, Printed, FramePasses, Widths, SameFields, Chart, MinuteSymbol, Bpc.Envelope;
    FoundInPrint(localtime, t, heading, charts);
    FrameDecides(localtime, t, 0, tm);
    FrameDecides(localtime, t, 1, tm);
    FrameDecides(localtime, t, 2, tm);
  }

  /** In UTC, a whole minute from 1900 on looks like itself throughout. */
  lemma WholeMinuteAlike(t: int)
    requires NINETEEN_HUNDRED <= t && t % 60 == 0
    ensures forall frame: nat :: frame < 3 ==> SameFields(Gmtime(t + frame * 20), Gmtime(t))
  {
    hide SameFields, Gmtime, Valid, PosixSeconds, YearLength;
    forall frame: nat | frame < 3
      ensures SameFields(Gmtime(t + frame * 20), Gmtime(t))
    {
      FrameAlike(t, frame);
    }
  }

  lemma FrameAlike(t: int, frame: nat)
    requires NINETEEN_HUNDRED <= t && t % 60 == 0 && frame < 3
    ensures SameFields(Gmtime(t + frame * 20), Gmtime(t))
  {
    hide Gmtime, Valid, PosixSeconds, YearLength;
    SameMinute(t, frame);
  }
}
