/** The validation of schedule times, `clean_times` in `web/txtempus-web.py`. */
module ScheduleTimes {
  import opened Options
  import opened Text
  import opened Conf
  import opened ConfLaws

  /** What a request or the configuration may hold; the items of a list are taken as text. */
  datatype Value = Str(text: string) | List(items: seq<string>) | Other

  predicate Digit(c: char, max: char) {
    '0' <= c <= max
  }

  /** `TIME_RE` */
  predicate IsTime(t: string) {
    && |t| == 5
    && ((Digit(t[0], '1') && Digit(t[1], '9')) || (t[0] == '2' && Digit(t[1], '3')))
    && t[2] == ':' && Digit(t[3], '5') && Digit(t[4], '9')
  }

  /** `text.split(",")` */
  function Split(text: string): (items: seq<string>)
    ensures |items| > 0
  {
    if text == "" then [""]
    else
      var rest := Split(text[1..]);
      if text[0] == ',' then [""] + rest else [[text[0]] + rest[0]] + rest[1..]
  }

  /** `",".join(items)` */
  function Join(items: seq<string>): string {
    if items == [] then "" else if |items| == 1 then items[0] else items[0] + "," + Join(items[1..])
  }

  function Items(value: Value): seq<string>
    requires !value.Other?
  {
    if value.Str? then Split(value.text) else value.items
  }

  /** The items that are not blank, stripped. */
  function Stated(items: seq<string>): seq<string> {
    if items == [] then []
    else
      var t := Strip(items[|items| - 1]);
      Stated(items[..|items| - 1]) + if t == "" then [] else [t]
  }

  predicate AllTimes(items: seq<string>) {
    forall i :: 0 <= i < |items| ==> IsTime(items[i])
  }

  /** What `clean_times` returns: all that is stated, if all of that is times. */
  function Cleaned(value: Value): Option<seq<string>> {
    if !value.Other? && AllTimes(Stated(Items(value))) then Some(Stated(Items(value))) else None
  }

  method CleanTimes(value: Value) returns (times: Option<seq<string>>)
    ensures times == Cleaned(value)
  {
    hide Strip, IsTime, Split;
    if value.Other? {
      return None;
    }
    var items := if value.Str? then Split(value.text) else value.items;
    var out := [];
    for i := 0 to |items|
      invariant out == Stated(items[..i]) && AllTimes(out)
    {
      assert items[..i + 1][..i] == items[..i];
      var t := Strip(items[i]);
      if t == "" {
        continue;
      }
      if !IsTime(t) {
        StatedPrefix(items, i + 1);
        assert Stated(items[..i + 1])[|out|] == t;
        return None;
      }
      out := out + [t];
    }
    assert items[..|items|] == items;
    times := Some(out);
  }

  lemma {:induction false} StatedPrefix(items: seq<string>, i: nat)
    requires i <= |items|
    ensures Stated(items[..i]) <= Stated(items)
    decreases |items|
  {
    hide Strip;
    if i == |items| {
      assert items[..i] == items;
    } else {
      assert items[..|items| - 1][..i] == items[..i];
      StatedPrefix(items[..|items| - 1], i);
    }
  }

  // ----- Which items count -----

  lemma {:induction false} StatedConcat(a: seq<string>, b: seq<string>)
    ensures Stated(a + b) == Stated(a) + Stated(b)
    decreases |b|
  {
    hide Strip;
    if b == [] {
      assert a + b == a;
    } else {
      var n := |b| - 1;
      assert (a + b)[..|a + b| - 1] == a + b[..n];
      StatedConcat(a, b[..n]);
    }
  }

  /** White space around an item means nothing, and an item of nothing else counts for nothing, wherever it stands. */
  lemma OneItem(a: seq<string>, x: string, t: string, y: string, b: seq<string>)
    requires Blank(x) && Tight(t) && Blank(y)
    ensures Stated(a + [x + t + y] + b) == Stated(a) + (if t == "" then [] else [t]) + Stated(b)
  {
    hide Strip, IsSpace;
    StripIs(x, t, y);
    StatedConcat(a + [x + t + y], b);
    StatedConcat(a, [x + t + y]);
  }

  // ----- What a time is -----

  function DecimalDigit(d: nat): char
    requires d < 10
  {
    "0123456789"[d]
  }

  /** Hour and minute in two digits each, a colon between them. */
  function ClockText(hour: nat, minute: nat): string
    requires hour < 24 && minute < 60
  {
    [ DecimalDigit(hour / 10), DecimalDigit(hour % 10), ':', DecimalDigit(minute / 10), DecimalDigit(minute % 10) ]
  }

  /** The times accepted are those of a day, each in one spelling. */
  lemma TimeIff(t: string)
    ensures IsTime(t) <==> exists hour, minute :: 0 <= hour < 24 && 0 <= minute < 60 && t == ClockText(hour, minute)
  {
    if IsTime(t) {
      var hour, minute := TimeParts(t);
      assert t == ClockText(hour, minute);
    } else if exists hour, minute :: 0 <= hour < 24 && 0 <= minute < 60 && t == ClockText(hour, minute) {
      var hour, minute :| 0 <= hour < 24 && 0 <= minute < 60 && t == ClockText(hour, minute);
      ClockIsTime(hour, minute);
      assert false;
    }
  }

  lemma TimeParts(t: string) returns (hour: nat, minute: nat)
    requires IsTime(t)
    ensures hour < 24 && minute < 60 && t == ClockText(hour, minute)
  {
    var h := DigitOf(t[0]);
    var g := DigitOf(t[1]);
    var m := DigitOf(t[3]);
    var n := DigitOf(t[4]);
    hour, minute := 10 * h + g, 10 * m + n;
    assert hour / 10 == h && hour % 10 == g && minute / 10 == m && minute % 10 == n;
    assert t == [t[0], t[1], t[2], t[3], t[4]];
  }

  lemma DigitOf(c: char) returns (d: nat)
    requires '0' <= c <= '9'
    ensures d < 10 && c == DecimalDigit(d) && d == c as int - '0' as int
  {
    d := c as int - '0' as int;
  }

  lemma ClockIsTime(hour: nat, minute: nat)
    requires hour < 24 && minute < 60
    ensures IsTime(ClockText(hour, minute))
  {
    DigitRange(hour / 10);
    DigitRange(hour % 10);
    DigitRange(minute / 10);
    DigitRange(minute % 10);
  }

  lemma DigitRange(d: nat)
    requires d < 10
    ensures DecimalDigit(d) as int == '0' as int + d
  {
  }

  // ----- The way through the configuration file -----

  /** A time is tight and holds neither a comma nor a line break. */
  lemma TimeShape(t: string)
    requires IsTime(t)
    ensures Strip(t) == t && t != "" && ',' !in t && '\n' !in t && '\r' !in t
  {
  }

  lemma {:induction false} StatedTimes(items: seq<string>)
    requires AllTimes(items)
    ensures Stated(items) == items
  {
    hide IsTime, Strip;
    if items == [] {
    } else {
      var n := |items| - 1;
      TimeShape(items[n]);
      assert AllTimes(items[..n]);
      hide AllTimes;
      StatedTimes(items[..n]);
      assert items == items[..n] + [items[n]];
    }
  }

  lemma {:induction false} SplitPart(part: string, rest: string)
    requires ',' !in part
    ensures Split(part + "," + rest) == [part] + Split(rest)
    decreases |part|
  {
    var text := part + "," + rest;
    if part == "" {
      assert text[1..] == rest;
    } else {
      assert text[1..] == part[1..] + "," + rest;
      SplitPart(part[1..], rest);
      assert [part[0]] + part[1..] == part;
    }
  }

  lemma {:induction false} SplitWhole(part: string)
    requires ',' !in part
    ensures Split(part) == [part]
    decreases |part|
  {
    if part == "" {
    } else {
      SplitWhole(part[1..]);
      assert [part[0]] + part[1..] == part;
    }
  }

  lemma {:induction false} SplitJoin(items: seq<string>)
    requires items != [] && forall i :: 0 <= i < |items| ==> ',' !in items[i]
    ensures Split(Join(items)) == items
    decreases |items|
  {
    hide Split;
    if |items| == 1 {
      SplitWhole(items[0]);
    } else {
      SplitPart(items[0], Join(items[1..]));
      SplitJoin(items[1..]);
    }
  }

  /** Times joined with commas are cleaned to the same times, and so is their list; no times at all are kept, too. */
  lemma JoinedAgain(times: seq<string>)
    requires AllTimes(times)
    ensures Cleaned(Str(Join(times))) == Some(times) && Cleaned(List(times)) == Some(times)
  {
    hide IsTime, Strip, Split;
    StatedTimes(times);
    if times == [] {
      EmptyCleaned();
    } else {
      forall i | 0 <= i < |times|
        ensures ',' !in times[i]
      {
        TimeShape(times[i]);
      }
      SplitJoin(times);
    }
  }

  /** `", ".join(items)` */
  function JoinSpaced(items: seq<string>): string {
    if items == [] then "" else if |items| == 1 then items[0] else items[0] + ", " + JoinSpaced(items[1..])
  }

  /** The items of a list joined in that way, as they are after splitting at the commas. */
  function Spaced(items: seq<string>): (r: seq<string>)
    ensures |r| == |items|
  {
    seq(|items|, i requires 0 <= i < |items| => if i == 0 then items[i] else " " + items[i])
  }

  lemma {:induction false} SplitSpaced(items: seq<string>, pre: string)
    requires items != [] && ',' !in pre && forall i :: 0 <= i < |items| ==> ',' !in items[i]
    ensures Split(pre + JoinSpaced(items)) == [pre + items[0]] + Spaced(items)[1..]
    decreases |items|
  {
    hide Split;
    if |items| == 1 {
      SplitWhole(pre + items[0]);
      assert Spaced(items)[1..] == [];
    } else {
      var rest := items[1..];
      assert pre + JoinSpaced(items) == (pre + items[0]) + "," + (" " + JoinSpaced(rest));
      SplitPart(pre + items[0], " " + JoinSpaced(rest));
      SplitSpaced(rest, " ");
      assert Spaced(items)[1..] == [" " + rest[0]] + Spaced(rest)[1..];
    }
  }

  lemma {:induction false} StatedStripped(items: seq<string>, times: seq<string>)
    requires |items| == |times| && forall i :: 0 <= i < |items| ==> Strip(items[i]) == times[i] && times[i] != ""
    ensures Stated(items) == times
  {
    hide Strip;
    if items == [] {
    } else {
      var n := |items| - 1;
      StatedStripped(items[..n], times[..n]);
      assert times == times[..n] + [times[n]];
    }
  }

  /** Blanks behind the commas make no difference. */
  lemma SpacesIgnored(times: seq<string>)
    requires AllTimes(times)
    ensures Cleaned(Str(JoinSpaced(times))) == Some(times)
  {
    hide IsTime, Split;
    if times == [] {
      EmptyCleaned();
    } else {
      hide Strip;
      var items := Spaced(times);
      forall i | 0 <= i < |times|
        ensures ',' !in times[i] && Strip(items[i]) == times[i] && times[i] != ""
      {
        TimeShape(times[i]);
        StripFacts(times[i]);
        assert " " + times[i] == " " + times[i] + "";
        StripIs(" ", times[i], "");
      }
      SplitSpaced(times, "");
      assert "" + JoinSpaced(times) == JoinSpaced(times) && "" + times[0] == times[0];
      assert items == [times[0]] + items[1..];
      StatedStripped(items, times);
    }
  }

  lemma EmptyCleaned()
    ensures Cleaned(Str("")) == Some([])
  {
  }

  /** Cleaning is idempotent. */
  lemma CleanedAgain(value: Value)
    requires Cleaned(value).Some?
    ensures Cleaned(List(Cleaned(value).value)) == Cleaned(value)
  {
    hide IsTime, Strip, Split, Stated, Items;
    JoinedAgain(Cleaned(value).value);
  }

  lemma {:induction false} JoinShape(times: seq<string>)
    requires AllTimes(times)
    ensures Tight(Join(times)) && GoodValue(Join(times))
    ensures times != [] ==> Join(times) != ""
    decreases |times|
  {
    hide IsTime, Strip;
    if times == [] {
    } else {
      TimeShape(times[0]);
      StripFacts(times[0]);
      JoinShape(times[1..]);
    }
  }

  const TIMES_KEY := "SCHEDULE_TIMES"

  /** The key is one that updates may use. */
  lemma TimesKeyIsGood()
    ensures GoodKey(TIMES_KEY)
  {
    assert TIMES_KEY == "" + TIMES_KEY + "";
    StripIs("", TIMES_KEY, "");
  }

  /**
   Times saved with one update come back from the file as they were accepted, whatever else the file and the
   update hold.
   */
  lemma TimesSurvive(file: File, updates: seq<Setting>, i: nat, value: Value)
    requires GoodUpdates(updates) && !Glues(file, updates) && i < |updates|
    requires Cleaned(value).Some? && updates[i] == Setting(TIMES_KEY, Join(Cleaned(value).value))
    ensures var conf := Read(Updated(file, updates));
            TIMES_KEY in conf && Cleaned(Str(conf[TIMES_KEY])) == Cleaned(value)
  {
    hide IsTime, Strip, Split, Stated, Items, Read, Updated, Glues, GoodUpdates, AsMap;
    var times := Cleaned(value).value;
    UpdateReadsBack(file, updates);
    AsMapOf(updates, i);
    JoinShape(times);
    assert "" + Join(times) + "" == Join(times);
    StripIs("", Join(times), "");
    JoinedAgain(times);
  }

  lemma AsMapOf(updates: seq<Setting>, i: nat)
    requires GoodUpdates(updates) && i < |updates|
    ensures updates[i].key in AsMap(updates) && AsMap(updates)[updates[i].key] == updates[i].value
  {
    hide GoodKey, GoodValue;
    AsMapValue(updates, i);
  }
}
