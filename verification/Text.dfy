/** Text as Python reads and strips it. */
module Text {

  /** The characters that `str.strip` removes. */
  predicate IsSpace(c: char) {
    var u := c as int;
    || 0x9 <= u <= 0xD || 0x1C <= u <= 0x20 || u == 0x85 || u == 0xA0 || u == 0x1680
    || 0x2000 <= u <= 0x200A || u == 0x2028 || u == 0x2029 || u == 0x202F || u == 0x205F || u == 0x3000
  }

  function StripLeft(s: string): string {
    if s != "" && IsSpace(s[0]) then StripLeft(s[1..]) else s
  }

  function StripRight(s: string): string {
    if s != "" && IsSpace(s[|s| - 1]) then StripRight(s[..|s| - 1]) else s
  }

  /** `str.strip` */
  function Strip(s: string): string {
    StripRight(StripLeft(s))
  }

  predicate Blank(s: string) {
    forall i :: 0 <= i < |s| ==> IsSpace(s[i])
  }

  /** Neither the first nor the last character is white space. */
  predicate Tight(s: string) {
    s == "" || (!IsSpace(s[0]) && !IsSpace(s[|s| - 1]))
  }

  lemma {:induction false} LeftIs(a: string, m: string)
    requires Blank(a) && (m == "" || !IsSpace(m[0]))
    ensures StripLeft(a + m) == m
    decreases |a|
  {
    if a == "" {
      assert a + m == m;
    } else {
      assert (a + m)[1..] == a[1..] + m;
      LeftIs(a[1..], m);
    }
  }

  lemma {:induction false} RightIs(m: string, b: string)
    requires Blank(b) && (m == "" || !IsSpace(m[|m| - 1]))
    ensures StripRight(m + b) == m
    decreases |b|
  {
    if b == "" {
      assert m + b == m;
    } else {
      assert (m + b)[..|m + b| - 1] == m + b[..|b| - 1];
      RightIs(m, b[..|b| - 1]);
    }
  }

  /** Stripping takes away just the white space around a tight middle. */
  lemma StripIs(a: string, m: string, b: string)
    requires Blank(a) && Tight(m) && Blank(b)
    ensures Strip(a + m + b) == m
  {
    if m == "" {
      assert a + m + b == (a + b) + "";
      LeftIs(a + b, "");
    } else {
      assert a + m + b == a + (m + b);
      LeftIs(a, m + b);
      RightIs(m, b);
    }
  }

  lemma {:induction false} LeftSplit(s: string) returns (a: string)
    ensures s == a + StripLeft(s) && Blank(a) && (StripLeft(s) == "" || !IsSpace(StripLeft(s)[0]))
    decreases |s|
  {
    a := "";
    if s != "" && IsSpace(s[0]) {
      var rest := LeftSplit(s[1..]);
      a := [s[0]] + rest;
    }
  }

  lemma {:induction false} RightSplit(s: string) returns (b: string)
    ensures s == StripRight(s) + b && Blank(b) && (StripRight(s) == "" || !IsSpace(StripRight(s)[|StripRight(s)| - 1]))
    decreases |s|
  {
    b := "";
    if s != "" && IsSpace(s[|s| - 1]) {
      var rest := RightSplit(s[..|s| - 1]);
      b := rest + [s[|s| - 1]];
    }
  }

  /** Every text is its stripped form between two blanks. */
  lemma StripSplit(s: string) returns (a: string, b: string)
    ensures s == a + Strip(s) + b && Blank(a) && Blank(b) && Tight(Strip(s))
  {
    a := LeftSplit(s);
    b := RightSplit(StripLeft(s));
  }

  /** Stripped text is tight, stripping it again changes nothing, and it has no character of its own. */
  lemma StripFacts(s: string)
    ensures Tight(Strip(s)) && Strip(Strip(s)) == Strip(s)
    ensures |Strip(s)| <= |s| && forall c :: c in Strip(s) ==> c in s
    ensures s != "" && !IsSpace(s[0]) ==> Strip(s) != "" && Strip(s)[0] == s[0]
  {
    hide Strip;
    var a, b := StripSplit(s);
    var m := Strip(s);
    assert "" + m + "" == m;
    StripIs("", m, "");
    assert s[|a|..|a| + |m|] == m;
  }

  // ----- Lines -----

  /** Opening a file in text mode turns "\r\n" and "\r" into "\n". */
  function Translated(text: string): string {
    if text == "" then ""
    else if text[0] == '\r' then
      "\n" + Translated(if |text| > 1 && text[1] == '\n' then text[2..] else text[1..])
    else [text[0]] + Translated(text[1..])
  }

  lemma {:induction false} TranslatedPlain(text: string)
    ensures '\r' !in Translated(text)
    ensures '\r' !in text ==> Translated(text) == text
    decreases |text|
  {
    if text == "" {
    } else {
      if text[0] == '\r' {
        TranslatedPlain(if |text| > 1 && text[1] == '\n' then text[2..] else text[1..]);
      } else {
        TranslatedPlain(text[1..]);
        if '\r' !in text {
          assert '\r' !in text[1..];
          assert text == [text[0]] + text[1..];
        }
      }
    }
  }

  lemma {:induction false} TranslatedPrefix(a: string, b: string)
    requires '\r' !in a
    ensures Translated(a + b) == a + Translated(b)
  {
    if a == "" {
      assert a + b == b;
    } else {
      assert (a + b)[1..] == a[1..] + b;
      TranslatedPrefix(a[1..], b);
      assert a == [a[0]] + a[1..];
    }
  }

  /** Both other ways to end a line are read as newlines. */
  lemma LineEnds(a: string, b: string)
    requires '\r' !in a
    ensures Translated(a + "\r\n" + b) == a + "\n" + Translated(b)
    ensures b == "" || b[0] != '\n' ==> Translated(a + "\r" + b) == a + "\n" + Translated(b)
  {
    var crlf, cr := "\r\n" + b, "\r" + b;
    assert a + "\r\n" + b == a + crlf && a + "\r" + b == a + cr;
    TranslatedPrefix(a, crlf);
    TranslatedPrefix(a, cr);
    assert crlf[2..] == b && cr[1..] == b;
    assert a + "\n" + Translated(b) == a + ("\n" + Translated(b));
  }

  /** The length of the first line, its newline included. */
  function FirstLine(text: string): (n: nat)
    ensures n <= |text| && (text != "" ==> n > 0)
  {
    if text == "" then 0 else if text[0] == '\n' then 1 else 1 + FirstLine(text[1..])
  }

  /** `readlines` */
  function Lines(text: string): seq<string> {
    if text == "" then [] else [text[..FirstLine(text)]] + Lines(text[FirstLine(text)..])
  }

  /** `writelines` */
  function Concat(lines: seq<string>): string {
    if lines == [] then "" else lines[0] + Concat(lines[1..])
  }

  /** A newline at the end and no other. */
  predicate Terminated(line: string) {
    line != "" && line[|line| - 1] == '\n' && '\n' !in line[..|line| - 1]
  }

  predicate AllTerminated(lines: seq<string>) {
    forall i :: 0 <= i < |lines| ==> Terminated(lines[i])
  }

  lemma {:induction false} FirstLineIs(line: string, rest: string)
    requires Terminated(line) || (line != "" && '\n' !in line && rest == "")
    ensures FirstLine(line + rest) == |line|
    decreases |line|
  {
    if line[0] == '\n' || |line| == 1 {
    } else {
      assert (line + rest)[1..] == line[1..] + rest;
      if Terminated(line) {
        assert line[1..][..|line| - 2] == line[..|line| - 1][1..];
      }
      FirstLineIs(line[1..], rest);
    }
  }

  /** Writing lines and reading them again gives the same lines; the last one may lack its newline. */
  lemma {:induction false} LinesOfConcat(lines: seq<string>, last: string)
    requires AllTerminated(lines) && '\n' !in last
    ensures Lines(Concat(lines) + last) == lines + if last == "" then [] else [last]
    decreases |lines|
  {
    if lines == [] {
      if last != "" {
        FirstLineIs(last, "");
        assert last + "" == last;
      }
      assert Concat(lines) + last == last;
    } else {
      var text := Concat(lines) + last;
      assert text == lines[0] + (Concat(lines[1..]) + last);
      FirstLineIs(lines[0], Concat(lines[1..]) + last);
      LinesOfConcat(lines[1..], last);
    }
  }

  lemma {:induction false} ConcatAppend(a: seq<string>, b: seq<string>)
    ensures Concat(a + b) == Concat(a) + Concat(b)
    decreases |a|
  {
    if a == [] {
      assert a + b == b;
    } else {
      assert (a + b)[1..] == a[1..] + b;
      ConcatAppend(a[1..], b);
    }
  }

  /** The lines of a text: terminated ones, then perhaps a rest without a newline. */
  predicate IsSplit(text: string, lines: seq<string>, last: string) {
    && AllTerminated(lines) && '\n' !in last && text == Concat(lines) + last
    && Lines(text) == lines + (if last == "" then [] else [last])
    && (last == "" <==> text == "" || text[|text| - 1] == '\n')
  }

  lemma {:induction false} LinesSplit(text: string) returns (lines: seq<string>, last: string)
    ensures IsSplit(text, lines, last)
    decreases |text|
  {
    lines, last := [], text;
    if text == "" {
    } else {
      var n := FirstLine(text);
      FirstLineSplits(text);
      if n < |text| || text[|text| - 1] == '\n' {
        hide IsSplit;
        var rest, tail := LinesSplit(text[n..]);
        SplitFirst(text, rest, tail);
        lines, last := [text[..n]] + rest, tail;
      } else {
        OneLine(text);
      }
    }
  }

  lemma SplitFirst(text: string, rest: seq<string>, last: string)
    requires text != "" && Terminated(text[..FirstLine(text)]) && IsSplit(text[FirstLine(text)..], rest, last)
    ensures IsSplit(text, [text[..FirstLine(text)]] + rest, last)
  {
    hide FirstLine;
    var n := FirstLine(text);
    var lines := [text[..n]] + rest;
    assert lines[1..] == rest && text == text[..n] + text[n..];
    assert Lines(text) == [text[..n]] + Lines(text[n..]);
    FirstTerminated(text[..n], rest);
  }

  lemma FirstTerminated(line: string, lines: seq<string>)
    requires Terminated(line) && AllTerminated(lines)
    ensures AllTerminated([line] + lines)
  {
    hide Terminated;
  }

  lemma OneLine(text: string)
    requires text != "" && '\n' !in text && FirstLine(text) == |text|
    ensures IsSplit(text, [], text)
  {
    LinesOne(text);
    hide FirstLine, Lines, Terminated;
    assert [] + [text] == [text];
    assert text[|text| - 1] in text;
  }

  lemma LinesOne(text: string)
    requires text != "" && FirstLine(text) == |text|
    ensures Lines(text) == [text]
  {
    hide FirstLine;
    assert text[..|text|] == text && text[|text|..] == "";
    assert Lines(text) == [text] + Lines("");
  }

  lemma {:induction false} FirstLineSplits(text: string)
    requires text != ""
    ensures var n := FirstLine(text); Terminated(text[..n]) || (n == |text| && '\n' !in text)
    ensures var n := FirstLine(text); n == |text| && text[n - 1] != '\n' ==> '\n' !in text
    decreases |text|
  {
    if text[0] == '\n' || |text| == 1 {
    } else {
      FirstLineSplits(text[1..]);
      var n := FirstLine(text);
      assert text[..n] == [text[0]] + text[1..][..n - 1];
    }
  }
}
