/**
 What a line of the configuration file means, told by its characters: where the key ends and the value begins,
 which lines say nothing, which line of several decides, and what an update makes of each line.
 */
module ConfLines {
  import opened Options
  import opened Text
  import opened Conf
  import opened ConfLaws

  // ----- Characters -----

  /** Blank, tab, line feed, vertical tab, form feed and carriage return are white space; no visible ASCII one is. */
  lemma SpaceChars(c: char)
    ensures c == ' ' || '\t' <= c <= '\r' ==> IsSpace(c)
    ensures '!' <= c <= '~' ==> !IsSpace(c)
    ensures c < '\t' ==> !IsSpace(c)
  {
  }

  /** Nothing but blanks, tabs and line ends. */
  predicate White(s: string) {
    forall i :: 0 <= i < |s| ==> s[i] == ' ' || s[i] == '\t' || s[i] == '\n' || s[i] == '\r'
  }

  /** Empty, or with a visible ASCII character at either end. */
  predicate Trimmed(s: string) {
    s == "" || ('!' <= s[0] <= '~' && '!' <= s[|s| - 1] <= '~')
  }

  // ----- A line that sets something -----

  /** The line as the parts it is made of. */
  function Assignment(a: string, k: string, b: string, c: string, v: string, d: string): string {
    a + (k + b + "=" + (c + v)) + d
  }

  /** A name that can stand before the '=' of a line: tight, without '=', and no beginning of a comment. */
  predicate Name(k: string) {
    Tight(k) && '=' !in k && (k == "" || k[0] != '#')
  }

  /** White space at either end of the line and around its first '=' means nothing. */
  lemma LineReads(a: string, k: string, b: string, c: string, v: string, d: string)
    requires Blank(a) && Blank(b) && Blank(c) && Blank(d) && Name(k) && Tight(v)
    ensures Entry(Assignment(a, k, b, c, v, d)) == Some(Setting(k, v))
  {
    hide Strip, Before, IsSpace;
    if k == "" {
      assert Assignment(a, k, b, c, v, d) == (a + b) + ("=" + (c + v)) + d;
      assert Blank(a + b);
      assert "=" + (c + v) == "" + "" + "=" + (c + v);
      CoreReads(a + b, "", "", c, v, d);
    } else {
      CoreReads(a, k, b, c, v, d);
    }
  }

  lemma CoreReads(a: string, k: string, b: string, c: string, v: string, d: string)
    requires Blank(a) && Blank(b) && Blank(c) && Blank(d) && Name(k) && Tight(v) && (k == "" ==> b == "")
    ensures Entry(a + (k + b + "=" + (c + v)) + d) == Some(Setting(k, v))
  {
    hide Strip, Before, IsSpace;
    var line := a + (k + b + "=" + (c + v)) + d;
    if v == "" {
      assert line == a + (k + b + "=" + "") + (c + d);
      assert Blank(c + d);
      TightCore(k, b, "", "");
      StripIs(a, k + b + "=" + "", c + d);
      CoreSets(k, b, "", "");
    } else {
      TightCore(k, b, c, v);
      StripIs(a, k + b + "=" + (c + v), d);
      CoreSets(k, b, c, v);
    }
  }

  lemma TightCore(k: string, b: string, c: string, v: string)
    requires Name(k) && Tight(v) && (k == "" ==> b == "") && (v == "" ==> c == "")
    ensures Tight(k + b + "=" + (c + v))
  {
    NoSpace();
  }

  lemma NoSpace()
    ensures !IsSpace('=') && !IsSpace('#')
  {
  }

  lemma CoreSets(k: string, b: string, c: string, v: string)
    requires Blank(b) && Blank(c) && Name(k) && Tight(v) && (k == "" ==> b == "")
    ensures var s := k + b + "=" + (c + v);
            && '=' in s && s[0] != '#'
            && Strip(Before(s)) == k && Strip(After(s)) == v
  {
    hide Strip, Before, IsSpace, Tight;
    BlankNoEquals(b);
    BeforeIs(k + b, c + v);
    assert k + b == "" + k + b && c + v == c + v + "";
    StripIs("", k, b);
    StripIs(c, v, "");
    assert After(k + b + "=" + (c + v)) == c + v;
  }

  lemma BlankNoEquals(b: string)
    requires Blank(b)
    ensures '=' !in b && '#' !in b
  {
    NoSpace();
  }

  /** The same told by characters alone: however a visible key and value are set off with blanks and tabs. */
  lemma PlainLineReads(a: string, k: string, b: string, c: string, v: string, d: string)
    requires White(a) && White(b) && White(c) && White(d)
    requires Trimmed(k) && '=' !in k && (k == "" || k[0] != '#') && Trimmed(v)
    ensures Entry(a + k + b + "=" + c + v + d) == Some(Setting(k, v))
  {
    hide Entry;
    WhiteIsBlank(a);
    WhiteIsBlank(b);
    WhiteIsBlank(c);
    WhiteIsBlank(d);
    TrimmedIsTight(k);
    TrimmedIsTight(v);
    assert a + k + b + "=" + c + v + d == Assignment(a, k, b, c, v, d);
    LineReads(a, k, b, c, v, d);
  }

  lemma WhiteIsBlank(s: string)
    requires White(s)
    ensures Blank(s)
  {
    hide IsSpace;
    forall i | 0 <= i < |s|
      ensures IsSpace(s[i])
    {
      SpaceChars(s[i]);
    }
  }

  lemma TrimmedIsTight(s: string)
    requires Trimmed(s)
    ensures Tight(s)
  {
    hide IsSpace;
    if s != "" {
      SpaceChars(s[0]);
      SpaceChars(s[|s| - 1]);
    }
  }

  /** Every line that makes a setting is made of such parts. */
  lemma LineParts(line: string) returns (a: string, b: string, c: string, d: string)
    requires Entry(line).Some?
    ensures var e := Entry(line).value;
            && line == Assignment(a, e.key, b, c, e.value, d)
            && Blank(a) && Blank(b) && Blank(c) && Blank(d) && Name(e.key) && Tight(e.value)
  {
    hide Strip, Before, IsSpace, Blank, Tight, Assignment;
    var pre, post := StripSplit(line);
    var s := Strip(line);
    var x, y := StripSplit(Before(s));
    var z, w := StripSplit(After(s));
    Regrouped(pre, x, Strip(Before(s)), y, z, Strip(After(s)), w, post);
    KeyStart(s, x, Strip(Before(s)), y);
    StripFacts(Before(s));
    a, b, c, d := pre + x, y, z, w + post;
  }

  lemma Regrouped(pre: string, x: string, k: string, y: string, z: string, v: string, w: string, post: string)
    requires Blank(pre) && Blank(x) && Blank(w) && Blank(post)
    ensures pre + ((x + k + y) + "=" + (z + v + w)) + post == Assignment(pre + x, k, y, z, v, w + post)
    ensures Blank(pre + x) && Blank(w + post)
  {
    hide IsSpace;
  }

  lemma KeyStart(s: string, x: string, k: string, y: string)
    requires Tight(s) && s != "" && s[0] != '#' && '=' in s && Before(s) == x + k + y && Blank(x)
    ensures k == "" || k[0] != '#'
  {
    hide IsSpace, Before;
    var p := x + k + y;
    assert p == x + (k + y);
    FirstIs(x, k + y);
    assert p != "" ==> s[0] == p[0];
  }

  lemma FirstIs(x: string, rest: string)
    requires Blank(x)
    ensures x == "" || IsSpace((x + rest)[0])
  {
  }

  // ----- A line that sets nothing -----

  /** A line that begins with '#', perhaps behind white space. */
  ghost predicate Comment(line: string) {
    exists a: string, rest: string :: Blank(a) && line == a + "#" + rest
  }

  /** The lines that mean nothing are the blank ones, the comments and those without '='. */
  lemma NothingIff(line: string)
    ensures Entry(line) == None <==> Blank(line) || Comment(line) || '=' !in line
  {
    hide Strip, Before, Comment, Blank;
    StripBlank(line);
    if Strip(line) != "" && Strip(line)[0] == '#' {
      StripComment(line);
    }
    if Comment(line) {
      CommentStrip(line);
    }
    EqualsKept(line);
  }

  lemma StripBlank(line: string)
    ensures Strip(line) == "" <==> Blank(line)
  {
    hide Strip, IsSpace;
    var a, b := StripSplit(line);
    if Blank(line) {
      assert line == line + "" + "";
      StripIs(line, "", "");
    }
    assert Strip(line) == "" ==> line == a + b;
    assert Blank(a + b);
  }

  lemma StripComment(line: string)
    requires Strip(line) != "" && Strip(line)[0] == '#'
    ensures Comment(line)
  {
    hide Strip, Blank;
    var a, b := StripSplit(line);
    var s := Strip(line);
    assert line == a + "#" + (s[1..] + b);
  }

  lemma CommentStrip(line: string)
    requires Comment(line)
    ensures Strip(line) != "" && Strip(line)[0] == '#'
  {
    hide StripLeft, StripRight;
    var a: string, rest: string :| Blank(a) && line == a + "#" + rest;
    var c := "#" + rest;
    assert line == a + c;
    NoSpace();
    LeftIs(a, c);
    var b := RightSplit(c);
    BlankNoEquals(b);
    assert c[0] == (StripRight(c) + b)[0];
  }

  lemma EqualsKept(line: string)
    ensures '=' in Strip(line) <==> '=' in line
  {
    hide Strip, Blank;
    var a, b := StripSplit(line);
    BlankNoEquals(a);
    BlankNoEquals(b);
  }

  // ----- Several lines -----

  predicate Sets(line: string, k: string) {
    Entry(line).Some? && Entry(line).value.key == k
  }

  predicate SetsAny(line: string, updates: seq<Setting>) {
    exists u :: 0 <= u < |updates| && Sets(line, updates[u].key)
  }

  /** A key has the value of the last line that sets it. */
  lemma {:induction false} LastLineWins(lines: seq<string>, k: string, i: nat)
    requires i < |lines| && Sets(lines[i], k) && forall j :: i < j < |lines| ==> !Sets(lines[j], k)
    ensures k in ReadLines(lines) && ReadLines(lines)[k] == Entry(lines[i]).value.value
    decreases |lines|
  {
    hide Entry;
    var n := |lines| - 1;
    if i < n {
      LastLineWins(lines[..n], k, i);
      assert !Sets(lines[n], k);
    }
  }

  /** A key that no line sets has none. */
  lemma {:induction false} UnsetIsAbsent(lines: seq<string>, k: string)
    requires forall j :: 0 <= j < |lines| ==> !Sets(lines[j], k)
    ensures k !in ReadLines(lines)
    decreases |lines|
  {
    hide Entry;
    if lines == [] {
    } else {
      var n := |lines| - 1;
      UnsetIsAbsent(lines[..n], k);
      assert !Sets(lines[n], k);
    }
  }

  // ----- What an update makes of the lines -----

  /** The places of the updates whose keys are not known, in order: all of them and no others. */
  ghost predicate PlacesOf(places: seq<nat>, updates: seq<Setting>, known: set<string>) {
    Increasing(places, |updates|) && forall i :: 0 <= i < |updates| ==> (i in places <==> updates[i].key !in known)
  }

  predicate Increasing(places: seq<nat>, n: nat) {
    && (forall j :: 0 <= j < |places| ==> places[j] < n)
    && (forall j, l :: 0 <= j < l < |places| ==> places[j] < places[l])
  }

  /** The lines written for the updates at some places. */
  ghost predicate WrittenFor(lines: seq<string>, places: seq<nat>, updates: seq<Setting>) {
    && |lines| == |places|
    && forall j :: 0 <= j < |places| ==>
         places[j] < |updates| && lines[j] == updates[places[j]].key + "=" + updates[places[j]].value + "\n"
  }

  lemma {:induction false} AppendedInOrder(updates: seq<Setting>, known: set<string>) returns (places: seq<nat>)
    ensures PlacesOf(places, updates, known) && WrittenFor(Appended(updates, known), places, updates)
    decreases |updates|
  {
    places := [];
    if updates == [] {
    } else {
      hide PlacesOf, WrittenFor;
      var n := |updates| - 1;
      places := AppendedInOrder(updates[..n], known);
      PlacesNext(places, updates, known);
      WrittenNext(Appended(updates[..n], known), places, updates);
      if updates[n].key !in known {
        places := places + [n];
      }
    }
  }

  lemma WrittenNext(lines: seq<string>, places: seq<nat>, updates: seq<Setting>)
    requires updates != [] && WrittenFor(lines, places, updates[..|updates| - 1])
    ensures var n := |updates| - 1;
            WrittenFor(lines, places, updates) && WrittenFor(lines + [Line(updates[n])], places + [n], updates)
  {
  }

  lemma PlacesNext(places: seq<nat>, updates: seq<Setting>, known: set<string>)
    requires updates != [] && PlacesOf(places, updates[..|updates| - 1], known)
    ensures var n := |updates| - 1;
            PlacesOf(if updates[n].key in known then places else places + [n], updates, known)
  {
    var n := |updates| - 1;
    var more := if updates[n].key in known then places else places + [n];
    NextIncreasing(places, n);
    hide Increasing;
    forall i | 0 <= i < |updates|
      ensures i in more <==> updates[i].key !in known
    {
      if i < n {
        assert updates[..n][i] == updates[i];
      } else {
        NotAmong(places, n);
      }
    }
  }

  lemma NextIncreasing(places: seq<nat>, n: nat)
    requires Increasing(places, n)
    ensures Increasing(places, n + 1) && Increasing(places + [n], n + 1)
  {
  }

  lemma NotAmong(places: seq<nat>, n: nat)
    requires Increasing(places, n)
    ensures n !in places
  {
  }

  /**
   After an update of a newline-terminated file, each old line that sets an updated key is that key with its new
   value, and the others are what they were; then come the keys that were not there, in the order of the updates.
   */
  lemma UpdatedFile(file: File, updates: seq<Setting>) returns (places: seq<nat>)
    requires GoodUpdates(updates) && Whole(file)
    ensures var before, after := FileLines(file), FileLines(Updated(file, updates));
            && |before| <= |after| && PlacesOf(places, updates, Read(file).Keys)
            && WrittenFor(after[|before|..], places, updates)
            && (forall i, u :: 0 <= i < |before| && 0 <= u < |updates| && Sets(before[i], updates[u].key) ==>
                  after[i] == updates[u].key + "=" + updates[u].value + "\n")
            && (forall i :: 0 <= i < |before| && !SetsAny(before[i], updates) ==> after[i] == before[i])
  {
    hide Updated, FileLines, Entry, Whole, Read, ReadLines, AsMap, GoodUpdates, Appended, Seen, PlacesOf;
    hide WrittenFor;
    var before, m := FileLines(file), AsMap(updates);
    UpdatedFileLines(file, updates);
    SeenIsRead(file, updates);
    places := AppendedInOrder(updates, Read(file).Keys);
    assert UpdatedLines(before, updates)[|before|..] == Appended(updates, Seen(before, m));
    forall i, u | 0 <= i < |before| && 0 <= u < |updates| && Sets(before[i], updates[u].key)
      ensures Rewritten(before[i], m) == updates[u].key + "=" + updates[u].value + "\n"
    {
      UpdateOf(updates, u);
    }
    forall i | 0 <= i < |before| && !SetsAny(before[i], updates)
      ensures Rewritten(before[i], m) == before[i]
    {
      if Touched(before[i], m) {
        AsMapKeys(updates, Entry(before[i]).value.key);
      }
    }
  }

  lemma UpdateOf(updates: seq<Setting>, u: nat)
    requires GoodUpdates(updates) && u < |updates|
    ensures updates[u].key in AsMap(updates) && AsMap(updates)[updates[u].key] == updates[u].value
  {
    hide GoodKey, GoodValue;
    AsMapValue(updates, u);
  }
}
