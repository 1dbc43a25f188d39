/** Why reading and updating a configuration file agree on what a line means. */
module ConfLaws {
  import opened Options
  import opened Text
  import opened Conf

  // ----- Keys and values that survive the file -----

  /** A key that can stand before '=' on a line of its own. */
  predicate GoodKey(k: string) {
    && Strip(k) == k && '=' !in k && '\n' !in k && '\r' !in k
    && (k == "" || k[0] != '#')
  }

  predicate GoodValue(v: string) {
    '\n' !in v && '\r' !in v
  }

  predicate GoodUpdates(updates: seq<Setting>) {
    Distinct(updates) && forall i :: 0 <= i < |updates| ==> GoodKey(updates[i].key) && GoodValue(updates[i].value)
  }

  predicate GoodMap(m: map<string, string>) {
    forall k :: k in m ==> GoodKey(k) && GoodValue(m[k])
  }

  lemma {:induction false} AsMapGood(updates: seq<Setting>)
    requires GoodUpdates(updates)
    ensures GoodMap(AsMap(updates))
  {
    hide GoodKey, GoodValue;
    if updates == [] {
    } else {
      AsMapGood(updates[..|updates| - 1]);
    }
  }

  lemma {:induction false} AsMapKeys(updates: seq<Setting>, k: string)
    ensures k in AsMap(updates) <==> exists i :: 0 <= i < |updates| && updates[i].key == k
  {
    if updates == [] {
    } else {
      var n := |updates| - 1;
      AsMapKeys(updates[..n], k);
      if k in AsMap(updates[..n]) {
        var i :| 0 <= i < n && updates[..n][i].key == k;
        assert updates[i].key == k;
      } else {
        forall i | 0 <= i < n
          ensures updates[i].key != k
        {
          assert updates[..n][i] == updates[i];
        }
      }
    }
  }

  // ----- One line -----

  lemma BeforeIs(k: string, rest: string)
    requires '=' !in k
    ensures '=' in k + "=" + rest && Before(k + "=" + rest) == k
  {
    hide Before;
    var s := k + "=" + rest;
    assert s[|k|] == '=';
    var r := Before(s);
    assert s[|r|] == '=';
    forall i | 0 <= i < |k|
      ensures s[i] != '='
    {
      assert s[i] == k[i];
    }
    forall i | 0 <= i < |r|
      ensures s[i] != '='
    {
      assert s[i] == r[i];
    }
    assert s[..|k|] == k && s[..|r|] == r;
  }

  lemma Regroup(k: string, x: string, m: string, y: string)
    ensures k + "=" + (x + m + y) + "\n" == k + "=" + x + m + (y + "\n")
  {
  }

  /** The written line is a blank-free core, and what the reader strips off behind it. */
  lemma LineCore(e: Setting) returns (pad: string, b: string)
    requires GoodKey(e.key) && GoodValue(e.value)
    ensures Line(e) == e.key + "=" + pad + Strip(e.value) + b && Blank(b) && Blank(pad)
    ensures var core := e.key + "=" + pad + Strip(e.value); !IsSpace(core[|core| - 1])
  {
    hide Strip, GoodKey, GoodValue;
    var x, y := StripSplit(e.value);
    var m := Strip(e.value);
    Regroup(e.key, x, m, y);
    if m == "" {
      Regroup(e.key, "", m, x + y);
      pad, b := "", x + y + "\n";
    } else {
      pad, b := x, y + "\n";
    }
  }

  lemma CoreParts(k: string, pad: string, v: string)
    requires '=' !in k && (k == "" || k[0] != '#') && Blank(pad) && Tight(v)
    ensures var core := k + "=" + pad + v;
            core[0] != '#' && '=' in core && Before(core) == k && Strip(After(core)) == v
  {
    hide Strip, Before, IsSpace;
    var core := k + "=" + pad + v;
    assert core == k + "=" + (pad + v);
    BeforeIs(k, pad + v);
    assert After(core) == pad + v == pad + v + "";
    StripIs(pad, v, "");
  }

  /** What is written for a setting is read as that setting, its value stripped, even behind white space. */
  lemma EntryOfLine(pre: string, e: Setting)
    requires Blank(pre) && GoodKey(e.key) && GoodValue(e.value)
    ensures Entry(pre + Line(e)) == Some(Setting(e.key, Strip(e.value)))
  {
    hide Line, Strip, Blank, Before, After, GoodValue, IsSpace;
    var pad, b := LineCore(e);
    var core := e.key + "=" + pad + Strip(e.value);
    StripFacts(e.key);
    StripFacts(e.value);
    CoreTight(e.key, "=" + pad + Strip(e.value));
    assert core == e.key + ("=" + pad + Strip(e.value));
    assert pre + Line(e) == pre + core + b;
    StripIs(pre, core, b);
    CoreParts(e.key, pad, Strip(e.value));
  }

  lemma CoreTight(k: string, rest: string)
    requires Tight(k) && rest != "" && rest[0] == '=' && !IsSpace((k + rest)[|k + rest| - 1])
    ensures Tight(k + rest)
  {
  }

  lemma BlankEmpty()
    ensures Blank("")
  {
  }

  lemma LineShape(e: Setting)
    requires GoodKey(e.key) && GoodValue(e.value)
    ensures Terminated(Line(e)) && '\r' !in Line(e)
  {
  }

  /** The newline at the end of a line is stripped off. */
  lemma NoNewlineLeft(line: string)
    requires '\n' !in line || Terminated(line)
    ensures '\n' !in Strip(line)
  {
    hide Strip;
    var a, b := StripSplit(line);
    var s := Strip(line);
    forall i | 0 <= i < |s|
      ensures s[i] != '\n'
    {
      assert line[|a| + i] == s[i];
      assert |a| + i < |line| - 1 ==> line[..|line| - 1][|a| + i] == s[i];
    }
  }

  /** Only good keys are ever read. */
  lemma EntryKeyGood(line: string)
    requires '\n' !in line || Terminated(line)
    requires '\r' !in line && Entry(line).Some?
    ensures GoodKey(Entry(line).value.key)
  {
    hide Strip, Terminated, Before, IsSpace;
    NoNewlineLeft(line);
    StripFacts(line);
    var s := Strip(line);
    var name := Before(s);
    StripFacts(name);
    assert name == s[..|name|];
    assert forall c :: c in name ==> c in s;
  }

  // ----- Reading rewritten and appended lines -----

  function Stripped(updates: map<string, string>): map<string, string> {
    map k | k in updates :: Strip(updates[k])
  }

  /** The settings after rewriting compared with those before, and with the keys seen. */
  predicate Tracks(before: map<string, string>, after: map<string, string>, seen: set<string>,
                   updates: map<string, string>) {
    && after.Keys == before.Keys && seen == before.Keys * updates.Keys
    && forall k :: k in before ==> after[k] == if k in updates then Strip(updates[k]) else before[k]
  }

  lemma PutRewritten(before: map<string, string>, after: map<string, string>, seen: set<string>,
                     updates: map<string, string>, line: string)
    requires GoodMap(updates) && Tracks(before, after, seen, updates)
    ensures Tracks(Put(before, line), Put(after, Rewritten(line, updates)),
                   if Touched(line, updates) then seen + {Entry(line).value.key} else seen, updates)
  {
    hide Entry, GoodKey, GoodValue, Line, Strip;
    if Touched(line, updates) {
      var k := Entry(line).value.key;
      EntryOfLine("", Setting(k, updates[k]));
      assert "" + Rewritten(line, updates) == Rewritten(line, updates);
    }
  }

  /** Rewriting changes the values of the updated keys and nothing else; the keys seen are those both have. */
  lemma {:induction false} ReadRewritten(lines: seq<string>, updates: map<string, string>)
    requires GoodMap(updates)
    ensures Tracks(ReadLines(lines), ReadLines(RewrittenLines(lines, updates)), Seen(lines, updates), updates)
  {
    hide GoodMap, Entry, Rewritten, Touched, Put;
    if lines == [] {
      hide Strip;
    } else {
      hide Tracks;
      var n := |lines| - 1;
      var rewritten := RewrittenLines(lines, updates);
      assert rewritten[..n] == RewrittenLines(lines[..n], updates);
      ReadRewritten(lines[..n], updates);
      PutRewritten(ReadLines(lines[..n]), ReadLines(rewritten[..n]), Seen(lines[..n], updates), updates, lines[n]);
    }
  }

  /** The settings after adding those of the updates that were not seen. */
  predicate Adds(before: map<string, string>, after: map<string, string>, updates: map<string, string>,
          seen: set<string>) {
    && after.Keys == before.Keys + (updates.Keys - seen)
    && forall k :: k in after ==> after[k] == if k in updates && k !in seen then Strip(updates[k]) else before[k]
  }

  lemma AddOne(before: map<string, string>, after: map<string, string>, updates: map<string, string>,
          seen: set<string>, e: Setting)
    requires Adds(before, after, updates, seen) && e.key !in updates
    ensures e.key in seen ==> Adds(before, after, updates[e.key := e.value], seen)
    ensures e.key !in seen ==> Adds(before, after[e.key := Strip(e.value)], updates[e.key := e.value], seen)
  {
  }

  /** Appended lines add the keys not seen. */
  lemma {:induction false} ReadAppended(lines: seq<string>, updates: seq<Setting>, seen: set<string>)
    requires GoodUpdates(updates)
    ensures Adds(ReadLines(lines), ReadLines(lines + Appended(updates, seen)), AsMap(updates), seen)
  {
    hide GoodKey, GoodValue, Line, Strip, ReadLines, Entry;
    if updates == [] {
      assert lines + Appended(updates, seen) == lines;
    } else {
      hide Adds;
      var n := |updates| - 1;
      var front := lines + Appended(updates[..n], seen);
      ReadAppended(lines, updates[..n], seen);
      AsMapKeys(updates[..n], updates[n].key);
      AddOne(ReadLines(lines), ReadLines(front), AsMap(updates[..n]), seen, updates[n]);
      if updates[n].key in seen {
        assert lines + Appended(updates, seen) == front;
      } else {
        assert lines + Appended(updates, seen) == front + [Line(updates[n])];
        ReadSnoc(front, Line(updates[n]));
        EntryOfLine("", updates[n]);
        assert "" + Line(updates[n]) == Line(updates[n]);
      }
    }
  }

  lemma ReadSnoc(lines: seq<string>, line: string)
    ensures ReadLines(lines + [line]) == Put(ReadLines(lines), line)
  {
  }

  /** The updated lines read as the old settings overridden by the updates, values stripped. */
  lemma ReadUpdated(lines: seq<string>, updates: seq<Setting>)
    requires GoodUpdates(updates)
    ensures ReadLines(UpdatedLines(lines, updates)) == ReadLines(lines) + Stripped(AsMap(updates))
  {
    hide ReadLines, RewrittenLines, Appended, Seen, GoodUpdates, GoodMap, Strip, AsMap;
    AsMapGood(updates);
    ReadRewritten(lines, AsMap(updates));
    ReadAppended(RewrittenLines(lines, AsMap(updates)), updates, Seen(lines, AsMap(updates)));
  }

  // ----- From lines to files -----

  predicate NoReturns(lines: seq<string>) {
    forall i :: 0 <= i < |lines| ==> '\r' !in lines[i]
  }

  /** A list that can be the lines of a file: all terminated, except that a last one may be added that is not. */
  function WithLast(lines: seq<string>, last: string): seq<string> {
    lines + if last == "" then [] else [last]
  }

  lemma {:induction false} ConcatNoReturns(lines: seq<string>)
    requires NoReturns(lines)
    ensures '\r' !in Concat(lines)
    decreases |lines|
  {
    if lines == [] {
    } else {
      ConcatNoReturns(lines[1..]);
    }
  }

  lemma {:induction false} PartsNoReturns(lines: seq<string>)
    requires '\r' !in Concat(lines)
    ensures NoReturns(lines)
    decreases |lines|
  {
    if lines == [] {
    } else {
      var text := Concat(lines);
      assert text[..|lines[0]|] == lines[0] && text[|lines[0]|..] == Concat(lines[1..]);
      assert forall c :: c in lines[0] ==> c in text;
      assert forall c :: c in Concat(lines[1..]) ==> c in text;
      PartsNoReturns(lines[1..]);
    }
  }

  /** A file written from lines is read as those lines. */
  lemma WrittenLines(lines: seq<string>, last: string)
    requires AllTerminated(lines) && NoReturns(lines) && '\n' !in last && '\r' !in last
    ensures FileLines(Some(Concat(WithLast(lines, last)))) == WithLast(lines, last)
  {
    hide Terminated, Lines, Concat, Translated;
    var text := Concat(lines) + last;
    LastConcat(lines, last);
    ConcatNoReturns(lines);
    TranslatedPlain(text);
    LinesOfConcat(lines, last);
  }

  lemma LastConcat(lines: seq<string>, last: string)
    ensures Concat(WithLast(lines, last)) == Concat(lines) + last
  {
    if last == "" {
      assert WithLast(lines, last) == lines;
    } else {
      ConcatAppend(lines, [last]);
      assert Concat([last]) == last + Concat([]);
    }
  }

  /** What is known about the lines of any file. */
  lemma FileSplit(file: File) returns (lines: seq<string>, last: string)
    ensures FileLines(file) == WithLast(lines, last)
    ensures AllTerminated(lines) && NoReturns(lines) && '\n' !in last && '\r' !in last
  {
    hide Lines, Translated, Terminated;
    lines, last := [], "";
    if file.Some? {
      var text := Translated(file.value);
      TranslatedPlain(file.value);
      lines, last := LinesSplit(text);
      assert text[|text| - |last|..] == last && text[..|text| - |last|] == Concat(lines);
      assert forall c :: c in last ==> c in text;
      assert forall c :: c in Concat(lines) ==> c in text;
      PartsNoReturns(lines);
    }
  }

  lemma {:induction false} AppendedShape(updates: seq<Setting>, seen: set<string>)
    requires GoodUpdates(updates)
    ensures AllTerminated(Appended(updates, seen)) && NoReturns(Appended(updates, seen))
  {
    hide Terminated, GoodKey, GoodValue, Line;
    if updates == [] {
    } else {
      var n := |updates| - 1;
      AppendedShape(updates[..n], seen);
      LineShape(updates[n]);
    }
  }

  lemma RewrittenShape(lines: seq<string>, updates: map<string, string>)
    requires GoodMap(updates) && AllTerminated(lines) && NoReturns(lines)
    ensures AllTerminated(RewrittenLines(lines, updates)) && NoReturns(RewrittenLines(lines, updates))
  {
    hide Terminated, GoodKey, GoodValue, Line, Entry;
    forall i | 0 <= i < |lines|
      ensures Terminated(Rewritten(lines[i], updates)) && '\r' !in Rewritten(lines[i], updates)
    {
      if Touched(lines[i], updates) {
        LineShape(Setting(Entry(lines[i]).value.key, updates[Entry(lines[i]).value.key]));
      }
    }
  }

  /** The file ends with a newline, or has no text at all. */
  predicate Whole(file: File) {
    AllTerminated(FileLines(file))
  }

  lemma WholeIff(text: string)
    ensures Whole(Some(text)) <==> text == "" || Translated(text)[|Translated(text)| - 1] == '\n'
  {
    hide Terminated, Lines;
    var t := Translated(text);
    var lines, last := LinesSplit(t);
    if last != "" {
      assert WithLast(lines, last)[|lines|] == last;
      UnterminatedIs(last);
    }
  }

  lemma UnterminatedIs(last: string)
    requires '\n' !in last
    ensures !Terminated(last)
  {
  }

  /** The lines of an updated file are the rewritten ones, in their old order, and then the new ones. */
  lemma UpdatedFileLines(file: File, updates: seq<Setting>)
    requires GoodUpdates(updates) && Whole(file)
    ensures FileLines(Updated(file, updates)) == UpdatedLines(FileLines(file), updates)
    ensures Whole(Updated(file, updates))
  {
    hide FileLines, Terminated, GoodKey, GoodValue, AsMap, Appended, Seen, Concat;
    var lines, last := FileSplit(file);
    if last != "" {
      assert WithLast(lines, last)[|lines|] == last;
      UnterminatedIs(last);
    }
    var m := AsMap(updates);
    AsMapGood(updates);
    RewrittenShape(lines, m);
    AppendedShape(updates, Seen(lines, m));
    var all := UpdatedLines(lines, updates);
    assert WithLast(all, "") == all && WithLast(lines, "") == lines;
    WrittenLines(all, "");
  }

  // ----- The laws -----

  /**
   Reading after an update of a newline-terminated file: the old settings overridden by the updates, values
   stripped.
   */
  lemma UpdateReadsBackWhole(file: File, updates: seq<Setting>)
    requires GoodUpdates(updates) && Whole(file)
    ensures Read(Updated(file, updates)) == Read(file) + Stripped(AsMap(updates))
  {
    hide Updated, FileLines, UpdatedLines, Whole, ReadLines, Stripped, AsMap, GoodUpdates;
    UpdatedFileLines(file, updates);
    ReadUpdated(FileLines(file), updates);
  }

  /** The line makes a setting that was not there. */
  predicate IsNew(line: string, known: set<string>) {
    Entry(line).Some? && Entry(line).value.key !in known
  }

  /** Lines that make no updated setting keep their text and their places; new keys come last. */
  lemma UpdateKeepsLines(file: File, updates: seq<Setting>)
    requires GoodUpdates(updates) && Whole(file)
    ensures var before, after := FileLines(file), FileLines(Updated(file, updates));
            && |before| <= |after|
            && (forall i :: 0 <= i < |before| && !Touched(before[i], AsMap(updates)) ==> after[i] == before[i])
            && (forall i :: |before| <= i < |after| ==> IsNew(after[i], Read(file).Keys))
  {
    hide Updated, FileLines, Entry, Whole, Read, ReadLines, AsMap, GoodUpdates, IsNew, Touched, Line;
    var before, m := FileLines(file), AsMap(updates);
    UpdatedFileLines(file, updates);
    UntouchedKept(before, m);
    SeenIsRead(file, updates);
    NewKeys(updates, Read(file).Keys);
    var all := UpdatedLines(before, updates);
    forall i | |before| <= i < |all|
      ensures IsNew(all[i], Read(file).Keys)
    {
      assert all[i] == Appended(updates, Seen(before, m))[i - |before|];
    }
  }

  lemma UntouchedKept(lines: seq<string>, updates: map<string, string>)
    ensures forall i :: 0 <= i < |lines| && !Touched(lines[i], updates) ==>
              RewrittenLines(lines, updates)[i] == lines[i]
  {
  }

  /** An updated key is seen just if the file has a setting for it. */
  lemma SeenIsRead(file: File, updates: seq<Setting>)
    requires GoodUpdates(updates)
    ensures Appended(updates, Seen(FileLines(file), AsMap(updates))) == Appended(updates, Read(file).Keys)
  {
    hide FileLines, ReadLines, Seen, AsMap, GoodUpdates, GoodMap, Strip, Appended;
    AsMapGood(updates);
    ReadRewritten(FileLines(file), AsMap(updates));
    OnlyUpdatedCount(updates, updates, Read(file).Keys);
  }

  lemma {:induction false} OnlyUpdatedCount(some: seq<Setting>, updates: seq<Setting>, known: set<string>)
    requires some <= updates
    ensures Appended(some, known * AsMap(updates).Keys) == Appended(some, known)
    decreases |some|
  {
    hide Line, AsMap;
    if some == [] {
    } else {
      var n := |some| - 1;
      OnlyUpdatedCount(some[..n], updates, known);
      AsMapKeys(updates, some[n].key);
      assert updates[n].key == some[n].key;
    }
  }

  predicate AllNew(lines: seq<string>, known: set<string>) {
    forall i :: 0 <= i < |lines| ==> IsNew(lines[i], known)
  }

  lemma AllNewSnoc(lines: seq<string>, line: string, known: set<string>)
    requires AllNew(lines, known) && IsNew(line, known)
    ensures AllNew(lines + [line], known)
  {
  }

  /** Every appended line makes a new setting. */
  lemma {:induction false} NewKeys(updates: seq<Setting>, known: set<string>)
    requires GoodUpdates(updates)
    ensures AllNew(Appended(updates, known), known)
  {
    hide Entry, GoodKey, GoodValue, Line, Strip;
    if updates == [] {
    } else {
      hide AllNew;
      var n := |updates| - 1;
      NewKeys(updates[..n], known);
      EntryOfLine("", updates[n]);
      assert "" + Line(updates[n]) == Line(updates[n]);
      if updates[n].key !in known {
        AllNewSnoc(Appended(updates[..n], known), Line(updates[n]), known);
      }
    }
  }

  // ----- Updating twice -----

  lemma {:induction false} AsMapValue(updates: seq<Setting>, i: nat)
    requires Distinct(updates) && i < |updates|
    ensures updates[i].key in AsMap(updates) && AsMap(updates)[updates[i].key] == updates[i].value
  {
    var n := |updates| - 1;
    if i == n {
    } else {
      AsMapValue(updates[..n], i);
    }
  }

  lemma RewrittenOnce(line: string, updates: map<string, string>)
    requires GoodMap(updates)
    ensures Rewritten(Rewritten(line, updates), updates) == Rewritten(line, updates)
  {
    hide Entry, GoodKey, GoodValue, Line, Strip;
    if Touched(line, updates) {
      var e := Setting(Entry(line).value.key, updates[Entry(line).value.key]);
      EntryOfLine("", e);
      assert "" + Line(e) == Line(e);
    }
  }

  lemma {:induction false} RewriteAppended(some: seq<Setting>, updates: seq<Setting>, known: set<string>)
    requires GoodUpdates(updates) && some <= updates
    ensures RewrittenLines(Appended(some, known), AsMap(updates)) == Appended(some, known)
    decreases |some|
  {
    hide Entry, GoodKey, GoodValue, Line, Strip, AsMap;
    if some == [] {
    } else {
      var n := |some| - 1;
      var front, all, m := Appended(some[..n], known), Appended(some, known), AsMap(updates);
      RewriteAppended(some[..n], updates, known);
      if some[n].key !in known {
        AsMapValue(updates, n);
        EntryOfLine("", updates[n]);
        assert "" + Line(updates[n]) == Line(updates[n]);
        assert all == front + [Line(updates[n])];
        assert all[..|all| - 1] == front;
      }
    }
  }

  lemma RewriteConcat(a: seq<string>, b: seq<string>, updates: map<string, string>)
    ensures RewrittenLines(a + b, updates) == RewrittenLines(a, updates) + RewrittenLines(b, updates)
  {
  }

  lemma RewriteTwice(lines: seq<string>, updates: map<string, string>)
    requires GoodMap(updates)
    ensures RewrittenLines(RewrittenLines(lines, updates), updates) == RewrittenLines(lines, updates)
  {
    hide Rewritten, GoodMap;
    forall i | 0 <= i < |lines|
      ensures Rewritten(Rewritten(lines[i], updates), updates) == Rewritten(lines[i], updates)
    {
      RewrittenOnce(lines[i], updates);
    }
  }

  lemma {:induction false} NothingToAppend(some: seq<Setting>, known: set<string>)
    requires forall i :: 0 <= i < |some| ==> some[i].key in known
    ensures Appended(some, known) == []
  {
    if some == [] {
    } else {
      NothingToAppend(some[..|some| - 1], known);
    }
  }

  /** Updated lines stay as they are when updated again. */
  lemma LinesUpdatedTwice(lines: seq<string>, updates: seq<Setting>)
    requires GoodUpdates(updates)
    ensures UpdatedLines(UpdatedLines(lines, updates), updates) == UpdatedLines(lines, updates)
  {
    hide ReadLines, RewrittenLines, Appended, Seen, AsMap, GoodMap, Strip, GoodKey, GoodValue;
    var m := AsMap(updates);
    var kept, added := RewrittenLines(lines, m), Appended(updates, Seen(lines, m));
    AsMapGood(updates);
    RewriteConcat(kept, added, m);
    RewriteTwice(lines, m);
    RewriteAppended(updates, updates, Seen(lines, m));
    ReadUpdated(lines, updates);
    ReadRewritten(kept + added, m);
    assert m.Keys <= ReadLines(kept + added).Keys;
    forall i | 0 <= i < |updates|
      ensures updates[i].key in Seen(kept + added, m)
    {
      AsMapValue(updates, i);
    }
    NothingToAppend(updates, Seen(kept + added, m));
  }

  /** The same update a second time changes nothing in the file. */
  lemma UpdateTwice(file: File, updates: seq<Setting>)
    requires GoodUpdates(updates) && Whole(file)
    ensures Updated(Updated(file, updates), updates) == Updated(file, updates)
  {
    hide FileLines, UpdatedLines, Whole, GoodUpdates, Concat;
    UpdatedFileLines(file, updates);
    LinesUpdatedTwice(FileLines(file), updates);
  }

  lemma StrippedMerge(conf: map<string, string>, a: map<string, string>, b: map<string, string>)
    ensures conf + Stripped(a) + Stripped(b) == conf + Stripped(a + b)
  {
  }

  /** Two updates one after the other read back as one merged update. */
  lemma UpdatesMerge(file: File, first: seq<Setting>, second: seq<Setting>, merged: seq<Setting>)
    requires GoodUpdates(first) && GoodUpdates(second) && GoodUpdates(merged) && Whole(file)
    requires AsMap(merged) == AsMap(first) + AsMap(second)
    ensures Read(Updated(Updated(file, first), second)) == Read(Updated(file, merged))
  {
    hide Updated, Whole, GoodUpdates, AsMap, Read, Stripped;
    UpdatedFileLines(file, first);
    StrippedMerge(Read(file), AsMap(first), AsMap(second));
    UpdateReadsBackWhole(file, first);
    UpdateReadsBackWhole(Updated(file, first), second);
    UpdateReadsBackWhole(file, merged);
  }

  // ----- A last line without its newline -----

  /** The first new line would be written onto an unterminated last line that is kept and is not blank. */
  predicate Glues(file: File, updates: seq<Setting>) {
    var lines := FileLines(file);
    && lines != [] && !Terminated(lines[|lines| - 1])
    && !Touched(lines[|lines| - 1], AsMap(updates)) && Strip(lines[|lines| - 1]) != ""
    && exists i :: 0 <= i < |updates| && updates[i].key !in Read(file)
  }

  /** Writing x after an unterminated line makes one line of the two. */
  lemma GluedConcat(a: seq<string>, last: string, x: string, b: seq<string>)
    ensures Concat(a + [last] + ([x] + b)) == Concat(a + [last + x] + b)
  {
    hide Concat;
    assert a + [last] + ([x] + b) == a + ([last] + ([x] + b));
    assert a + [last + x] + b == a + ([last + x] + b);
    ConcatAppend(a, [last] + ([x] + b));
    ConcatAppend(a, [last + x] + b);
    ConcatCons(last, [x] + b);
    ConcatCons(x, b);
    ConcatCons(last + x, b);
    assert last + (x + Concat(b)) == (last + x) + Concat(b);
  }

  lemma ConcatCons(line: string, lines: seq<string>)
    ensures Concat([line] + lines) == line + Concat(lines)
  {
  }

  lemma {:induction false} AppendedFront(updates: seq<Setting>, known: set<string>)
    requires updates != []
    ensures Appended(updates, known)
            == (if updates[0].key in known then [] else [Line(updates[0])]) + Appended(updates[1..], known)
    decreases |updates|
  {
    hide Line;
    var n := |updates| - 1;
    if n == 0 {
    } else {
      AppendedFront(updates[..n], known);
      assert updates[1..][..n - 1] == updates[..n][1..];
    }
  }

  lemma {:induction false} FirstAppended(updates: seq<Setting>, known: set<string>) returns (i: nat)
    requires exists j :: 0 <= j < |updates| && updates[j].key !in known
    ensures i < |updates| && updates[i].key !in known
    ensures Appended(updates, known) == [Line(updates[i])] + Appended(updates[i + 1..], known)
    decreases |updates|
  {
    hide Line, Appended;
    AppendedFront(updates, known);
    i := 0;
    if updates[0].key in known {
      var j :| 0 <= j < |updates| && updates[j].key !in known;
      assert updates[1..][j - 1].key !in known;
      var r := FirstAppended(updates[1..], known);
      assert updates[1..][r + 1..] == updates[r + 2..];
      i := r + 1;
    }
  }

  lemma {:induction false} ReadConcatSame(a: seq<string>, b: seq<string>, rest: seq<string>)
    requires ReadLines(a) == ReadLines(b)
    ensures ReadLines(a + rest) == ReadLines(b + rest)
    decreases |rest|
  {
    hide Put;
    if rest == [] {
      assert a + rest == a && b + rest == b;
    } else {
      var n := |rest| - 1;
      assert (a + rest)[..|a + rest| - 1] == a + rest[..n];
      assert (b + rest)[..|b + rest| - 1] == b + rest[..n];
      ReadConcatSame(a, b, rest[..n]);
    }
  }

  /** Behind a blank, a setting is still read. */
  lemma BlankGlue(lines: seq<string>, last: string, e: Setting, rest: seq<string>)
    requires GoodKey(e.key) && GoodValue(e.value) && Strip(last) == ""
    ensures ReadLines(lines + [last + Line(e)] + rest) == ReadLines(lines + [last] + ([Line(e)] + rest))
  {
    hide Line, GoodKey, GoodValue, Strip, ReadLines;
    var a, b := StripSplit(last);
    EntryOfLine(last, e);
    EntryOfLine("", e);
    assert "" + Line(e) == Line(e);
    ReadSnoc(lines, last + Line(e));
    ReadSnoc(lines, last);
    ReadSnoc(lines + [last], Line(e));
    ReadConcatSame(lines + [last + Line(e)], lines + [last] + [Line(e)], rest);
    assert lines + [last] + [Line(e)] + rest == lines + [last] + ([Line(e)] + rest);
  }

  lemma BeforePrefix(m: string, x: string)
    requires '=' in m
    ensures '=' in m + x && Before(m + x) == Before(m)
  {
    hide Before;
    var p := Before(m);
    assert m + x == p + "=" + (m[|p| + 1..] + x);
    BeforeIs(p, m[|p| + 1..] + x);
  }

  lemma BeforeGlued(m: string, b: string, k: string, tail: string)
    requires '=' !in m && Blank(b) && '=' !in k
    ensures var core := m + (b + (k + "=" + tail)); '=' in core && Before(core) == m + b + k
  {
    hide Before;
    BlankHasNone(b);
    var name := m + b + k;
    assert m + (b + (k + "=" + tail)) == name + "=" + tail;
    BeforeIs(name, tail);
  }

  /** Behind anything else, the new key is lost. */
  lemma GluedKey(last: string, e: Setting)
    requires GoodKey(e.key) && GoodValue(e.value) && Strip(last) != ""
    requires Entry(last).Some? ==> Entry(last).value.key != e.key
    ensures Entry(last + Line(e)).Some? ==> Entry(last + Line(e)).value.key != e.key
  {
    hide Line, GoodValue, Strip, Blank, Before, IsSpace;
    var a, b := StripSplit(last);
    var m := Strip(last);
    var pad, d := LineCore(e);
    var tail := pad + Strip(e.value);
    var x := b + (e.key + "=" + tail);
    GluedStrip(a, m, b, e.key, pad, Strip(e.value), d, Line(e));
    assert last + Line(e) == a + m + b + Line(e);
    if '=' in m {
      BeforePrefix(m, x);
    } else {
      BeforeGlued(m, b, e.key, tail);
      StripFacts(e.key);
      NameLonger(m, b, e.key);
    }
  }

  lemma GluedStrip(a: string, m: string, b: string, k: string, pad: string, v: string, d: string, line: string)
    requires Blank(a) && m != "" && Tight(m) && Blank(d) && line == k + "=" + pad + v + d
    requires var core := k + "=" + pad + v; !IsSpace(core[|core| - 1])
    ensures Strip(a + m + b + line) == m + (b + (k + "=" + (pad + v)))
  {
    hide Strip, Blank;
    var core := m + (b + (k + "=" + (pad + v)));
    assert k + "=" + pad + v == k + "=" + (pad + v);
    assert a + m + b + line == a + core + d;
    StripIs(a, core, d);
  }

  lemma BlankHasNone(b: string)
    requires Blank(b)
    ensures '=' !in b
  {
  }

  lemma NameLonger(m: string, b: string, k: string)
    requires m != "" && Tight(m) && Blank(b) && Tight(k)
    ensures Strip(m + b + k) != k
  {
    BlankEmpty();
    if k == "" {
      assert m + b + k == "" + m + b;
      StripIs("", m, b);
    } else {
      assert m + b + k == "" + (m + b + k) + "";
      StripIs("", m + b + k, "");
    }
  }

  /** The lines of an updated file are the updated lines whenever those are all terminated. */
  lemma TerminatedBack(lines: seq<string>, file: File, updates: seq<Setting>)
    requires FileLines(file) == lines && AllTerminated(UpdatedLines(lines, updates))
             && NoReturns(UpdatedLines(lines, updates))
    ensures FileLines(Updated(file, updates)) == UpdatedLines(lines, updates)
  {
    hide FileLines, UpdatedLines, Terminated, Concat;
    var all := UpdatedLines(lines, updates);
    assert WithLast(all, "") == all;
    WrittenLines(all, "");
  }

  /** A file with an unterminated last line that is rewritten, or after which nothing is added. */
  lemma LastHandled(file: File, lines: seq<string>, last: string, updates: seq<Setting>)
    requires GoodUpdates(updates) && AllTerminated(lines) && NoReturns(lines) && last != "" && '\n' !in last
             && '\r' !in last
    requires FileLines(file) == lines + [last]
    requires Touched(last, AsMap(updates)) || Appended(updates, Seen(lines + [last], AsMap(updates))) == []
    ensures FileLines(Updated(file, updates)) == UpdatedLines(lines + [last], updates)
  {
    hide FileLines, Terminated, Concat, Entry, AsMap, Seen, GoodUpdates, Line, GoodKey, GoodValue, Appended;
    var m := AsMap(updates);
    AsMapGood(updates);
    RewrittenShape(lines, m);
    AppendedShape(updates, Seen(lines + [last], m));
    RewriteConcat(lines, [last], m);
    RewriteOne(last, m);
    if Touched(last, m) {
      LineShape(Setting(Entry(last).value.key, m[Entry(last).value.key]));
      TerminatedBack(lines + [last], file, updates);
    } else {
      var kept := RewrittenLines(lines, m);
      assert UpdatedLines(lines + [last], updates) == WithLast(kept, last);
      WrittenLines(kept, last);
    }
  }

  lemma RewriteOne(line: string, updates: map<string, string>)
    ensures RewrittenLines([line], updates) == [Rewritten(line, updates)]
  {
  }

  lemma SuffixGood(updates: seq<Setting>, i: nat)
    requires GoodUpdates(updates) && i <= |updates|
    ensures GoodUpdates(updates[i..])
  {
  }

  lemma GluedTerminated(last: string, line: string)
    requires '\n' !in last && '\r' !in last && Terminated(line) && '\r' !in line
    ensures Terminated(last + line) && '\r' !in last + line
  {
  }

  /** The lines before, the glued line and the rest are what is read from the file. */
  lemma GluedLines(kept: seq<string>, last: string, e: Setting, rest: seq<string>)
    requires AllTerminated(kept) && NoReturns(kept) && '\n' !in last && '\r' !in last && GoodKey(e.key)
             && GoodValue(e.value)
    requires AllTerminated(rest) && NoReturns(rest)
    ensures FileLines(Some(Concat(kept + [last] + ([Line(e)] + rest)))) == kept + [last + Line(e)] + rest
  {
    hide FileLines, Terminated, Concat, GoodKey, GoodValue, Line;
    LineShape(e);
    GluedTerminated(last, Line(e));
    var all := kept + [last + Line(e)] + rest;
    assert WithLast(all, "") == all;
    WrittenLines(all, "");
    GluedConcat(kept, last, Line(e), rest);
  }

  /** A file with an unterminated last line that is kept, and new keys after it. */
  lemma LastGlued(file: File, lines: seq<string>, last: string, updates: seq<Setting>)
          returns (i: nat, rest: seq<string>)
    requires GoodUpdates(updates) && AllTerminated(lines) && NoReturns(lines) && '\n' !in last && '\r' !in last
    requires FileLines(file) == lines + [last] && !Touched(last, AsMap(updates))
    requires exists j :: 0 <= j < |updates| && updates[j].key !in Read(file)
    ensures i < |updates| && updates[i].key !in Read(file) && rest == Appended(updates[i + 1..], Read(file).Keys)
    ensures var kept := RewrittenLines(lines, AsMap(updates));
            && FileLines(Updated(file, updates)) == kept + [last + Line(updates[i])] + rest
            && UpdatedLines(lines + [last], updates) == kept + [last] + ([Line(updates[i])] + rest)
  {
    hide FileLines, Terminated, Concat, Entry, AsMap, GoodKey, GoodValue, Line, Appended, Seen, Read, Distinct;
    var m := AsMap(updates);
    AsMapGood(updates);
    RewrittenShape(lines, m);
    RewriteConcat(lines, [last], m);
    RewriteOne(last, m);
    SeenIsRead(file, updates);
    i := FirstAppended(updates, Read(file).Keys);
    rest := Appended(updates[i + 1..], Read(file).Keys);
    SuffixGood(updates, i + 1);
    AppendedShape(updates[i + 1..], Read(file).Keys);
    GluedLines(RewrittenLines(lines, m), last, updates[i], rest);
  }

  /** The key written onto a last line that is not blank cannot be read. */
  lemma GluedIsLost(file: File, lines: seq<string>, last: string, updates: seq<Setting>, i: nat, rest: seq<string>)
    requires GoodUpdates(updates) && FileLines(file) == lines + [last] && Strip(last) != ""
    requires i < |updates| && updates[i].key !in Read(file) && rest == Appended(updates[i + 1..], Read(file).Keys)
    ensures updates[i].key !in ReadLines(RewrittenLines(lines, AsMap(updates)) + [last + Line(updates[i])] + rest)
  {
    hide FileLines, Entry, GoodKey, GoodValue, Line, Appended, Strip, RewrittenLines, ReadLines, GoodMap, AsMap;
    var m, e := AsMap(updates), updates[i];
    var kept := RewrittenLines(lines, m);
    AsMapGood(updates);
    ReadRewritten(lines, m);
    ReadSnoc(lines, last);
    ReadSnoc(kept, last + Line(e));
    GluedKey(last, e);
    SuffixGood(updates, i + 1);
    ReadAppended(kept + [last + Line(e)], updates[i + 1..], Read(file).Keys);
    AsMapKeys(updates[i + 1..], e.key);
  }

  /**
   Whatever the file: reading after an update gives the old settings overridden by the updates exactly if no new
   line is written onto an unterminated last line that is kept and not blank.
   */
  lemma UpdateReadsBack(file: File, updates: seq<Setting>)
    requires GoodUpdates(updates)
    ensures Read(Updated(file, updates)) == Read(file) + Stripped(AsMap(updates)) <==> !Glues(file, updates)
  {
    hide FileLines, Updated, Terminated, UpdatedLines, RewrittenLines, ReadLines, Strip, Entry, GoodKey, GoodValue;
    hide Line, Stripped, Touched, Distinct;
    var lines, last := FileSplit(file);
    if last == "" {
      assert WithLast(lines, last) == lines;
      UpdateReadsBackWhole(file, updates);
    } else {
      UnterminatedIs(last);
      assert FileLines(file) == lines + [last];
      ReadUpdated(lines + [last], updates);
      SeenIsRead(file, updates);
      if Touched(last, AsMap(updates)) {
        LastHandled(file, lines, last, updates);
      } else if forall j :: 0 <= j < |updates| ==> updates[j].key in Read(file) {
        NothingToAppend(updates, Read(file).Keys);
        LastHandled(file, lines, last, updates);
      } else {
        var i, rest := LastGlued(file, lines, last, updates);
        if Strip(last) == "" {
          BlankGlue(RewrittenLines(lines, AsMap(updates)), last, updates[i], rest);
        } else {
          GluedIsLost(file, lines, last, updates, i, rest);
          OverriddenHas(Read(file), updates, i);
        }
      }
    }
  }

  lemma OverriddenHas(conf: map<string, string>, updates: seq<Setting>, i: nat)
    requires i < |updates|
    ensures updates[i].key in conf + Stripped(AsMap(updates))
  {
  }

  /** For example, a new key B does not survive in a file that holds just "A=1" and no newline. */
  lemma GlueExample()
    ensures var file, updates := Some("A=1"), [Setting("B", "2")];
            GoodUpdates(updates) && Read(Updated(file, updates)) != Read(file) + Stripped(AsMap(updates))
  {
    hide Strip, Updated, ReadLines, Stripped, FileLines, Read, Entry, AsMap;
    var file, updates := Some("A=1"), [Setting("B", "2")];
    ExampleLine();
    ExampleEntry();
    ExampleRead(file);
    ExampleKey();
    OneUpdate("B", "2");
    assert updates[0].key !in Read(file);
    assert !Terminated("A=1");
    UpdateReadsBack(file, updates);
  }

  lemma ExampleLine()
    ensures FileLines(Some("A=1")) == ["A=1"]
  {
    hide FileLines;
    assert WithLast([], "A=1") == ["A=1"];
    LastConcat([], "A=1");
    assert Concat([]) + "A=1" == "A=1";
    WrittenLines([], "A=1");
  }

  lemma ExampleEntry()
    ensures Strip("A=1") == "A=1" && Entry("A=1").Some? && Entry("A=1").value.key == "A"
  {
  }

  lemma ExampleKey()
    ensures GoodKey("B") && GoodValue("2")
  {
  }

  lemma ExampleRead(file: File)
    requires FileLines(file) == ["A=1"] && Entry("A=1").Some? && Entry("A=1").value.key == "A"
    ensures "B" !in Read(file)
  {
    hide Entry, FileLines;
    ReadSnoc([], "A=1");
    assert [] + ["A=1"] == ["A=1"];
  }

  // ----- Which keys can be kept in a file -----

  /** Every key that is read from any file is a good one. */
  lemma KeysReadAreGood(file: File)
    ensures forall k :: k in Read(file) ==> GoodKey(k)
  {
    hide FileLines, Terminated, GoodKey, ReadLines;
    var lines, last := FileSplit(file);
    LineKeysGood(lines);
    if last == "" {
      assert WithLast(lines, last) == lines;
    } else {
      ReadSnoc(lines, last);
      if Entry(last).Some? {
        EntryKeyGood(last);
      }
    }
  }

  lemma {:induction false} LineKeysGood(lines: seq<string>)
    requires AllTerminated(lines) && NoReturns(lines)
    ensures forall k :: k in ReadLines(lines) ==> GoodKey(k)
  {
    hide Entry, Terminated, GoodKey;
    if lines == [] {
    } else {
      var n := |lines| - 1;
      LineKeysGood(lines[..n]);
      if Entry(lines[n]).Some? {
        EntryKeyGood(lines[n]);
      }
    }
  }

  /** A setting written to a new file is read back exactly if its key is good. */
  lemma KeyReadsBack(k: string, v: string)
    requires GoodValue(v)
    ensures Read(Updated(None, [Setting(k, v)])) == map[k := Strip(v)] <==> GoodKey(k)
  {
    hide Updated, GoodKey, GoodValue, Strip, ReadLines;
    var updates := [Setting(k, v)];
    KeysReadAreGood(Updated(None, updates));
    assert Read(None) == map[] by {
      NothingRead();
    }
    assert AsMap(updates) == map[k := v] by {
      OneUpdate(k, v);
    }
    if GoodKey(k) {
      UpdateReadsBackWhole(None, updates);
    } else {
      assert k in map[k := Strip(v)];
    }
  }

  lemma NothingRead()
    ensures ReadLines([]) == map[]
  {
  }

  lemma OneUpdate(k: string, v: string)
    ensures AsMap([Setting(k, v)]) == map[k := v]
  {
  }
}
