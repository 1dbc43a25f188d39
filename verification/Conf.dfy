/**
 The comment-preserving configuration editor, `read_conf` and `update_conf` in
 `web/txtempus-web.py`: a reader and an in-place rewriter of KEY=VALUE lines.
 */
module Conf {
  import opened Options
  import opened Text

  datatype Setting = Setting(key: string, value: string)

  // ----- What a line means -----

  /** The part before the first '='. */
  function Before(s: string): (r: string)
    requires '=' in s
    ensures |r| < |s| && s == r + "=" + s[|r| + 1..] && '=' !in r
  {
    if s[0] == '=' then "" else [s[0]] + Before(s[1..])
  }

  function After(s: string): string
    requires '=' in s
  {
    s[|Before(s)| + 1..]
  }

  /** The setting a line makes, if it makes one. */
  function Entry(line: string): Option<Setting> {
    var s := Strip(line);
    if s == "" || s[0] == '#' || '=' !in s then None
    else Some(Setting(Strip(Before(s)), Strip(After(s))))
  }

  function Put(conf: map<string, string>, line: string): map<string, string> {
    match Entry(line)
    case None => conf
    case Some(e) => conf[e.key := e.value]
  }

  /** The settings in force after some lines: later lines win. */
  function ReadLines(lines: seq<string>): map<string, string> {
    if lines == [] then map[] else Put(ReadLines(lines[..|lines| - 1]), lines[|lines| - 1])
  }

  /** The text of a file, or no file. */
  type File = Option<string>

  function FileLines(file: File): seq<string> {
    if file.None? then [] else Lines(Translated(file.value))
  }

  function Read(file: File): map<string, string> {
    ReadLines(FileLines(file))
  }

  // ----- What an update does -----

  function Line(e: Setting): string {
    e.key + "=" + e.value + "\n"
  }

  /** The updates as the dictionary they are. */
  function AsMap(updates: seq<Setting>): map<string, string> {
    if updates == [] then map[]
    else
      var n := |updates| - 1;
      AsMap(updates[..n])[updates[n].key := updates[n].value]
  }

  /** A dictionary has each key once. */
  predicate Distinct(updates: seq<Setting>) {
    forall i, j :: 0 <= i < j < |updates| ==> updates[i].key != updates[j].key
  }

  /** The line makes a setting that is to be updated. */
  predicate Touched(line: string, updates: map<string, string>) {
    Entry(line).Some? && Entry(line).value.key in updates
  }

  function Rewritten(line: string, updates: map<string, string>): string {
    if Touched(line, updates) then Line(Setting(Entry(line).value.key, updates[Entry(line).value.key])) else line
  }

  function RewrittenLines(lines: seq<string>, updates: map<string, string>): (r: seq<string>)
    ensures |r| == |lines| && forall i :: 0 <= i < |lines| ==> r[i] == Rewritten(lines[i], updates)
  {
    if lines == [] then []
    else RewrittenLines(lines[..|lines| - 1], updates) + [Rewritten(lines[|lines| - 1], updates)]
  }

  /** The updated keys that some line sets. */
  function Seen(lines: seq<string>, updates: map<string, string>): set<string> {
    if lines == [] then {}
    else
      var before, line := Seen(lines[..|lines| - 1], updates), lines[|lines| - 1];
      if Touched(line, updates) then before + {Entry(line).value.key} else before
  }

  /** Lines for the keys not seen, in the order of the updates. */
  function Appended(updates: seq<Setting>, seen: set<string>): seq<string> {
    if updates == [] then []
    else
      var n := |updates| - 1;
      Appended(updates[..n], seen) + if updates[n].key in seen then [] else [Line(updates[n])]
  }

  function UpdatedLines(lines: seq<string>, updates: seq<Setting>): seq<string> {
    RewrittenLines(lines, AsMap(updates)) + Appended(updates, Seen(lines, AsMap(updates)))
  }

  function Updated(file: File, updates: seq<Setting>): File {
    Some(Concat(UpdatedLines(FileLines(file), updates)))
  }

  lemma RewriteNext(lines: seq<string>, i: nat, updates: map<string, string>)
    requires i < |lines|
    ensures RewrittenLines(lines[..i + 1], updates)
            == RewrittenLines(lines[..i], updates) + [Rewritten(lines[i], updates)]
    ensures Seen(lines[..i + 1], updates)
         == Seen(lines[..i], updates) + if Touched(lines[i], updates) then {Entry(lines[i]).value.key} else {}
  {
    hide Entry, Line;
    assert lines[..i + 1][..i] == lines[..i];
  }

  lemma AppendNext(updates: seq<Setting>, i: nat, seen: set<string>)
    requires i < |updates|
    ensures Appended(updates[..i + 1], seen)
         == Appended(updates[..i], seen) + if updates[i].key in seen then [] else [Line(updates[i])]
  {
    hide Line;
    assert updates[..i + 1][..i] == updates[..i];
  }

  lemma StartsEmpty(dict: map<string, string>)
    ensures RewrittenLines([], dict) == [] && Seen([], dict) == {} && forall seen :: Appended([], seen) == []
  {
  }

  // ----- The two operations -----

  /** The configuration file, and the temporary file beside it. */
  class Conf {
    var file: File
    var tmp: File

    constructor (contents: File, left: File)
      ensures file == contents && tmp == left
    {
      file, tmp := contents, left;
    }

    method ReadConf() returns (conf: map<string, string>)
      ensures conf == Read(file)
    {
      hide Strip, Before, After, Lines, Translated;
      conf := map[];
      if file.None? {
        return;
      }
      var lines := Lines(Translated(file.value));
      for i := 0 to |lines|
        invariant conf == ReadLines(lines[..i])
      {
        assert lines[..i + 1][..i] == lines[..i];
        var s := Strip(lines[i]);
        if s == "" || s[0] == '#' || '=' !in s {
          continue;
        }
        conf := conf[Strip(Before(s)) := Strip(After(s))];
      }
      assert lines[..|lines|] == lines;
    }

    /**
     Writing the temporary file may fail at any point, and so may replacing the file by it: then the file is what
     it was, and a beginning of the new text may be left beside it.
     */
    method UpdateConf(updates: seq<Setting>) returns (ok: bool)
      requires Distinct(updates)
      modifies this
      ensures ok ==> file == Updated(old(file), updates) && tmp == None
      ensures !ok ==> file == old(file) && (tmp == old(tmp) || (tmp.Some? && tmp.value <= Updated(file, updates).value))
    {
      hide Strip, Before, After, Lines, Translated, AsMap, Line, Concat, RewrittenLines, Seen, Appended;
      StartsEmpty(AsMap(updates));
      var dict := AsMap(updates);
      var lines := if file.None? then [] else Lines(Translated(file.value));
      var seen, out := {}, [];
      assert lines[..0] == [];
      for i := 0 to |lines|
        invariant file == old(file) && tmp == old(tmp)
        invariant out == RewrittenLines(lines[..i], dict) && seen == Seen(lines[..i], dict)
      {
        RewriteNext(lines, i, dict);
        var s := Strip(lines[i]);
        if s != "" && s[0] != '#' && '=' in s {
          var k := Strip(Before(s));
          if k in dict {
            out := out + [Line(Setting(k, dict[k]))];
            seen := seen + {k};
            continue;
          }
        }
        out := out + [lines[i]];
      }
      assert lines[..|lines|] == lines && updates[..0] == [];
      ghost var kept := out;
      for i := 0 to |updates|
        invariant file == old(file) && tmp == old(tmp)
        invariant out == kept + Appended(updates[..i], seen)
      {
        AppendNext(updates, i, seen);
        if updates[i].key !in seen {
          out := out + [Line(updates[i])];
        }
      }
      assert updates[..|updates|] == updates;
      var text := Concat(out);
      var writable: bool, written: int, replaced: bool := *, *, *;
      if !writable {
        return false;
      }
      if 0 <= written < |text| {
        tmp := Some(text[..written]);
        return false;
      }
      tmp := Some(text);
      if !replaced {
        return false;
      }
      file, tmp := tmp, None;
      ok := true;
    }
  }
}
