// Key-value files, read and rewritten (src/KeyVal.cc).
module KeyVals {
  import opened Options
  import opened Text

  // ---------- Lines ----------

  // readLinesFromFile, keeping line ends.
  function Lines(text: string): (r: seq<string>)
    decreases |text|
  {
    if text == "" then []
    else
      var n := LineLength(text);
      [text[..n]] + Lines(text[n..])
  }

  // The length of the first line, its line end included.
  function LineLength(text: string): (n: nat)
    requires text != ""
    ensures 0 < n <= |text|
  {
    if text[0] == '\n' || |text| == 1 then 1 else 1 + LineLength(text[1..])
  }

  function Joined(lines: seq<string>): string
  {
    if lines == [] then "" else Joined(lines[..|lines| - 1]) + lines[|lines| - 1]
  }

  // ---------- The regular expressions ----------

  // The number of leading white-space characters.
  function Lead(s: string): (n: nat)
    ensures n <= |s| && (forall i :: 0 <= i < n ==> IsSpace(s[i])) && (n < |s| ==> !IsSpace(s[n]))
  {
    if s == "" || !IsSpace(s[0]) then 0 else 1 + Lead(s[1..])
  }

  function TrimEnd(s: string): (r: string)
  {
    if s == "" || !IsSpace(s[|s| - 1]) then s else TrimEnd(s[..|s| - 1])
  }

  function Body(s: string): string
  {
    TrimEnd(s[Lead(s)..])
  }

  // \s*#.*
  predicate IsComment(line: string)
  {
    Lead(line) < |line| && line[Lead(line)] == '#'
  }

  // \s*(.*?)(\\?)\s*
  predicate Continues(line: string)
  {
    EndsInBackslash(Body(line))
  }

  predicate EndsInBackslash(s: string)
  {
    s != "" && s[|s| - 1] == '\\'
  }

  function Bare(line: string): string
  {
    if Continues(line) then Body(line)[..|Body(line)| - 1] else Body(line)
  }

  predicate InKey(c: char)
  {
    !IsSpace(c) && c != ':'
  }

  function KeyLength(s: string): (n: nat)
    ensures n <= |s| && (forall i :: 0 <= i < n ==> InKey(s[i])) && (n < |s| ==> !InKey(s[n]))
  {
    if s == "" || !InKey(s[0]) then 0 else 1 + KeyLength(s[1..])
  }

  // (\s*)([^\s:]+)(\s*:\s*(.*?)(\\?)\s*)
  datatype KeyLine = KeyLine(leading: string, key: string, trailing: string, val: string)

  function ParseKeyLine(line: string): Option<KeyLine>
  {
    var i := Lead(line);
    var rest := line[i..];
    var n := KeyLength(rest);
    var trailing := rest[n..];
    var k := Lead(trailing);
    if n == 0 || k >= |trailing| || trailing[k] != ':' then None
    else Some(KeyLine(line[..i], rest[..n], trailing, Bare(trailing[k + 1..])))
  }

  // .*?((?:\r?\n)?)
  function LineEnd(s: string): string
  {
    if s == "" || s[|s| - 1] != '\n' then ""
    else if |s| >= 2 && s[|s| - 2] == '\r' then "\r\n" else "\n"
  }

  // ---------- Reading ----------

  // An entry of the file: what precedes the key, the key, and what follows it, further
  // lines included.
  datatype Entry = Entry(before: string, key: string, after: string)

  datatype Target = Nothing | Trash | Of(key: string)

  // cur is the entry being read; target says where further text goes.
  datatype Reader = Reader(
    done: seq<Entry>, cur: Entry, target: Target, data: map<string, string>, errors: nat)

  const FRESH: Entry := Entry("", "", "")

  const BEGIN: Reader := Reader([], FRESH, Nothing, map[], 0)

  // Text goes after the key once there is a target.
  function Appended(r: Reader, text: string): Reader
  {
    if r.target == Nothing then r.(cur := r.cur.(before := r.cur.before + text))
    else r.(cur := r.cur.(after := r.cur.after + text))
  }

  function Closed(r: Reader): Reader
  {
    r.(done := r.done + [r.cur], cur := FRESH, target := Nothing)
  }

  // The part of a value that a line contributes.
  function Contribution(line: string): string
  {
    if IsComment(line) then "" else if Continues(line) then Bare(line) + " " else Bare(line)
  }

  function FirstPart(line: string, val: string): string
  {
    if Continues(line) && val != "" then val + " " else val
  }

  function OpenKey(keys: set<string>, r: Reader, line: string, k: KeyLine): Reader
  {
    var dup := if k.key in r.data then 1 else 0;
    var cur := Entry(r.cur.before + k.leading, k.key, k.trailing);
    if k.key !in keys then r.(cur := cur, target := Trash, errors := r.errors + dup + 1)
    else r.(cur := cur, target := Of(k.key), data := r.data[k.key := FirstPart(line, k.val)], errors := r.errors + dup)
  }

  function ReadLine(keys: set<string>, r: Reader, line: string): Reader
  {
    var comment := IsComment(line);
    var continuation := !comment && Continues(line);
    if r.target != Nothing then
      var s := Appended(r, line);
      var t := if r.target.Of? && r.target.key in r.data
               then s.(data := s.data[r.target.key := s.data[r.target.key] + Contribution(line)]) else s;
      if comment || continuation then t else Closed(t)
    else if comment || Contribution(line) == "" then Closed(Appended(r, line))
    else if ParseKeyLine(line).Some? then
      var s := OpenKey(keys, r, line, ParseKeyLine(line).value);
      if continuation then s else Closed(s)
    else
      var s := Appended(r, line).(errors := r.errors + 1);
      if continuation then s else Closed(s)
  }

  function ReadLines(keys: set<string>, lines: seq<string>): Reader
  {
    if lines == [] then BEGIN else ReadLine(keys, ReadLines(keys, lines[..|lines| - 1]), lines[|lines| - 1])
  }

  // The entries of the file, the one left over at the end included.
  function Entries(r: Reader): seq<Entry>
  {
    r.done + [r.cur]
  }

  // ---------- Writing ----------

  datatype Edits = Edits(changes: map<string, string>, replacements: map<string, string>, deletions: set<string>)

  const NONE: Edits := Edits(map[], map[], {})

  function WriteEntry(e: Edits, od: Entry): string
  {
    if od.key != "" && od.key in e.deletions then ""
    else if od.key != "" && od.key in e.replacements then od.before + e.replacements[od.key] + LineEnd(od.after)
    else if od.key != "" && od.key in e.changes then od.before + e.changes[od.key] + od.after
    else od.before + od.key + od.after
  }

  function WriteEntries(e: Edits, entries: seq<Entry>): string
  {
    if entries == [] then "" else WriteEntries(e, entries[..|entries| - 1]) + WriteEntry(e, entries[|entries| - 1])
  }

  function Additions(eol: string, additions: seq<string>): string
  {
    if additions == [] then "" else Additions(eol, additions[..|additions| - 1]) + additions[|additions| - 1] + eol
  }

  // ---------- No edits: the file as it was ----------

  // Before a key is found the entry has no key and nothing after it; while there is a
  // target it has a key.
  ghost predicate Shaped(r: Reader)
  {
    && (r.target == Nothing ==> r.cur.key == "" && r.cur.after == "")
    && (r.target != Nothing ==> r.cur.key != "")
    && (r.target.Of? ==> r.target.key == r.cur.key && r.target.key in r.data)
  }

  lemma WritePush(e: Edits, entries: seq<Entry>, od: Entry)
    ensures WriteEntries(e, entries + [od]) == WriteEntries(e, entries) + WriteEntry(e, od)
  {
    assert (entries + [od])[..|entries|] == entries;
  }

  lemma KeyLineNamed(line: string)
    requires ParseKeyLine(line).Some?
    ensures var k := ParseKeyLine(line).value;
            k.key != "" && line == k.leading + k.key + k.trailing
  {
    hide Bare, Lead, KeyLength;
    var i := Lead(line);
    var rest := line[i..];
    var n := KeyLength(rest);
    assert line == line[..i] + rest && rest == rest[..n] + rest[n..];
    assert line[..i] + (rest[..n] + rest[n..]) == line[..i] + rest[..n] + rest[n..];
  }

  lemma WritesPlainly(od: Entry)
    ensures WriteEntry(NONE, od) == od.before + od.key + od.after
  {
  }

  function Written(r: Reader): string
  {
    WriteEntries(NONE, Entries(r))
  }

  lemma TextOf(r: Reader)
    ensures Written(r) == WriteEntries(NONE, r.done) + (r.cur.before + r.cur.key + r.cur.after)
  {
    WritePush(NONE, r.done, r.cur);
    WritesPlainly(r.cur);
  }

  lemma CloseText(r: Reader)
    ensures Written(Closed(r)) == Written(r)
  {
    WritePush(NONE, Closed(r).done, FRESH);
    WriteFresh();
    assert Written(r) + "" == Written(r);
  }

  lemma AppendText(r: Reader, line: string)
    requires Shaped(r)
    ensures Written(Appended(r, line)) == Written(r) + line
  {
    hide WriteEntries;
    TextOf(r);
    TextOf(Appended(r, line));
    var w := WriteEntries(NONE, r.done);
    if r.target == Nothing {
      assert r.cur.before + line + "" + "" == r.cur.before + "" + "" + line;
    } else {
      assert r.cur.before + r.cur.key + (r.cur.after + line) == r.cur.before + r.cur.key + r.cur.after + line;
    }
    assert w + (r.cur.before + r.cur.key + r.cur.after + line) == w + (r.cur.before + r.cur.key + r.cur.after) + line;
  }

  lemma OpenText(keys: set<string>, r: Reader, line: string)
    requires Shaped(r) && r.target == Nothing && ParseKeyLine(line).Some?
    ensures var s := OpenKey(keys, r, line, ParseKeyLine(line).value);
            Shaped(s) && Written(s) == Written(r) + line
  {
    hide WriteEntries, ParseKeyLine, FirstPart;
    KeyLineNamed(line);
    var k := ParseKeyLine(line).value;
    TextOf(r);
    TextOf(OpenKey(keys, r, line, k));
    var w, before := WriteEntries(NONE, r.done), r.cur.before;
    assert before + "" + "" == before;
    assert w + (before + k.leading + k.key + k.trailing) == w + before + (k.leading + k.key + k.trailing);
  }

  // A line ends up in the entry being read or in one that is finished.
  lemma ReadLineText(keys: set<string>, r: Reader, line: string)
    requires Shaped(r)
    ensures Shaped(ReadLine(keys, r, line)) && Written(ReadLine(keys, r, line)) == Written(r) + line
  {
    hide ParseKeyLine, IsComment, Continues, Contribution, OpenKey, Written;
    AppendText(r, line);
    var s := Appended(r, line);
    if r.target != Nothing {
      var t := if r.target.Of? && r.target.key in r.data
               then s.(data := s.data[r.target.key := s.data[r.target.key] + Contribution(line)]) else s;
      SameText(s, t);
      CloseText(t);
    } else if IsComment(line) || Contribution(line) == "" {
      CloseText(s);
    } else if ParseKeyLine(line).Some? {
      OpenText(keys, r, line);
      CloseText(OpenKey(keys, r, line, ParseKeyLine(line).value));
    } else {
      var t := s.(errors := r.errors + 1);
      SameText(s, t);
      CloseText(t);
    }
  }

  lemma SameText(r: Reader, s: Reader)
    requires r.done == s.done && r.cur == s.cur
    ensures Written(r) == Written(s)
  {
  }

  lemma WriteFresh()
    ensures WriteEntry(NONE, FRESH) == ""
  {
  }

  lemma {:induction false} ReadLinesText(keys: set<string>, lines: seq<string>)
    ensures Shaped(ReadLines(keys, lines))
    ensures Written(ReadLines(keys, lines)) == Joined(lines)
  {
    hide ReadLine;
    if lines == [] {
      assert Entries(BEGIN) == [] + [FRESH];
      WritePush(NONE, [], FRESH);
    } else {
      ReadLinesText(keys, lines[..|lines| - 1]);
      ReadLineText(keys, ReadLines(keys, lines[..|lines| - 1]), lines[|lines| - 1]);
    }
  }

  lemma {:induction false} JoinedSplit(a: string, lines: seq<string>)
    ensures Joined([a] + lines) == a + Joined(lines)
  {
    if lines == [] {
      assert [a] + lines == [a] && [a][..0] == [];
    } else {
      var n := |lines| - 1;
      assert ([a] + lines)[..n + 1] == [a] + lines[..n];
      JoinedSplit(a, lines[..n]);
    }
  }

  lemma {:induction false} LinesJoin(text: string)
    ensures Joined(Lines(text)) == text
    decreases |text|
  {
    if text != "" {
      var n := LineLength(text);
      LinesJoin(text[n..]);
      JoinedSplit(text[..n], Lines(text[n..]));
    }
  }

  // Written back without edits, any file that can be read is the same byte for byte,
  // comments, continuations and bad lines included.
  lemma RewriteIsIdentity(keys: set<string>, text: string)
    ensures WriteEntries(NONE, Entries(ReadLines(keys, Lines(text)))) == text
  {
    LinesJoin(text);
    ReadLinesText(keys, Lines(text));
  }

  // ---------- Renaming and deleting keys ----------

  function Renamed(e: Edits, key: string): string
  {
    if key in e.changes then e.changes[key] else key
  }

  // Keys are renamed to valid ones, and not two to the same.
  ghost predicate GoodEdits(e: Edits, keys: set<string>, newKeys: set<string>)
  {
    && e.replacements == map[]
    && (forall k :: k in keys && k !in e.deletions ==> Renamed(e, k) in newKeys)
    && (forall k, l ::
          k in keys && l in keys && k !in e.deletions && l !in e.deletions && Renamed(e, k) == Renamed(e, l) ==> k == l)
    && (forall k :: k in e.changes ==> ValidKey(e.changes[k]))
  }

  predicate ValidKey(key: string)
  {
    key != "" && key[0] != '#' && forall i :: 0 <= i < |key| ==> InKey(key[i])
  }

  // The lines that come out for a line read in state r.
  function Kept(e: Edits, r: Reader, line: string): seq<string>
  {
    if r.target != Nothing then (if r.cur.key in e.deletions then [] else [line])
    else if IsComment(line) || Contribution(line) == "" || ParseKeyLine(line).None? then [line]
    else
      var k := ParseKeyLine(line).value;
      if k.key in e.deletions then [] else [k.leading + Renamed(e, k.key) + k.trailing]
  }

  function KeptAll(keys: set<string>, e: Edits, lines: seq<string>): seq<string>
  {
    if lines == [] then []
    else
      var n := |lines| - 1;
      KeptAll(keys, e, lines[..n]) + Kept(e, ReadLines(keys, lines[..n]), lines[n])
  }

  // Reading without errors so far.
  ghost predicate Clean(keys: set<string>, r: Reader)
  {
    && r.errors == 0 && Shaped(r) && r.target != Trash
    && (r.target == Nothing ==> r.cur == FRESH)
    && r.data.Keys <= keys
  }

  lemma StaysClean(keys: set<string>, r: Reader, line: string)
    requires (r.errors == 0 ==> Clean(keys, r)) && ReadLine(keys, r, line).errors == 0
    ensures r.errors == 0 && Clean(keys, ReadLine(keys, r, line))
  {
    hide ParseKeyLine, IsComment, Continues, Contribution, FirstPart;
    if ParseKeyLine(line).Some? {
      KeyLineNamed(line);
    }
  }

  lemma {:induction false} AllClean(keys: set<string>, lines: seq<string>)
    requires ReadLines(keys, lines).errors == 0
    ensures Clean(keys, ReadLines(keys, lines))
    ensures lines != [] ==> ReadLines(keys, lines[..|lines| - 1]).errors == 0
  {
    hide ReadLine;
    if lines != [] {
      var n := |lines| - 1;
      if ReadLines(keys, lines[..n]).errors == 0 {
        AllClean(keys, lines[..n]);
      }
      StaysClean(keys, ReadLines(keys, lines[..n]), lines[n]);
    }
  }

  // ---------- The edited text, line by line ----------

  function Edited(e: Edits, r: Reader): string
  {
    WriteEntries(e, Entries(r))
  }

  lemma EditedOf(e: Edits, r: Reader)
    ensures Edited(e, r) == WriteEntries(e, r.done) + WriteEntry(e, r.cur)
  {
    WritePush(e, r.done, r.cur);
  }

  lemma EditedClosed(e: Edits, r: Reader)
    ensures Edited(e, Closed(r)) == Edited(e, r)
  {
    WritePush(e, Closed(r).done, FRESH);
    assert WriteEntry(e, FRESH) == "";
    assert Edited(e, r) + "" == Edited(e, r);
  }

  lemma SameEdited(e: Edits, r: Reader, s: Reader)
    requires r.done == s.done && r.cur == s.cur
    ensures Edited(e, r) == Edited(e, s)
  {
  }

  lemma JoinedOne(line: string)
    ensures Joined([line]) == line
  {
    assert [line][..0] == [];
    assert "" + line == line;
  }

  lemma WriteMore(e: Edits, od: Entry, line: string)
    requires od.key != "" && e.replacements == map[]
    ensures WriteEntry(e, od.(after := od.after + line)) ==
            WriteEntry(e, od) + (if od.key in e.deletions then "" else line)
  {
    var name := Renamed(e, od.key);
    assert od.before + name + (od.after + line) == od.before + name + od.after + line;
  }

  lemma WriteBare(e: Edits, line: string)
    ensures WriteEntry(e, FRESH) == "" && WriteEntry(e, Entry("" + line, "", "")) == line
  {
    assert "" + line + "" + "" == line;
  }

  lemma EditedAppend(e: Edits, keys: set<string>, r: Reader, line: string)
    requires Clean(keys, r) && e.replacements == map[]
    requires r.target != Nothing || IsComment(line) || Contribution(line) == ""
    ensures Edited(e, Appended(r, line)) == Edited(e, r) + Joined(Kept(e, r, line))
  {
    hide ParseKeyLine, IsComment, Continues, Contribution, WriteEntries, Joined, WriteEntry;
    EditedOf(e, r);
    EditedOf(e, Appended(r, line));
    JoinedOne(line);
    JoinedNone();
    var w, od := WriteEntries(e, r.done), r.cur;
    if r.target == Nothing {
      WriteBare(e, line);
      assert w + line == w + "" + line;
    } else {
      WriteMore(e, od, line);
      var more := if od.key in e.deletions then "" else line;
      assert w + (WriteEntry(e, od) + more) == w + WriteEntry(e, od) + more;
    }
  }

  lemma JoinedNone()
    ensures Joined([]) == ""
  {
  }

  lemma EditedOpen(e: Edits, keys: set<string>, r: Reader, line: string)
    requires Clean(keys, r) && e.replacements == map[] && r.target == Nothing && ParseKeyLine(line).Some?
    requires !IsComment(line) && Contribution(line) != ""
    ensures Edited(e, OpenKey(keys, r, line, ParseKeyLine(line).value)) == Edited(e, r) + Joined(Kept(e, r, line))
  {
    hide ParseKeyLine, IsComment, Continues, Contribution, WriteEntries, Joined, FirstPart;
    KeyLineNamed(line);
    var k := ParseKeyLine(line).value;
    EditedOf(e, r);
    EditedOf(e, OpenKey(keys, r, line, k));
    JoinedOne(k.leading + Renamed(e, k.key) + k.trailing);
    JoinedNone();
    assert WriteEntry(e, r.cur) == "";
    assert "" + k.leading == k.leading;
    assert Edited(e, r) == WriteEntries(e, r.done);
  }

  lemma EditedStep(e: Edits, keys: set<string>, r: Reader, line: string)
    requires Clean(keys, r) && ReadLine(keys, r, line).errors == 0 && e.replacements == map[]
    ensures Edited(e, ReadLine(keys, r, line)) == Edited(e, r) + Joined(Kept(e, r, line))
  {
    hide ParseKeyLine, IsComment, Continues, Contribution, OpenKey, Edited, Kept;
    var s := Appended(r, line);
    if r.target != Nothing {
      EditedAppend(e, keys, r, line);
      var t := if r.target.Of? && r.target.key in r.data
               then s.(data := s.data[r.target.key := s.data[r.target.key] + Contribution(line)]) else s;
      SameEdited(e, s, t);
      EditedClosed(e, t);
    } else if IsComment(line) || Contribution(line) == "" {
      EditedAppend(e, keys, r, line);
      EditedClosed(e, s);
    } else if ParseKeyLine(line).Some? {
      EditedOpen(e, keys, r, line);
      EditedClosed(e, OpenKey(keys, r, line, ParseKeyLine(line).value));
    }
  }

  lemma {:induction false} JoinedAppend(a: seq<string>, b: seq<string>)
    ensures Joined(a + b) == Joined(a) + Joined(b)
  {
    if b == [] {
      assert a + b == a && Joined(a) + "" == Joined(a);
    } else {
      var n := |b| - 1;
      assert (a + b)[..|a| + n] == a + b[..n];
      JoinedAppend(a, b[..n]);
    }
  }

  lemma {:induction false} EditedAll(e: Edits, keys: set<string>, lines: seq<string>)
    requires ReadLines(keys, lines).errors == 0 && e.replacements == map[]
    ensures Edited(e, ReadLines(keys, lines)) == Joined(KeptAll(keys, e, lines))
  {
    hide ReadLine, Edited, Kept, Joined;
    if lines == [] {
      EditedOf(e, BEGIN);
      JoinedNone();
      assert WriteEntries(e, []) == "" && WriteEntry(e, FRESH) == "";
    } else {
      var n := |lines| - 1;
      AllClean(keys, lines);
      AllClean(keys, lines[..n]);
      EditedAll(e, keys, lines[..n]);
      EditedStep(e, keys, ReadLines(keys, lines[..n]), lines[n]);
      JoinedAppend(KeptAll(keys, e, lines[..n]), Kept(e, ReadLines(keys, lines[..n]), lines[n]));
    }
  }

  // ---------- Splitting the edited text ----------

  // A line: a newline, if any, only at its end.
  ghost predicate IsLine(s: string)
  {
    s != "" && forall i :: 0 <= i < |s| - 1 ==> s[i] != '\n'
  }

  predicate Terminated(s: string)
  {
    s != "" && s[|s| - 1] == '\n'
  }

  ghost predicate Splittable(lines: seq<string>)
  {
    forall i :: 0 <= i < |lines| ==> IsLine(lines[i]) && (i < |lines| - 1 ==> Terminated(lines[i]))
  }

  lemma {:induction false} FirstLine(a: string, rest: string)
    requires IsLine(a) && (Terminated(a) || rest == "")
    ensures LineLength(a + rest) == |a|
    decreases |a|
  {
    if |a| > 1 {
      assert (a + rest)[1..] == a[1..] + rest && (a + rest)[0] == a[0];
      FirstLine(a[1..], rest);
    } else if rest == "" {
      assert a + rest == a;
    }
  }

  lemma {:induction false} LinesOfJoined(lines: seq<string>)
    requires Splittable(lines)
    ensures Lines(Joined(lines)) == lines
    decreases |lines|
  {
    hide Joined;
    if lines == [] {
      JoinedNone();
    } else {
      var a, rest := lines[0], lines[1..];
      assert lines == [a] + rest;
      JoinedSplit(a, rest);
      LinesOfJoined(rest);
      if rest == [] {
        JoinedNone();
      }
      var text := a + Joined(rest);
      FirstLine(a, Joined(rest));
      assert text[..|a|] == a && text[|a|..] == Joined(rest);
    }
  }

  lemma {:induction false} LinesSplittable(text: string)
    ensures Splittable(Lines(text))
    decreases |text|
  {
    if text != "" {
      var n := LineLength(text);
      LineIsLine(text);
      LinesSplittable(text[n..]);
      var l := Lines(text);
      assert l[1..] == Lines(text[n..]);
    }
  }

  lemma {:induction false} LineIsLine(text: string)
    requires text != ""
    ensures var n := LineLength(text);
            IsLine(text[..n]) && (n < |text| ==> Terminated(text[..n]))
    decreases |text|
  {
    var n := LineLength(text);
    if n > 1 {
      LineIsLine(text[1..]);
      assert text[..n][1..] == text[1..][..n - 1];
    }
  }

  lemma {:induction false} KeptLines(keys: set<string>, e: Edits, lines: seq<string>)
    requires Splittable(lines) && ReadLines(keys, lines).errors == 0
               && (forall k :: k in e.changes ==> ValidKey(e.changes[k]))
    ensures Splittable(KeptAll(keys, e, lines))
    ensures (forall i :: 0 <= i < |lines| ==> Terminated(lines[i])) ==>
              forall i :: 0 <= i < |KeptAll(keys, e, lines)| ==> Terminated(KeptAll(keys, e, lines)[i])
  {
    hide Kept, ReadLine, IsLine, Terminated, ValidKey;
    if lines != [] {
      var n := |lines| - 1;
      AllClean(keys, lines);
      KeptLines(keys, e, lines[..n]);
      KeptIsLine(e, ReadLines(keys, lines[..n]), lines[n]);
    }
  }

  // A line that comes out ends as the one that went in.
  lemma KeptIsLine(e: Edits, r: Reader, line: string)
    requires IsLine(line) && (forall k :: k in e.changes ==> ValidKey(e.changes[k]))
    ensures var kept := Kept(e, r, line);
            |kept| <= 1 && (kept != [] ==> IsLine(kept[0]) && (Terminated(line) ==> Terminated(kept[0])))
  {
    hide IsComment, Contribution, ParseKeyLine, IsLine, Terminated, ValidKey, KeyParts;
    if ParseKeyLine(line).Some? {
      var k := ParseKeyLine(line).value;
      KeyLineNamed(line);
      KeyLineParts(line);
      var name := Renamed(e, k.key);
      PartsBeforeEnd(k.leading, k.key, k.trailing);
      EndingLine(k.leading + k.key, k.trailing);
      NameHasNoNewline(k.leading, k.key, k.trailing);
      if k.key in e.changes {
        ValidHasNoNewline(name);
      }
      EndingLine(k.leading + name, k.trailing);
    }
  }

  lemma EndingLine(a: string, b: string)
    requires b != ""
    ensures IsLine(a + b) <==> '\n' !in a && IsLine(b)
    ensures Terminated(a + b) <==> Terminated(b)
  {
    var s := a + b;
    assert s[|s| - 1] == b[|b| - 1];
    if IsLine(s) {
      forall i | 0 <= i < |a|
        ensures a[i] != '\n'
      {
        assert s[i] == a[i];
      }
      forall i | 0 <= i < |b| - 1
        ensures b[i] != '\n'
      {
        assert s[|a| + i] == b[i];
      }
    }
    if '\n' !in a && IsLine(b) {
      forall i | 0 <= i < |s| - 1
        ensures s[i] != '\n'
      {
        if i < |a| {
          assert a[i] in a;
        } else {
          assert b[i - |a|] == s[i];
        }
      }
    }
  }

  lemma PartsBeforeEnd(a: string, key: string, b: string)
    requires KeyParts(a, key, b)
    ensures b != ""
  {
  }

  lemma NameHasNoNewline(a: string, key: string, b: string)
    requires KeyParts(a, key, b)
    ensures '\n' !in key
  {
    forall i | 0 <= i < |key|
      ensures key[i] != '\n'
    {
      assert InKey(key[i]);
    }
  }

  lemma ValidHasNoNewline(name: string)
    requires ValidKey(name)
    ensures '\n' !in name
  {
    forall i | 0 <= i < |name|
      ensures name[i] != '\n'
    {
      assert InKey(name[i]);
    }
  }

  // ---------- Key lines ----------

  ghost predicate KeyParts(a: string, key: string, b: string)
  {
    && (forall i :: 0 <= i < |a| ==> IsSpace(a[i]))
    && key != "" && (forall i :: 0 <= i < |key| ==> InKey(key[i]))
    && Lead(b) < |b| && b[Lead(b)] == ':'
  }

  lemma KeyLineParts(line: string)
    requires ParseKeyLine(line).Some?
    ensures var k := ParseKeyLine(line).value;
            KeyParts(k.leading, k.key, k.trailing) && k.val == Bare(k.trailing[Lead(k.trailing) + 1..])
  {
    hide Bare, IsSpace, InKey, Lead, KeyLength;
    var i := Lead(line);
    var rest := line[i..];
    assert forall j :: 0 <= j < i ==> line[..i][j] == line[j];
    assert forall j :: 0 <= j < KeyLength(rest) ==> rest[..KeyLength(rest)][j] == rest[j];
  }

  lemma {:induction false} LeadIs(s: string, n: nat)
    requires n <= |s| && (forall i :: 0 <= i < n ==> IsSpace(s[i])) && (n < |s| ==> !IsSpace(s[n]))
    ensures Lead(s) == n
  {
    if n > 0 {
      LeadIs(s[1..], n - 1);
    }
  }

  lemma {:induction false} KeyLengthIs(s: string, n: nat)
    requires n <= |s| && (forall i :: 0 <= i < n ==> InKey(s[i])) && (n < |s| ==> !InKey(s[n]))
    ensures KeyLength(s) == n
  {
    if n > 0 {
      KeyLengthIs(s[1..], n - 1);
    }
  }

  lemma ParseParts(a: string, key: string, b: string)
    requires KeyParts(a, key, b)
    ensures ParseKeyLine(a + key + b) == Some(KeyLine(a, key, b, Bare(b[Lead(b) + 1..])))
  {
    hide Bare, Lead, KeyLength;
    var line := a + key + b;
    assert line[|a|] == key[0];
    LeadIs(line, |a|);
    var rest := line[|a|..];
    assert rest == key + b && line[..|a|] == a;
    assert InKey(key[0]);
    assert !InKey(b[0]) by {
      if Lead(b) > 0 {
        assert IsSpace(b[0]);
      }
    }
    assert rest[|key|] == b[0];
    KeyLengthIs(rest, |key|);
    assert rest[..|key|] == key && rest[|key|..] == b;
  }

  lemma {:induction false} TrimKeeps(a: string, b: string)
    requires Lead(b) < |b|
    ensures TrimEnd(a + b) == a + TrimEnd(b) && TrimEnd(b) != ""
    decreases |b|
  {
    var n := |b| - 1;
    assert (a + b)[|a + b| - 1] == b[n];
    if IsSpace(b[n]) {
      assert (a + b)[..|a + b| - 1] == a + b[..n];
      LeadIs(b[..n], Lead(b));
      TrimKeeps(a, b[..n]);
    }
  }

  // What depends on the line of a key does not depend on the key.
  lemma PartsAlike(a: string, key: string, b: string)
    requires KeyParts(a, key, b) && key[0] != '#'
    ensures var line := a + key + b;
            && !IsComment(line) && Contribution(line) != ""
            && (Continues(line) <==> EndsInBackslash(TrimEnd(b)))
  {
    var line := a + key + b;
    assert line[|a|] == key[0] && InKey(key[0]);
    LeadIs(line, |a|);
    assert line[|a|..] == key + b;
    TrimKeeps(key, b);
    assert Body(line) == key + TrimEnd(b);
    var t := TrimEnd(b);
    assert Body(line)[|Body(line)| - 1] == t[|t| - 1];
  }

  lemma KeyIsNoComment(line: string)
    requires ParseKeyLine(line).Some? && !IsComment(line)
    ensures ParseKeyLine(line).value.key[0] != '#'
  {
  }

  // ---------- Reading the edited text ----------

  // s reads the edited text, r the original one.
  ghost predicate Follows(e: Edits, newKeys: set<string>, r: Reader, s: Reader)
  {
    && Clean(newKeys, s)
    && s.target == (if r.target == Nothing || r.cur.key in e.deletions then Nothing else Of(Renamed(e, r.cur.key)))
    && DataRenamed(e, r.data, s.data)
  }

  // The map with keys deleted and renamed.
  ghost predicate DataRenamed(e: Edits, data: map<string, string>, edited: map<string, string>)
  {
    && (forall k :: k in data && k !in e.deletions ==> Renamed(e, k) in edited && edited[Renamed(e, k)] == data[k])
    && (forall x :: x in edited ==> exists k :: k in data && k !in e.deletions && x == Renamed(e, k))
  }

  lemma SetRenamed(
      e: Edits, keys: set<string>, newKeys: set<string>, data: map<string, string>, edited: map<string, string>,
      k: string, v: string)
    requires GoodEdits(e, keys, newKeys) && data.Keys <= keys && k in keys && DataRenamed(e, data, edited)
    ensures DataRenamed(e, data[k := v], if k in e.deletions then edited else edited[Renamed(e, k) := v])
    ensures k !in data && k !in e.deletions ==> Renamed(e, k) !in edited
  {
    hide Renamed, ValidKey;
    var d := data[k := v];
    var f := if k in e.deletions then edited else edited[Renamed(e, k) := v];
    forall x | x in f
      ensures exists l :: l in d && l !in e.deletions && x == Renamed(e, l)
    {
      if x in edited {
        var l :| l in data && l !in e.deletions && x == Renamed(e, l);
        assert l in d;
      } else {
        assert k in d;
      }
    }
  }

  lemma FollowInside(e: Edits, keys: set<string>, newKeys: set<string>, r: Reader, s: Reader, line: string)
    requires GoodEdits(e, keys, newKeys) && Clean(keys, r) && Follows(e, newKeys, r, s) && r.target != Nothing
    ensures var r' := ReadLine(keys, r, line);
            var s' := if r.cur.key in e.deletions then s else ReadLine(newKeys, s, line);
            Follows(e, newKeys, r', s')
  {
    hide ParseKeyLine, IsComment, Continues, Contribution, DataRenamed, GoodEdits, Renamed;
    var k := r.target.key;
    var v := r.data[k] + Contribution(line);
    SetRenamed(e, keys, newKeys, r.data, s.data, k, v);
    if k !in e.deletions {
      DataAt(e, r.data, s.data, k);
    }
  }

  lemma DataAt(e: Edits, data: map<string, string>, edited: map<string, string>, k: string)
    requires DataRenamed(e, data, edited) && k in data && k !in e.deletions
    ensures Renamed(e, k) in edited && edited[Renamed(e, k)] == data[k]
  {
  }

  lemma FollowOutside(e: Edits, keys: set<string>, newKeys: set<string>, r: Reader, s: Reader, line: string)
    requires Clean(keys, r) && Follows(e, newKeys, r, s) && r.target == Nothing
    requires IsComment(line) || Contribution(line) == ""
    ensures Follows(e, newKeys, ReadLine(keys, r, line), ReadLine(newKeys, s, line))
  {
    hide ParseKeyLine, IsComment, Continues, Contribution, DataRenamed;
  }

  lemma ReadOpen(keys: set<string>, r: Reader, line: string)
    requires r.target == Nothing && !IsComment(line) && Contribution(line) != "" && ParseKeyLine(line).Some?
    ensures var s := OpenKey(keys, r, line, ParseKeyLine(line).value);
            ReadLine(keys, r, line) == if Continues(line) then s else Closed(s)
  {
    hide ParseKeyLine, IsComment, Continues, Contribution, OpenKey;
  }

  lemma FollowOpen(e: Edits, keys: set<string>, newKeys: set<string>, r: Reader, s: Reader, line: string)
    requires GoodEdits(e, keys, newKeys) && Clean(keys, r) && Follows(e, newKeys, r, s) && r.target == Nothing
    requires !IsComment(line) && Contribution(line) != "" && ParseKeyLine(line).Some?
               && ReadLine(keys, r, line).errors == 0
    ensures var k := ParseKeyLine(line).value;
            var r' := ReadLine(keys, r, line);
            var s' := if k.key in e.deletions then s
                  else ReadLine(newKeys, s, k.leading + Renamed(e, k.key) + k.trailing);
            Follows(e, newKeys, r', s')
  {
    hide ParseKeyLine, IsComment, Continues, Contribution, DataRenamed, GoodEdits, KeyParts, ReadLine, FirstPart,
         Bare, Renamed;
    var k := ParseKeyLine(line).value;
    KeyLineParts(line);
    KeyIsNoComment(line);
    KeyLineNamed(line);
    ReadOpen(keys, r, line);
    SetRenamed(e, keys, newKeys, r.data, s.data, k.key, FirstPart(line, k.val));
    if k.key !in e.deletions {
      FollowRenamed(e, keys, newKeys, s, line, k);
    }
  }

  // The line with the key renamed opens the new key with the same value.
  lemma FollowRenamed(e: Edits, keys: set<string>, newKeys: set<string>, s: Reader, line: string, k: KeyLine)
    requires GoodEdits(e, keys, newKeys) && k.key in keys && k.key !in e.deletions && s.target == Nothing
    requires KeyParts(k.leading, k.key, k.trailing) && k.key[0] != '#'
               && k.val == Bare(k.trailing[Lead(k.trailing) + 1..])
    requires line == k.leading + k.key + k.trailing
    ensures var name := Renamed(e, k.key);
            var other := k.leading + name + k.trailing;
            var t := OpenKey(newKeys, s, other, KeyLine(k.leading, name, k.trailing, k.val));
            && name in newKeys && name != "" && (Continues(other) <==> Continues(line))
            && FirstPart(other, k.val) == FirstPart(line, k.val)
            && ReadLine(newKeys, s, other) == if Continues(line) then t else Closed(t)
  {
    hide ParseKeyLine, IsComment, Continues, Contribution, GoodEdits, KeyParts, OpenKey, Bare, Renamed;
    var name := Renamed(e, k.key);
    var other := k.leading + name + k.trailing;
    RenamedParts(e, keys, newKeys, k);
    ParseParts(k.leading, name, k.trailing);
    PartsAlike(k.leading, name, k.trailing);
    PartsAlike(k.leading, k.key, k.trailing);
    ReadOpen(newKeys, s, other);
  }

  lemma RenamedParts(e: Edits, keys: set<string>, newKeys: set<string>, k: KeyLine)
    requires GoodEdits(e, keys, newKeys) && k.key in keys && k.key !in e.deletions
    requires KeyParts(k.leading, k.key, k.trailing) && k.key[0] != '#'
    ensures var name := Renamed(e, k.key);
            KeyParts(k.leading, name, k.trailing) && name[0] != '#' && name in newKeys && name != ""
  {
    if k.key in e.changes {
      assert ValidKey(e.changes[k.key]);
    }
  }

  lemma {:induction false} FollowAll(e: Edits, keys: set<string>, newKeys: set<string>, lines: seq<string>)
    requires GoodEdits(e, keys, newKeys) && ReadLines(keys, lines).errors == 0
    ensures Follows(e, newKeys, ReadLines(keys, lines), ReadLines(newKeys, KeptAll(keys, e, lines)))
  {
    hide ReadLine, GoodEdits, Follows, IsComment, Contribution, ParseKeyLine, Clean;
    if lines == [] {
      BeginFollows(e, newKeys);
    } else {
      var n := |lines| - 1;
      AllClean(keys, lines);
      AllClean(keys, lines[..n]);
      FollowAll(e, keys, newKeys, lines[..n]);
      var r, s := ReadLines(keys, lines[..n]), ReadLines(newKeys, KeptAll(keys, e, lines[..n]));
      var kept := Kept(e, r, lines[n]);
      ReadKept(newKeys, KeptAll(keys, e, lines[..n]), kept);
      if r.target != Nothing {
        FollowInside(e, keys, newKeys, r, s, lines[n]);
      } else if IsComment(lines[n]) || Contribution(lines[n]) == "" {
        FollowOutside(e, keys, newKeys, r, s, lines[n]);
      } else {
        NoSyntaxError(keys, r, lines[n]);
        FollowOpen(e, keys, newKeys, r, s, lines[n]);
      }
    }
  }

  lemma BeginFollows(e: Edits, newKeys: set<string>)
    ensures Follows(e, newKeys, BEGIN, BEGIN)
  {
  }

  lemma NoSyntaxError(keys: set<string>, r: Reader, line: string)
    requires Clean(keys, r) && r.target == Nothing && !IsComment(line) && Contribution(line) != ""
    requires ReadLine(keys, r, line).errors == 0
    ensures ParseKeyLine(line).Some?
  {
    hide ParseKeyLine, IsComment, Continues, Contribution;
  }

  lemma ReadKept(keys: set<string>, lines: seq<string>, kept: seq<string>)
    requires |kept| <= 1
    ensures ReadLines(keys, lines + kept) ==
            if kept == [] then ReadLines(keys, lines) else ReadLine(keys, ReadLines(keys, lines), kept[0])
  {
    hide ReadLine;
    if kept == [] {
      assert lines + kept == lines;
    } else {
      assert lines + kept == lines + [kept[0]];
      assert (lines + kept)[..|lines|] == lines;
    }
  }

  // The errors that keep a file from being accepted, missing keys aside.
  predicate ReadsWell(r: Reader)
  {
    r.errors == 0 && r.target == Nothing
  }

  // Reading what has been written with keys renamed and deleted gives exactly the map
  // with these keys renamed and deleted.
  lemma RewriteRenames(e: Edits, keys: set<string>, newKeys: set<string>, text: string)
    requires GoodEdits(e, keys, newKeys) && ReadsWell(ReadLines(keys, Lines(text)))
    ensures var edited := WriteEntries(e, Entries(ReadLines(keys, Lines(text))));
            var s := ReadLines(newKeys, Lines(edited));
            ReadsWell(s) && DataRenamed(e, ReadLines(keys, Lines(text)).data, s.data)
  {
    hide ReadLines, Lines, KeptAll, DataRenamed, WriteEntries, Joined, Clean;
    var lines := Lines(text);
    LinesSplittable(text);
    KeptLines(keys, e, lines);
    EditedAll(e, keys, lines);
    LinesOfJoined(KeptAll(keys, e, lines));
    FollowAll(e, keys, newKeys, lines);
    CleanHasNoErrors(newKeys, ReadLines(newKeys, KeptAll(keys, e, lines)));
  }

  lemma CleanHasNoErrors(keys: set<string>, r: Reader)
    requires Clean(keys, r)
    ensures r.errors == 0
  {
  }

  // ---------- The loops ----------

  class KeyVal {
    const keys: set<string>                  // those with defaults included
    const defaults: map<string, string>
    var data: map<string, string>
    var explicitKeys: set<string>
    var origData: seq<Entry>
    var preferredEol: string

    constructor (keys: set<string>, defaults: map<string, string>)
      requires keys !! defaults.Keys
      ensures this.keys == keys + defaults.Keys && this.defaults == defaults
      ensures data == map[] && origData == [] && preferredEol == "\n"
    {
      this.keys, this.defaults := keys + defaults.Keys, defaults;
      data, explicitKeys, origData, preferredEol := map[], {}, [], "\n";
    }

    // readFile
    method ReadFile(text: string) returns (ok: bool)
      requires data == map[] && origData == []
      modifies this
      ensures var r := ReadLines(keys, Lines(text));
              && origData == Entries(r)
              && explicitKeys == r.data.Keys
              && data == (map k | k in keys && k in defaults && k !in r.data :: defaults[k]) + r.data
              && (ok <==> ReadsWell(r) && forall k :: k in keys ==> k in data)
      ensures preferredEol ==
                (if text == "" || LineEnd(Lines(text)[0]) == "" then old(preferredEol) else LineEnd(Lines(text)[0]))
    {
      hide ReadLine, LineEnd, LineLength;
      var lines := SplitLines(text);
      var r := BEGIN;
      var i := 0;
      while i < |lines|
        invariant i <= |lines| && r == ReadLines(keys, lines[..i]) && data == map[] && origData == []
        invariant preferredEol == (if i == 0 || LineEnd(lines[0]) == "" then old(preferredEol) else LineEnd(lines[0]))
      {
        if i == 0 && LineEnd(lines[0]) != "" {
          preferredEol := LineEnd(lines[0]);
        }
        assert lines[..i + 1][..i] == lines[..i];
        r := ReadLine(keys, r, lines[i]);
        i := i + 1;
      }
      assert lines[..i] == lines;
      origData := r.done + [r.cur];
      explicitKeys := r.data.Keys;
      data := (map k | k in keys && k in defaults && k !in r.data :: defaults[k]) + r.data;
      ok := ReadsWell(r) && forall k :: k in keys ==> k in data;
    }

    // readLinesFromFile, a character at a time
    method SplitLines(text: string) returns (lines: seq<string>)
      ensures lines == Lines(text)
    {
      hide LineLength;
      lines := [];
      var start := 0;
      while start < |text|
        invariant start <= |text| && lines + Lines(text[start..]) == Lines(text)
      {
        ghost var rest := text[start..];
        var i := start;
        while i < |text| - 1 && text[i] != '\n'
          invariant start <= i < |text|
          invariant LineLength(rest) == i - start + LineLength(text[i..])
        {
          LineLengthStep(text[i..]);
          assert text[i..][1..] == text[i + 1..];
          i := i + 1;
        }
        LineLengthStep(text[i..]);
        assert rest[..i + 1 - start] == text[start..i + 1] && rest[i + 1 - start..] == text[i + 1..];
        lines := lines + [text[start..i + 1]];
        start := i + 1;
      }
    }

    lemma LineLengthStep(s: string)
      requires s != ""
      ensures LineLength(s) == if s[0] == '\n' || |s| == 1 then 1 else 1 + LineLength(s[1..])
    {
    }

    static method WriteOne(e: Edits, od: Entry) returns (text: string)
      ensures text == WriteEntry(e, od)
    {
      text := "";
      if od.key != "" && od.key in e.deletions {
        return;
      }
      text := od.before;
      if od.key != "" && od.key in e.replacements {
        text := text + e.replacements[od.key] + LineEnd(od.after);
      } else {
        text := text + (if od.key != "" && od.key in e.changes then e.changes[od.key] else od.key) + od.after;
      }
    }

    // writeFile
    method WriteFile(e: Edits, additions: seq<string>) returns (out: string)
      ensures out == Additions(preferredEol, additions) + WriteEntries(e, origData)
    {
      hide WriteEntry;
      out := "";
      for i := 0 to |additions|
        invariant out == Additions(preferredEol, additions[..i])
      {
        assert additions[..i + 1][..i] == additions[..i];
        out := out + additions[i] + preferredEol;
      }
      assert additions[..|additions|] == additions;
      ghost var added := out;
      for i := 0 to |origData|
        invariant out == added + WriteEntries(e, origData[..i])
      {
        ghost var sofar := WriteEntries(e, origData[..i]);
        assert origData[..i + 1][..i] == origData[..i];
        var text := WriteOne(e, origData[i]);
        assert added + sofar + text == added + (sofar + text);
        out := out + text;
      }
      assert origData[..|origData|] == origData;
    }
  }
}
