// What a key-value file says and what its rewriting yields, told from the way it is spelled
// (src/KeyVal.cc).
module KeyValReading {
  import opened Options
  import opened Text
  import opened KeyVals

  // ---------- Spelled files ----------

  predicate Blank(s: string)
  {
    forall i :: 0 <= i < |s| ==> IsSpace(s[i])
  }

  // A part of a value between white space; one that is continued has a backslash behind it.
  datatype Piece = Piece(lead: string, part: string, more: bool, trail: string)

  function PieceText(p: Piece): string
  {
    p.lead + (p.part + (if p.more then "\\" else "")) + p.trail
  }

  ghost predicate GoodPiece(p: Piece)
  {
    && Blank(p.lead) && Blank(p.trail)
    && (p.part != "" ==>
          !IsSpace(p.part[0]) &&
          (!p.more ==> !IsSpace(p.part[|p.part| - 1]) && p.part[|p.part| - 1] != '\\'))
  }

  // A further line of a value: a comment, or another part.
  datatype ValueLine = Remark(lead: string, text: string) | Further(piece: Piece)

  function LineText(l: ValueLine): string
  {
    match l
    case Remark(lead, text) => lead + ("#" + text)
    case Further(p) => PieceText(p)
  }

  ghost predicate GoodLine(l: ValueLine)
  {
    match l
    case Remark(lead, _) => Blank(lead)
    case Further(p) => GoodPiece(p) && (p.part != "" ==> p.part[0] != '#')
  }

  // The value goes on behind the line.
  predicate GoesOn(l: ValueLine)
  {
    l.Remark? || l.piece.more
  }

  // Empty lines, comments, lines that are neither, and keys with their values.
  datatype Block =
    | Empty(text: string)
    | Note(lead: string, text: string)
    | Wrong(text: string)
    | Item(leading: string, key: string, gap: string, first: Piece, rest: seq<ValueLine>)

  function Behind(b: Block): string
    requires b.Item?
  {
    b.gap + (":" + PieceText(b.first))
  }

  function Texts(lines: seq<ValueLine>): (r: seq<string>)
    ensures |r| == |lines|
    ensures forall i :: 0 <= i < |r| ==> r[i] == LineText(lines[i])
  {
    seq(|lines|, i requires 0 <= i < |lines| => LineText(lines[i]))
  }

  function BlockLines(b: Block): seq<string>
  {
    match b
    case Empty(text) => [text]
    case Note(lead, text) => [lead + ("#" + text)]
    case Wrong(text) => [text]
    case Item(leading, key, _, _, rest) => [leading + key + Behind(b)] + Texts(rest)
  }

  function FileLines(blocks: seq<Block>): seq<string>
  {
    if blocks == [] then [] else FileLines(blocks[..|blocks| - 1]) + BlockLines(blocks[|blocks| - 1])
  }

  // White space, a key, white space and a colon.
  ghost predicate StartsWithKey(line: string)
  {
    exists a, key, gap, b ::
      Blank(a) && Blank(gap) && key != "" && (forall i :: 0 <= i < |key| ==> InKey(key[i]))
      && line == a + key + (gap + (":" + b))
  }

  ghost predicate GoodBlock(b: Block)
  {
    match b
    case Empty(text) => Blank(text)
    case Note(lead, _) => Blank(lead)
    case Wrong(text) =>
      && !StartsWithKey(text)
      && exists i :: 0 <= i < |text| && Blank(text[..i]) && !IsSpace(text[i]) && text[i] != '#'
    case Item(leading, key, gap, first, rest) =>
      && Blank(leading) && ValidKey(key) && Blank(gap) && GoodPiece(first)
      && (!first.more ==> rest == [])
      && (forall i :: 0 <= i < |rest| ==> GoodLine(rest[i]))
      && (forall i :: 0 <= i < |rest| - 1 ==> GoesOn(rest[i]))
  }

  // Its last line does not promise another one.
  predicate Finished(b: Block)
  {
    b.Item? && b.first.more ==> b.rest != [] && !GoesOn(b.rest[|b.rest| - 1])
  }

  // Only the last block may be unfinished.
  ghost predicate GoodFile(blocks: seq<Block>)
  {
    forall i :: 0 <= i < |blocks| ==> GoodBlock(blocks[i]) && (i < |blocks| - 1 ==> Finished(blocks[i]))
  }

  // ---------- What it says ----------

  // The parts one after the other: the first with a space behind it if it is continued and not
  // empty, each further one if it is continued.
  function Value(first: Piece, rest: seq<ValueLine>): string
  {
    if rest == [] then first.part + (if first.more && first.part != "" then " " else "")
    else
      var l := rest[|rest| - 1];
      Value(first, rest[..|rest| - 1]) +
      (if l.Remark? then "" else l.piece.part + (if l.piece.more then " " else ""))
  }

  ghost predicate HasKey(blocks: seq<Block>, key: string)
  {
    exists i :: 0 <= i < |blocks| && blocks[i].Item? && blocks[i].key == key
  }

  // The item that decides the value of its key.
  ghost predicate LastFor(blocks: seq<Block>, i: nat)
  {
    && i < |blocks| && blocks[i].Item?
    && forall j :: i < j < |blocks| && blocks[j].Item? ==> blocks[j].key != blocks[i].key
  }

  // One for each line that is wrong, each key that is not known and each repeated key.
  ghost function Mistakes(keys: set<string>, blocks: seq<Block>): nat
  {
    if blocks == [] then 0
    else
      var n := |blocks| - 1;
      var b := blocks[n];
      Mistakes(keys, blocks[..n]) +
      (if b.Wrong? || (b.Item? && (b.key !in keys || HasKey(blocks[..n], b.key))) then 1 else 0)
  }

  // ---------- One line ----------

  lemma {:induction false} TrimBlank(core: string, trail: string)
    requires Blank(trail) && (core != "" ==> !IsSpace(core[|core| - 1]))
    ensures TrimEnd(core + trail) == core
    decreases |trail|
  {
    if trail == "" {
      assert core + trail == core;
    } else {
      var n := |trail| - 1;
      assert (core + trail)[..|core + trail| - 1] == core + trail[..n];
      assert (core + trail)[|core + trail| - 1] == trail[n];
      TrimBlank(core, trail[..n]);
    }
  }

  lemma BodyIs(lead: string, core: string, trail: string)
    requires Blank(lead) && Blank(trail) && (core != "" ==> !IsSpace(core[0]) && !IsSpace(core[|core| - 1]))
    ensures Body(lead + core + trail) == core
    ensures core != "" ==> Lead(lead + core + trail) == |lead|
    ensures core == "" ==> Lead(lead + core + trail) == |lead + core + trail|
  {
    hide TrimEnd, Lead;
    var s := lead + core + trail;
    if core == "" {
      assert s == lead + trail;
      LeadIs(s, |s|);
      TrimBlank("", "");
      assert s[|s|..] == "" + "";
    } else {
      assert s[|lead|] == core[0];
      LeadIs(s, |lead|);
      assert s[|lead|..] == core + trail;
      TrimBlank(core, trail);
    }
  }

  lemma PieceRead(p: Piece)
    requires GoodPiece(p)
    ensures Bare(PieceText(p)) == p.part && (Continues(PieceText(p)) <==> p.more)
  {
    hide TrimEnd, Lead, Body;
    var core := p.part + (if p.more then "\\" else "");
    BodyIs(p.lead, core, p.trail);
    if p.more {
      assert core[..|core| - 1] == p.part;
    } else {
      assert core == p.part;
    }
  }

  lemma FurtherRead(l: ValueLine)
    requires GoodLine(l)
    ensures IsComment(LineText(l)) <==> l.Remark?
    ensures Contribution(LineText(l)) ==
            if l.Remark? then "" else l.piece.part + (if l.piece.more then " " else "")
    ensures l.Further? ==> (Continues(LineText(l)) <==> l.piece.more)
  {
    hide TrimEnd, Lead, Body, Bare, Continues;
    match l
    case Remark(lead, text) =>
      var s := LineText(l);
      assert s[|lead|] == '#';
      LeadIs(s, |lead|);
    case Further(p) =>
      PieceRead(p);
      var core := p.part + (if p.more then "\\" else "");
      BodyIs(p.lead, core, p.trail);
      var s := PieceText(p);
      if core != "" {
        assert s[|p.lead|] == core[0];
      }
  }

  // The entry that an item leads to, its first line read.
  function Opened(before: string, b: Block): Entry
    requires b.Item?
  {
    Entry(before + b.leading, b.key, Behind(b))
  }

  lemma ColonFirst(gap: string, text: string)
    requires Blank(gap)
    ensures var b := gap + (":" + text);
            Lead(b) == |gap| && |gap| < |b| && b[|gap|] == ':' && b[|gap| + 1..] == text
  {
    var b := gap + (":" + text);
    assert b[|gap|] == ':';
    LeadIs(b, |gap|);
  }

  // The line of a key.
  lemma FirstLineRead(b: Block)
    requires b.Item? && GoodBlock(b)
    ensures var line := b.leading + b.key + Behind(b);
            && !IsComment(line) && Contribution(line) != "" && (Continues(line) <==> b.first.more)
            && ParseKeyLine(line) == Some(KeyLine(b.leading, b.key, Behind(b), b.first.part))
  {
    hide TrimEnd, Lead, Body, Bare, Continues, KeyLength, ParseKeyLine, IsComment, Contribution;
    ColonFirst(b.gap, PieceText(b.first));
    assert KeyParts(b.leading, b.key, Behind(b));
    ParseParts(b.leading, b.key, Behind(b));
    PieceRead(b.first);
    PartsAlike(b.leading, b.key, Behind(b));
    BehindEnds(b.gap, b.first);
  }

  lemma BehindEnds(gap: string, p: Piece)
    requires GoodPiece(p)
    ensures EndsInBackslash(TrimEnd(gap + (":" + PieceText(p)))) <==> p.more
  {
    hide TrimEnd;
    var core := p.part + (if p.more then "\\" else "");
    if core == "" {
      assert gap + (":" + PieceText(p)) == (gap + ":") + (p.lead + p.trail);
      TrimBlank(gap + ":", p.lead + p.trail);
    } else {
      var front := gap + ":" + p.lead + core;
      assert gap + (":" + PieceText(p)) == front + p.trail;
      assert front[|front| - 1] == core[|core| - 1];
      TrimBlank(front, p.trail);
    }
  }

  // ---------- One block ----------

  function ReadOn(keys: set<string>, r: Reader, lines: seq<string>): Reader
  {
    if lines == [] then r else ReadLine(keys, ReadOn(keys, r, lines[..|lines| - 1]), lines[|lines| - 1])
  }

  lemma {:induction false} ReadAppend(keys: set<string>, a: seq<string>, b: seq<string>)
    ensures ReadLines(keys, a + b) == ReadOn(keys, ReadLines(keys, a), b)
  {
    hide ReadLine;
    if b == [] {
      assert a + b == a;
    } else {
      var n := |b| - 1;
      assert (a + b)[..|a + b| - 1] == a + b[..n];
      ReadAppend(keys, a, b[..n]);
    }
  }

  // r with an item open whose value is v so far.
  function Within(keys: set<string>, r: Reader, b: Block, v: string, after: string): Reader
    requires b.Item?
  {
    var dup := if b.key in r.data then 1 else 0;
    if b.key in keys then
      Reader(r.done, Entry(r.cur.before + b.leading, b.key, after), Of(b.key), r.data[b.key := v], r.errors + dup)
    else Reader(r.done, Entry(r.cur.before + b.leading, b.key, after), Trash, r.data, r.errors + dup + 1)
  }

  lemma ReadFirst(keys: set<string>, r: Reader, b: Block)
    requires r.target == Nothing && b.Item? && GoodBlock(b)
    ensures var s := Within(keys, r, b, Value(b.first, []), Behind(b));
            ReadLine(keys, r, b.leading + b.key + Behind(b)) == if b.first.more then s else Closed(s)
  {
    hide ParseKeyLine, IsComment, Continues, Contribution, Behind;
    var line := b.leading + b.key + Behind(b);
    FirstLineRead(b);
    ReadOpen(keys, r, line);
    assert FirstPart(line, b.first.part) == Value(b.first, []) by {
      assert b.first.part + "" == b.first.part;
    }
  }

  // All the text behind the key, some further lines read.
  function After(b: Block, n: nat): string
    requires b.Item? && n <= |b.rest|
  {
    if n == 0 then Behind(b) else After(b, n - 1) + LineText(b.rest[n - 1])
  }

  lemma ReadFurther(keys: set<string>, r: Reader, b: Block, n: nat)
    requires b.Item? && n < |b.rest| && GoodLine(b.rest[n])
    ensures var s := Within(keys, r, b, Value(b.first, b.rest[..n]), After(b, n));
            var t := Within(keys, r, b, Value(b.first, b.rest[..n + 1]), After(b, n + 1));
            ReadLine(keys, s, LineText(b.rest[n])) == if GoesOn(b.rest[n]) then t else Closed(t)
  {
    hide ParseKeyLine, IsComment, Continues, Contribution, LineText, Behind;
    FurtherRead(b.rest[n]);
    assert b.rest[..n + 1][..n] == b.rest[..n];
  }

  lemma ItemLines(b: Block)
    requires b.Item?
    ensures var lines := BlockLines(b);
            && |lines| == |b.rest| + 1 && lines[0] == b.leading + b.key + Behind(b)
            && After(b, 0) == Behind(b)
            && forall i :: 0 <= i < |b.rest| ==> lines[i + 1] == LineText(b.rest[i])
  {
    hide LineText, Behind;
  }

  lemma {:induction false} ReadRest(keys: set<string>, r: Reader, b: Block, n: nat)
    requires r.target == Nothing && b.Item? && GoodBlock(b) && b.first.more && n <= |b.rest|
    requires forall i :: 0 <= i < n ==> GoesOn(b.rest[i])
    ensures ReadOn(keys, r, BlockLines(b)[..n + 1]) == Within(keys, r, b, Value(b.first, b.rest[..n]), After(b, n))
    decreases n
  {
    hide ReadLine, Value, Within, BlockLines, GoodLine, GoesOn, GoodPiece, LineText, Behind, After;
    ItemLines(b);
    var lines := BlockLines(b);
    if n == 0 {
      ReadFirst(keys, r, b);
      assert lines[..1][..0] == [];
    } else {
      ReadRest(keys, r, b, n - 1);
      ReadFurther(keys, r, b, n - 1);
      assert lines[..n + 1][..n] == lines[..n] && lines[n] == LineText(b.rest[n - 1]);
    }
  }

  lemma ReadItem(keys: set<string>, r: Reader, b: Block)
    requires r.target == Nothing && b.Item? && GoodBlock(b)
    ensures var s := Within(keys, r, b, Value(b.first, b.rest), After(b, |b.rest|));
            ReadOn(keys, r, BlockLines(b)) == if Finished(b) then Closed(s) else s
  {
    hide ReadLine, Value, Within, GoesOn;
    var lines, n := BlockLines(b), |b.rest|;
    assert lines[..n + 1] == lines && b.rest[..n] == b.rest;
    if !b.first.more {
      ReadFirst(keys, r, b);
      assert lines[..0] == [];
    } else if n == 0 || GoesOn(b.rest[n - 1]) {
      ReadRest(keys, r, b, n);
    } else {
      ReadRest(keys, r, b, n - 1);
      ReadFurther(keys, r, b, n - 1);
      assert lines[..n] == lines[..n - 1 + 1];
    }
  }

  lemma QuietRead(keys: set<string>, r: Reader, text: string)
    requires r.target == Nothing && (Blank(text) || IsComment(text))
    ensures ReadLine(keys, r, text) == Closed(Appended(r, text))
  {
    hide ParseKeyLine, TrimEnd;
    if !IsComment(text) {
      BodyIs(text, "", "");
      assert text + "" + "" == text;
    }
  }

  lemma NoteIsComment(lead: string, text: string)
    requires Blank(lead)
    ensures IsComment(lead + ("#" + text))
  {
    var s := lead + ("#" + text);
    assert s[|lead|] == '#';
    LeadIs(s, |lead|);
  }

  lemma KeyThere(text: string)
    requires ParseKeyLine(text).Some?
    ensures StartsWithKey(text)
  {
    hide Bare, KeyLength, Lead, ParseKeyLine;
    KeyLineNamed(text);
    KeyLineParts(text);
    var k := ParseKeyLine(text).value;
    var n := Lead(k.trailing);
    assert k.trailing == k.trailing[..n] + (":" + k.trailing[n + 1..]);
    assert text == k.leading + k.key + (k.trailing[..n] + (":" + k.trailing[n + 1..]));
    assert Blank(k.leading) && Blank(k.trailing[..n]);
  }

  lemma WrongRead(keys: set<string>, r: Reader, text: string)
    requires r.target == Nothing && GoodBlock(Wrong(text))
    ensures var s := Appended(r, text).(errors := r.errors + 1);
            ReadLine(keys, r, text) == if Continues(text) then s else Closed(s)
  {
    hide ParseKeyLine;
    if ParseKeyLine(text).Some? {
      KeyThere(text);
    }
    var i :| 0 <= i < |text| && Blank(text[..i]) && !IsSpace(text[i]) && text[i] != '#';
    forall j | 0 <= j < i
      ensures IsSpace(text[j])
    {
      assert text[..i][j] == text[j];
    }
    LeadIs(text, i);
    assert Body(text) != "" by {
      TrimKeeps("", text[i..]);
      LeadIs(text[i..], 0);
      assert "" + text[i..] == text[i..];
    }
  }

  // ---------- The whole file ----------

  // What has been read says what the blocks say.
  ghost predicate Says(keys: set<string>, blocks: seq<Block>, r: Reader)
  {
    && r.errors == Mistakes(keys, blocks)
    && (r.target == Nothing <==> blocks == [] || Finished(blocks[|blocks| - 1]))
    && (forall k :: k in r.data <==> k in keys && HasKey(blocks, k))
    && (forall i :: 0 <= i < |blocks| && LastFor(blocks, i) && blocks[i].key in keys ==>
          blocks[i].key in r.data && r.data[blocks[i].key] == Value(blocks[i].first, blocks[i].rest))
  }

  lemma ReadBlock(keys: set<string>, r: Reader, b: Block)
    requires r.target == Nothing && GoodBlock(b)
    ensures var s := ReadOn(keys, r, BlockLines(b));
            && (s.target == Nothing <==> Finished(b))
            && s.data == (if b.Item? && b.key in keys then r.data[b.key := Value(b.first, b.rest)] else r.data)
            && s.errors == r.errors + (if b.Wrong? then 1 else 0)
                 + (if b.Item? && b.key !in keys then 1 else 0) + (if b.Item? && b.key in r.data then 1 else 0)
  {
    hide ReadLine, Value, IsComment, Continues, LineText, Behind, After;
    match b
    case Item(_, _, _, _, _) => ReadItem(keys, r, b);
    case Empty(text) => OneLine(keys, r, text); QuietRead(keys, r, text);
    case Note(lead, text) =>
      NoteIsComment(lead, text);
      OneLine(keys, r, lead + ("#" + text));
      QuietRead(keys, r, lead + ("#" + text));
    case Wrong(text) => OneLine(keys, r, text); WrongRead(keys, r, text);
  }

  lemma OneLine(keys: set<string>, r: Reader, line: string)
    ensures ReadOn(keys, r, [line]) == ReadLine(keys, r, line)
  {
    hide ReadLine;
    assert [line][..0] == [];
  }

  lemma SaysMore(keys: set<string>, blocks: seq<Block>, r: Reader, s: Reader)
    requires blocks != [] && GoodFile(blocks)
    requires Says(keys, blocks[..|blocks| - 1], r)
    requires var b := blocks[|blocks| - 1];
             && (s.target == Nothing <==> Finished(b))
             && s.data == (if b.Item? && b.key in keys then r.data[b.key := Value(b.first, b.rest)] else r.data)
             && s.errors == r.errors + (if b.Wrong? then 1 else 0)
                  + (if b.Item? && b.key !in keys then 1 else 0) + (if b.Item? && b.key in r.data then 1 else 0)
    ensures Says(keys, blocks, s)
  {
    hide Value, Finished, GoodBlock, HasKey;
    var n := |blocks| - 1;
    var before, b := blocks[..n], blocks[n];
    KeysMore(blocks);
    forall i | 0 <= i < |blocks| && LastFor(blocks, i) && blocks[i].key in keys
      ensures blocks[i].key in s.data && s.data[blocks[i].key] == Value(blocks[i].first, blocks[i].rest)
    {
      if i < n {
        assert LastFor(before, i);
      }
    }
  }

  lemma KeysMore(blocks: seq<Block>)
    requires blocks != []
    ensures var n := |blocks| - 1;
            forall k :: HasKey(blocks, k) <==>
                        HasKey(blocks[..n], k) || (blocks[n].Item? && blocks[n].key == k)
  {
    var n := |blocks| - 1;
    forall k
      ensures HasKey(blocks, k) <==> HasKey(blocks[..n], k) || (blocks[n].Item? && blocks[n].key == k)
    {
      if i :| 0 <= i < n && blocks[..n][i].Item? && blocks[..n][i].key == k {
        assert blocks[i] == blocks[..n][i];
      }
      if i :| 0 <= i < |blocks| && blocks[i].Item? && blocks[i].key == k {
        assert i < n ==> blocks[..n][i] == blocks[i];
      }
    }
  }

  lemma {:induction false} ReadBlocks(keys: set<string>, blocks: seq<Block>)
    requires GoodFile(blocks)
    ensures Says(keys, blocks, ReadLines(keys, FileLines(blocks)))
  {
    hide ReadLine, Says, GoodBlock, Finished, BlockLines;
    if blocks == [] {
      NothingSaid(keys);
    } else {
      var n := |blocks| - 1;
      ReadBlocks(keys, blocks[..n]);
      var r := ReadLines(keys, FileLines(blocks[..n]));
      TargetOpen(keys, blocks[..n], r);
      ReadBlock(keys, r, blocks[n]);
      ReadAppend(keys, FileLines(blocks[..n]), BlockLines(blocks[n]));
      SaysMore(keys, blocks, r, ReadOn(keys, r, BlockLines(blocks[n])));
    }
  }

  lemma NothingSaid(keys: set<string>)
    ensures Says(keys, [], BEGIN)
  {
  }

  lemma TargetOpen(keys: set<string>, blocks: seq<Block>, r: Reader)
    requires Says(keys, blocks, r) && forall i :: 0 <= i < |blocks| ==> Finished(blocks[i])
    ensures r.target == Nothing
  {
  }

  // Reading a spelled file yields for each known key that has an item the value of its last
  // item, counts its mistakes, and finds out whether its last value is unfinished.
  lemma SpelledFileRead(keys: set<string>, blocks: seq<Block>)
    requires GoodFile(blocks) && Splittable(FileLines(blocks))
    ensures var r := ReadLines(keys, Lines(Joined(FileLines(blocks))));
            && (forall k :: k in r.data <==> k in keys && HasKey(blocks, k))
            && (forall i :: 0 <= i < |blocks| && LastFor(blocks, i) && blocks[i].key in keys ==>
                  r.data[blocks[i].key] == Value(blocks[i].first, blocks[i].rest))
            && r.errors == Mistakes(keys, blocks)
            && (ReadsWell(r) <==>
                  Mistakes(keys, blocks) == 0 && (blocks == [] || Finished(blocks[|blocks| - 1])))
  {
    hide GoodFile, Finished, FileLines, Value, Joined, Lines;
    LinesOfJoined(FileLines(blocks));
    ReadBlocks(keys, blocks);
  }

  // ---------- What is written ----------

  function Eol(text: string): string
  {
    if |text| >= 2 && text[|text| - 2..] == "\r\n" then "\r\n"
    else if |text| >= 1 && text[|text| - 1..] == "\n" then "\n" else ""
  }

  lemma EolIs(text: string)
    ensures LineEnd(text) == Eol(text)
  {
    if |text| >= 2 {
      assert text[|text| - 2..] == [text[|text| - 2], text[|text| - 1]];
    }
  }

  // All the text of a block that is no item.
  function Plainly(b: Block): string
    requires !b.Item?
  {
    if b.Note? then b.lead + ("#" + b.text) else b.text
  }

  // What comes out for a block: nothing for a deleted key; the replacement, with the last line end
  // of the item, for a replaced one; the item under its new key, or as it was.
  function Output(e: Edits, b: Block): string
  {
    if !b.Item? then Plainly(b)
    else
      var behind := After(b, |b.rest|);
      if b.key in e.deletions then ""
      else if b.key in e.replacements then b.leading + e.replacements[b.key] + Eol(behind)
      else if b.key in e.changes then b.leading + e.changes[b.key] + behind
      else b.leading + b.key + behind
  }

  function Outputs(e: Edits, blocks: seq<Block>): (r: seq<string>)
    ensures |r| == |blocks|
    ensures forall i :: 0 <= i < |r| ==> r[i] == Output(e, blocks[i])
  {
    seq(|blocks|, i requires 0 <= i < |blocks| => Output(e, blocks[i]))
  }

  // Lines that are wrong do not end in a backslash.
  predicate WrongAlone(blocks: seq<Block>)
  {
    forall i :: 0 <= i < |blocks| && blocks[i].Wrong? ==> !Continues(blocks[i].text)
  }

  // What the entries read so far are written as.
  ghost predicate Puts(e: Edits, blocks: seq<Block>, r: Reader)
  {
    && WriteEntries(e, Entries(r)) == Joined(Outputs(e, blocks))
    && (blocks == [] || Finished(blocks[|blocks| - 1]) ==> r.target == Nothing && r.cur == FRESH)
  }

  lemma PutEntry(e: Edits, r: Reader, b: Block, od: Entry, s: Reader)
    requires r.cur == FRESH && ((s.done == r.done + [od] && s.cur == FRESH) || (s.done == r.done && s.cur == od))
    ensures WriteEntries(e, Entries(s)) == WriteEntries(e, Entries(r)) + WriteEntry(e, od)
  {
    hide WriteEntry, WriteEntries;
    WritePush(e, r.done, r.cur);
    WritePush(e, r.done, od);
    WritePush(e, s.done, s.cur);
    FreshWrites(e);
    assert WriteEntries(e, Entries(r)) + "" == WriteEntries(e, Entries(r));
    assert WriteEntries(e, r.done) + "" == WriteEntries(e, r.done);
  }

  lemma FreshWrites(e: Edits)
    ensures WriteEntry(e, FRESH) == ""
  {
  }

  lemma ItemOutput(e: Edits, b: Block)
    requires b.Item? && GoodBlock(b)
    ensures WriteEntry(e, Entry(b.leading, b.key, After(b, |b.rest|))) == Output(e, b)
  {
    hide After, Eol, LineEnd;
    EolIs(After(b, |b.rest|));
  }

  lemma PlainOutput(e: Edits, text: string)
    ensures WriteEntry(e, Entry(text, "", "")) == text
  {
    assert text + "" + "" == text;
  }

  lemma PutItem(e: Edits, keys: set<string>, r: Reader, b: Block)
    requires r.target == Nothing && r.cur == FRESH && b.Item? && GoodBlock(b)
    ensures var s := ReadOn(keys, r, BlockLines(b));
            && WriteEntries(e, Entries(s)) == WriteEntries(e, Entries(r)) + Output(e, b)
            && (Finished(b) ==> s.target == Nothing && s.cur == FRESH)
  {
    hide ReadOn, BlockLines, WriteEntries, WriteEntry, Value, Finished, After, GoodBlock, Output;
    ReadItem(keys, r, b);
    ItemOutput(e, b);
    assert "" + b.leading == b.leading;
    PutEntry(e, r, b, Entry(b.leading, b.key, After(b, |b.rest|)), ReadOn(keys, r, BlockLines(b)));
  }

  lemma PutPlain(e: Edits, keys: set<string>, r: Reader, b: Block)
    requires r.target == Nothing && r.cur == FRESH && !b.Item? && GoodBlock(b)
    requires b.Wrong? ==> !Continues(b.text)
    ensures var s := ReadOn(keys, r, BlockLines(b));
            && WriteEntries(e, Entries(s)) == WriteEntries(e, Entries(r)) + Output(e, b)
            && s.target == Nothing && s.cur == FRESH
  {
    hide ReadLine, WriteEntries, WriteEntry, IsComment, Continues;
    var text := Plainly(b);
    OneLine(keys, r, text);
    match b {
      case Empty(_) => QuietRead(keys, r, text);
      case Note(lead, more) =>
        NoteIsComment(lead, more);
        QuietRead(keys, r, text);
      case Wrong(_) => WrongRead(keys, r, text);
    }
    assert "" + text == text;
    PlainOutput(e, text);
    PutEntry(e, r, b, Entry(text, "", ""), ReadLine(keys, r, text));
  }

  lemma {:induction false} BlocksPut(e: Edits, keys: set<string>, blocks: seq<Block>)
    requires GoodFile(blocks) && WrongAlone(blocks)
    ensures Puts(e, blocks, ReadLines(keys, FileLines(blocks)))
  {
    hide ReadLine, GoodBlock, Finished, BlockLines, WriteEntries, Output, ReadOn;
    if blocks == [] {
      NothingPut(e);
    } else {
      var n := |blocks| - 1;
      BlocksPut(e, keys, blocks[..n]);
      var r := ReadLines(keys, FileLines(blocks[..n]));
      ReadAppend(keys, FileLines(blocks[..n]), BlockLines(blocks[n]));
      assert Outputs(e, blocks)[..n] == Outputs(e, blocks[..n]);
      if blocks[n].Item? {
        PutItem(e, keys, r, blocks[n]);
      } else {
        PutPlain(e, keys, r, blocks[n]);
      }
    }
  }

  lemma NothingPut(e: Edits)
    ensures Puts(e, [], BEGIN)
  {
    assert Entries(BEGIN) == [] + [FRESH];
    WritePush(e, [], FRESH);
  }

  // Writing a spelled file with edits yields its blocks one after the other, each with its edit.
  lemma SpelledFileWritten(e: Edits, keys: set<string>, blocks: seq<Block>)
    requires GoodFile(blocks) && Splittable(FileLines(blocks)) && WrongAlone(blocks)
    ensures var r := ReadLines(keys, Lines(Joined(FileLines(blocks))));
            WriteEntries(e, Entries(r)) == Joined(Outputs(e, blocks))
  {
    hide GoodFile, FileLines, Joined, Lines, WriteEntries, WrongAlone, Outputs;
    LinesOfJoined(FileLines(blocks));
    BlocksPut(e, keys, blocks);
  }

  // Additions come first, a line each.
  lemma {:induction false} AdditionsAreLines(eol: string, additions: seq<string>)
    ensures Additions(eol, additions) ==
            Joined(seq(|additions|, i requires 0 <= i < |additions| => additions[i] + eol))
  {
    var lines := seq(|additions|, i requires 0 <= i < |additions| => additions[i] + eol);
    if additions != [] {
      var n := |additions| - 1;
      AdditionsAreLines(eol, additions[..n]);
      assert lines[..n] == seq(n, i requires 0 <= i < n => additions[..n][i] + eol);
      var before := Joined(lines[..n]);
      assert before + additions[n] + eol == before + (additions[n] + eol);
    }
  }
}
