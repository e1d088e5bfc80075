// What the frames of a connection lead to, told from the frames and the requests that wait
// at its start (src/JavaBuilder.cc).
module FrameEffects {
  import opened Text
  import opened Wire

  // ---------- Lines ----------

  // (\d+) (true|false)\r?
  ghost predicate IsResponseText(line: string, d: string, ok: bool, cr: string)
  {
    IsNumber(d) && line == d + (if ok then " true" else " false") + cr && cr in {"", "\r"}
  }

  // (\d+) data:(out|err) (\d+)\r?
  ghost predicate IsDataText(line: string, d: string, isErr: bool, l: string, cr: string)
  {
    && IsNumber(d) && IsNumber(l) && cr in {"", "\r"}
    && line == d + (if isErr then " data:err " else " data:out ") + l + cr
  }

  lemma WithoutCrOf(s: string, cr: string)
    requires s != "" && s[|s| - 1] != '\r' && cr in {"", "\r"}
    ensures WithoutCr(s + cr) == s
  {
    assert cr == "" ==> s + cr == s;
    assert (s + cr)[..|s|] == s;
  }

  lemma CrSplit(line: string) returns (cr: string)
    ensures cr in {"", "\r"} && line == WithoutCr(line) + cr
  {
    cr := if WithoutCr(line) == line then "" else "\r";
  }

  lemma NumberThenSpace(d: string, rest: string)
    requires IsNumber(d)
    ensures var s := d + " " + rest;
            Find(' ', s) == |d| && s[..|d|] == d && s[|d| + 1..] == rest
  {
    var s := d + " " + rest;
    assert s[..|d|] == d;
    forall i | 0 <= i < |d|
      ensures d[i] != ' '
    {
      assert IsDigit(d[i]);
    }
    FindFirst(' ', s, |d|);
  }

  lemma KeepsNoCr(d: string)
    requires IsNumber(d)
    ensures d != "" && d[|d| - 1] != '\r'
  {
    assert IsDigit(d[|d| - 1]);
  }

  lemma ResponseLineOf(d: string, ok: bool, cr: string)
    requires IsNumber(d) && cr in {"", "\r"}
    ensures ParseLine(d + (if ok then " true" else " false") + cr) == ResponseLine(NumberOf(d), ok)
  {
    hide Find, NumberOf, IsNumber;
    var v := if ok then "true" else "false";
    var s := d + " " + v;
    assert d + (if ok then " true" else " false") + cr == s + cr;
    assert s[|s| - 1] == 'e';
    NumberThenSpace(d, v);
    assert |"true"| != |"false"|;
    WithoutCrOf(s, cr);
  }

  lemma ResponseLineIs(line: string, n: nat, ok: bool)
    requires ParseLine(line) == ResponseLine(n, ok)
    ensures exists d, cr :: IsResponseText(line, d, ok, cr) && NumberOf(d) == n
  {
    hide NumberOf, IsNumber;
    var s := WithoutCr(line);
    var cr := CrSplit(line);
    var p := Find(' ', s);
    assert s == s[..p] + (if ok then " true" else " false");
    assert IsResponseText(line, s[..p], ok, cr);
  }

  // A line answers a request exactly if it is its number in digits, a space and "true" or "false".
  lemma ResponseLineExact(line: string, n: nat, ok: bool)
    ensures ParseLine(line) == ResponseLine(n, ok) <==>
            exists d, cr :: IsResponseText(line, d, ok, cr) && NumberOf(d) == n
  {
    hide ParseLine, NumberOf;
    if ParseLine(line) == ResponseLine(n, ok) {
      ResponseLineIs(line, n, ok);
    }
    if d, cr :| IsResponseText(line, d, ok, cr) && NumberOf(d) == n {
      ResponseLineOf(d, ok, cr);
    }
  }

  lemma DataLineOf(d: string, isErr: bool, l: string, cr: string)
    requires IsNumber(d) && IsNumber(l) && cr in {"", "\r"}
    ensures ParseLine(d + (if isErr then " data:err " else " data:out ") + l + cr) ==
            DataLine(NumberOf(d), isErr, NumberOf(l))
  {
    hide Find, NumberOf, IsNumber, ParseLine;
    var kind := if isErr then "data:err " else "data:out ";
    KeepsNoCr(l);
    var s := d + " " + (kind + l);
    Spaced(d, kind, l, cr);
    assert " data:err " == " " + "data:err " && " data:out " == " " + "data:out ";
    NumberThenSpace(d, kind + l);
    assert "data:out "[5] != "data:err "[5];
    DataLineParses(s, |d|);
    Cut(s, cr);
  }

  lemma Spaced(d: string, kind: string, l: string, cr: string)
    requires l != ""
    ensures var s, p := d + " " + (kind + l), |d| + 1;
            && d + (" " + kind) + l + cr == s + cr
            && |s| == p + |kind| + |l| && s[|s| - 1] == l[|l| - 1]
            && s[p..p + |kind|] == kind && s[p + |kind|..] == l
  {
  }

  lemma Cut(s: string, cr: string)
    requires s != "" && s[|s| - 1] != '\r' && cr in {"", "\r"}
    ensures ParseLine(s + cr) == ParseLine(s)
  {
    assert s + "" == s;
    ParseEnded(s, cr != "");
  }

  lemma DataLineParts(line: string, n: nat, isErr: bool, length: nat) returns (p: nat)
    requires ParseLine(line) == DataLine(n, isErr, length)
    ensures var s := WithoutCr(line);
            && p < |s| && s[p] == ' ' && IsNumber(s[..p]) && NumberOf(s[..p]) == n
            && var rest := s[p + 1..];
            && |rest| > 9 && rest[..9] == (if isErr then "data:err " else "data:out ")
            && IsNumber(rest[9..]) && NumberOf(rest[9..]) == length
  {
    hide NumberOf, IsNumber;
    p := Find(' ', WithoutCr(line));
  }

  lemma DataLineIs(line: string, n: nat, isErr: bool, length: nat)
    requires ParseLine(line) == DataLine(n, isErr, length)
    ensures exists d, l, cr :: IsDataText(line, d, isErr, l, cr) && NumberOf(d) == n && NumberOf(l) == length
  {
    hide NumberOf, IsNumber, ParseLine, WithoutCr;
    var s := WithoutCr(line);
    var cr := CrSplit(line);
    var p := DataLineParts(line, n, isErr, length);
    var rest := s[p + 1..];
    Reassemble(s, p, isErr);
    assert IsDataText(line, s[..p], isErr, rest[9..], cr);
  }

  lemma Reassemble(s: string, p: nat, isErr: bool)
    requires p < |s| && s[p] == ' ' && |s| >= p + 10
    requires s[p + 1..][..9] == (if isErr then "data:err " else "data:out ")
    ensures s == s[..p] + (if isErr then " data:err " else " data:out ") + s[p + 1..][9..]
  {
    var full := if isErr then " data:err " else " data:out ";
    Parts(s, p, s[p + 1..][..9], full);
  }

  lemma Parts(s: string, p: nat, kind: string, full: string)
    requires p < |s| && s[p] == ' ' && |s| >= p + 10 && s[p + 1..][..9] == kind
    requires |full| == 10 && full[0] == ' ' && full[1..] == kind
    ensures s == s[..p] + full + s[p + 1..][9..]
  {
    var t := s[p + 1..];
    assert t == kind + t[9..];
    assert s[p..] == full + t[9..] by {
      assert forall i :: 0 < i < |s| - p ==> s[p..][i] == t[i - 1];
    }
    assert s == s[..p] + s[p..];
  }

  // A line announces output exactly if it has the number of the request, the channel and the length.
  lemma DataLineExact(line: string, n: nat, isErr: bool, length: nat)
    ensures ParseLine(line) == DataLine(n, isErr, length) <==>
            exists d, l, cr :: IsDataText(line, d, isErr, l, cr) && NumberOf(d) == n && NumberOf(l) == length
  {
    hide ParseLine, NumberOf;
    if ParseLine(line) == DataLine(n, isErr, length) {
      DataLineIs(line, n, isErr, length);
    }
    if d, l, cr :| IsDataText(line, d, isErr, l, cr) && NumberOf(d) == n && NumberOf(l) == length {
      DataLineOf(d, isErr, l, cr);
    }
  }

  // The line neither answers a request nor, when output is captured, announces any.
  ghost predicate IsForeign(capture: bool, line: string)
  {
    && (forall d, ok, cr :: !IsResponseText(line, d, ok, cr))
    && (capture ==> forall d, isErr, l, cr :: !IsDataText(line, d, isErr, l, cr))
  }

  lemma ForeignNeither(capture: bool, line: string)
    requires forall n, ok :: ParseLine(line) == ResponseLine(n, ok) <==>
               exists d, cr :: IsResponseText(line, d, ok, cr) && NumberOf(d) == n
    requires forall n, isErr, length :: ParseLine(line) == DataLine(n, isErr, length) <==>
               exists d, l, cr :: IsDataText(line, d, isErr, l, cr) && NumberOf(d) == n && NumberOf(l) == length
    ensures IsForeign(capture, line) <==>
            ParseLine(line).OtherLine? || (!capture && ParseLine(line).DataLine?)
  {
    hide ParseLine, NumberOf;
    if d, ok, cr :| IsResponseText(line, d, ok, cr) {
      assert ParseLine(line) == ResponseLine(NumberOf(d), ok);
    }
    if d, isErr, l, cr :| IsDataText(line, d, isErr, l, cr) {
      assert ParseLine(line) == DataLine(NumberOf(d), isErr, NumberOf(l));
    }
    match ParseLine(line)
    case ResponseLine(n, ok) => assert ParseLine(line) == ResponseLine(n, ok);
    case DataLine(n, isErr, length) => assert ParseLine(line) == DataLine(n, isErr, length);
    case OtherLine =>
  }

  // A complete line breaks the connection at once exactly if it is foreign.
  lemma ForeignLineExact(capture: bool, line: string, rest: string)
    requires '\n' !in line
    ensures NextStep(capture, line + "\n" + rest).Bad? <==> IsForeign(capture, line)
  {
    hide ParseLine, Find, NumberOf, LineEnd;
    var acc := line + "\n" + rest;
    assert acc[..|line|] == line;
    FindFirst('\n', acc, |line|);
    forall n, ok
      ensures ParseLine(line) == ResponseLine(n, ok) <==>
              exists d, cr :: IsResponseText(line, d, ok, cr) && NumberOf(d) == n
    {
      ResponseLineExact(line, n, ok);
    }
    forall n, isErr, length
      ensures ParseLine(line) == DataLine(n, isErr, length) <==>
              exists d, l, cr :: IsDataText(line, d, isErr, l, cr) && NumberOf(d) == n && NumberOf(l) == length
    {
      DataLineExact(line, n, isErr, length);
    }
    ForeignNeither(capture, line);
  }

  lemma ForeignLineBreaks(capture: bool, c: Connection, line: string, rest: string)
    requires c.acc == "" && !c.broken && '\n' !in line && IsForeign(capture, line)
    ensures var r := Receive(capture, c, line + "\n" + rest);
            r.broken && r.delivered == c.delivered && r.jobs == c.jobs
  {
    hide NextStep, IsForeign;
    ForeignLineExact(capture, line, rest);
    assert c.acc + (line + "\n" + rest) == line + "\n" + rest;
  }

  // ---------- Frames ----------

  // Request n still waits for its answer when frame i arrives.
  ghost predicate WaitsAt(jobs: set<nat>, frames: seq<Frame>, i: nat, n: nat)
    requires i <= |frames|
  {
    n in jobs && forall j :: 0 <= j < i ==> !(frames[j].Response? && frames[j].request == n)
  }

  // Frame i is for a request that waits, or is output of no request.
  ghost predicate Expected(jobs: set<nat>, frames: seq<Frame>, i: nat)
    requires i < |frames|
  {
    WaitsAt(jobs, frames, i, frames[i].request) || (frames[i].Data? && frames[i].request == 0)
  }

  // What was sent and what was delivered.
  ghost predicate Arrives(f: Frame, d: Delivery)
  {
    || (f.Response? && d.Respond? && d.request == f.request && d.ok == f.ok)
    || (f.Data? && f.request != 0 && d.Output? && d.request == f.request && d.isErr == f.isErr && d.text == f.text)
    || (f.Data? && f.request == 0 && d.Rogue? && d.isErr == f.isErr && d.text == f.text)
  }

  // k is the number of frames before the first that is not expected.
  ghost predicate FirstStray(jobs: set<nat>, frames: seq<Frame>, k: nat)
  {
    k <= |frames| && (forall i :: 0 <= i < k ==> Expected(jobs, frames, i))
    && (k < |frames| ==> !Expected(jobs, frames, k))
  }

  lemma Later(jobs: set<nat>, jobs': set<nat>, frames: seq<Frame>, i: nat, n: nat)
    requires frames != [] && i < |frames|
    requires forall m :: m in jobs' <==> m in jobs && !(frames[0].Response? && frames[0].request == m)
    ensures WaitsAt(jobs, frames, i + 1, n) <==> WaitsAt(jobs', frames[1..], i, n)
  {
    assert WaitsAt(jobs, frames, i + 1, n) ==> forall j :: 0 <= j < i ==> frames[1..][j] == frames[j + 1];
    if WaitsAt(jobs', frames[1..], i, n) {
      forall j | 0 <= j < i + 1
        ensures !(frames[j].Response? && frames[j].request == n)
      {
        assert j > 0 ==> frames[j] == frames[1..][j - 1];
      }
    }
  }

  lemma StrayLater(jobs: set<nat>, jobs': set<nat>, frames: seq<Frame>, k: nat)
    requires frames != [] && k > 0 && FirstStray(jobs, frames, k)
    requires forall m :: m in jobs' <==> m in jobs && !(frames[0].Response? && frames[0].request == m)
    ensures FirstStray(jobs', frames[1..], k - 1)
  {
    hide WaitsAt;
    forall i | 0 <= i < |frames| - 1
      ensures Expected(jobs', frames[1..], i) <==> Expected(jobs, frames, i + 1)
    {
      Later(jobs, jobs', frames, i, frames[i + 1].request);
    }
  }

  // r is what is left of c when the first k frames have taken effect: they have been delivered
  // in order, each as it was sent, and the connection is broken if another one comes.
  ghost predicate IsEffect(c: Connection, frames: seq<Frame>, k: nat, r: Connection)
    requires k <= |frames|
  {
    && (r.broken <==> k < |frames|)
    && |r.delivered| == |c.delivered| + k && r.delivered[..|c.delivered|] == c.delivered
    && (forall i :: 0 <= i < k ==> Arrives(frames[i], r.delivered[|c.delivered| + i]))
    && (forall n :: n in r.jobs <==> WaitsAt(c.jobs, frames, k, n))
  }

  lemma DeliverExpected(c: Connection, f: Frame)
    requires !c.broken && Expected(c.jobs, [f], 0)
    ensures var d := Deliver(c, f);
            && !d.broken && |d.delivered| == |c.delivered| + 1 && d.delivered[..|c.delivered|] == c.delivered
            && Arrives(f, d.delivered[|c.delivered|])
            && forall m :: m in d.jobs <==> m in c.jobs && !(f.Response? && f.request == m)
  {
  }

  lemma EffectLater(c: Connection, d: Connection, frames: seq<Frame>, k: nat, r: Connection)
    requires frames != [] && 0 < k <= |frames| && IsEffect(d, frames[1..], k - 1, r)
    requires |d.delivered| == |c.delivered| + 1 && d.delivered[..|c.delivered|] == c.delivered
    requires Arrives(frames[0], d.delivered[|c.delivered|])
    requires forall m :: m in d.jobs <==> m in c.jobs && !(frames[0].Response? && frames[0].request == m)
    ensures IsEffect(c, frames, k, r)
  {
    hide WaitsAt, Arrives;
    var n := |c.delivered|;
    assert r.delivered[..n] == r.delivered[..n + 1][..n];
    assert r.delivered[n] == r.delivered[..n + 1][n];
    forall i | 0 <= i < k
      ensures Arrives(frames[i], r.delivered[n + i])
    {
      if i > 0 {
        assert frames[i] == frames[1..][i - 1] && r.delivered[n + i] == r.delivered[n + 1 + (i - 1)];
      }
    }
    forall m: nat
      ensures m in r.jobs <==> WaitsAt(c.jobs, frames, k, m)
    {
      Later(c.jobs, d.jobs, frames, k - 1, m);
    }
  }

  lemma {:induction false} DeliverAllEffect(c: Connection, frames: seq<Frame>, k: nat)
    requires !c.broken && FirstStray(c.jobs, frames, k)
    ensures IsEffect(c, frames, k, DeliverAll(c, frames))
    decreases |frames|
  {
    if frames == [] {
    } else if k == 0 {
      var d := Deliver(c, frames[0]);
      assert !Expected(c.jobs, frames, 0);
      assert DeliverAll(c, frames) == DeliverAll(d, frames[1..]) == d;
    } else {
      hide WaitsAt, FirstStray, Arrives, IsEffect, Deliver;
      ExpectedFirst(c.jobs, frames, k);
      DeliverExpected(c, frames[0]);
      var d := Deliver(c, frames[0]);
      StrayLater(c.jobs, d.jobs, frames, k);
      DeliverAllEffect(d, frames[1..], k - 1);
      EffectLater(c, d, frames, k, DeliverAll(d, frames[1..]));
    }
  }

  lemma ExpectedFirst(jobs: set<nat>, frames: seq<Frame>, k: nat)
    requires k > 0 && FirstStray(jobs, frames, k)
    ensures frames != [] && Expected(jobs, [frames[0]], 0)
  {
    assert Expected(jobs, frames, 0);
  }

  lemma {:induction false} FindStray(jobs: set<nat>, frames: seq<Frame>, from: nat) returns (k: nat)
    requires from <= |frames| && forall i :: 0 <= i < from ==> Expected(jobs, frames, i)
    ensures FirstStray(jobs, frames, k)
    decreases |frames| - from
  {
    hide Expected;
    if from < |frames| && Expected(jobs, frames, from) {
      k := FindStray(jobs, frames, from + 1);
    } else {
      k := from;
    }
  }

  // The texts sent and delivered for a request on a channel, in order.
  function SentTexts(frames: seq<Frame>, n: nat, isErr: bool): seq<string>
  {
    if frames == [] then []
    else
      var f := frames[|frames| - 1];
      SentTexts(frames[..|frames| - 1], n, isErr)
      + (if f.Data? && f.request == n && f.isErr == isErr then [f.text] else [])
  }

  function OutputTexts(delivered: seq<Delivery>, n: nat, isErr: bool): seq<string>
  {
    if delivered == [] then []
    else
      var d := delivered[|delivered| - 1];
      OutputTexts(delivered[..|delivered| - 1], n, isErr)
      + (if d.Output? && d.request == n && d.isErr == isErr then [d.text] else [])
  }

  function RogueTexts(delivered: seq<Delivery>, isErr: bool): seq<string>
  {
    if delivered == [] then []
    else
      var d := delivered[|delivered| - 1];
      RogueTexts(delivered[..|delivered| - 1], isErr) + (if d.Rogue? && d.isErr == isErr then [d.text] else [])
  }

  lemma {:induction false} TextsArrive(frames: seq<Frame>, delivered: seq<Delivery>, n: nat, isErr: bool)
    requires |delivered| == |frames| && forall i :: 0 <= i < |frames| ==> Arrives(frames[i], delivered[i])
    ensures n != 0 ==> OutputTexts(delivered, n, isErr) == SentTexts(frames, n, isErr)
    ensures RogueTexts(delivered, isErr) == SentTexts(frames, 0, isErr)
  {
    if frames != [] {
      var k := |frames| - 1;
      TextsArrive(frames[..k], delivered[..k], n, isErr);
      assert Arrives(frames[k], delivered[k]);
    }
  }

  lemma AnswersArrive(frames: seq<Frame>, delivered: seq<Delivery>, n: nat, ok: bool)
    requires |delivered| == |frames| && forall i :: 0 <= i < |frames| ==> Arrives(frames[i], delivered[i])
    ensures Respond(n, ok) in delivered <==> Response(n, ok) in frames
  {
    if i :| 0 <= i < |frames| && frames[i] == Response(n, ok) {
      assert Arrives(frames[i], delivered[i]);
    }
    if i :| 0 <= i < |frames| && delivered[i] == Respond(n, ok) {
      assert Arrives(frames[i], delivered[i]);
    }
  }

  // The frames before the first one for a request that does not wait are delivered, each as it
  // was sent: the texts for a request on a channel in the order in which they were sent, output of
  // no request likewise, and the answers. The connection breaks exactly if there is such a frame.
  lemma FramesTakeEffect(
      capture: bool, c: Connection, frames: seq<Frame>, crs: seq<(bool, bool)>, chunks: seq<string>) returns (k: nat)
    requires c.acc == "" && !c.broken
    requires |crs| == |frames| && Concat(chunks) == EncodeAll(frames, crs)
    requires forall f :: f in frames ==> Sendable(capture, f)
    ensures FirstStray(c.jobs, frames, k)
    ensures var r := ReceiveAll(capture, c, chunks);
            && IsEffect(c, frames, k, r)
            && (r.broken <==> exists i :: 0 <= i < |frames| && !Expected(c.jobs, frames, i))
            && var arrived := r.delivered[|c.delivered|..];
            && (forall n, isErr :: n != 0 ==> OutputTexts(arrived, n, isErr) == SentTexts(frames[..k], n, isErr))
            && (forall isErr :: RogueTexts(arrived, isErr) == SentTexts(frames[..k], 0, isErr))
            && (forall n, ok :: Respond(n, ok) in arrived <==> Response(n, ok) in frames[..k])
  {
    hide Expected, ReceiveAll, DeliverAll, EncodeAll, Concat;
    k := FindStray(c.jobs, frames, 0);
    DeliverAllEffect(c, frames, k);
    FramesArrive(capture, c, frames, crs, chunks);
    var r := ReceiveAll(capture, c, chunks);
    var arrived := r.delivered[|c.delivered|..];
    forall n: nat, isErr: bool
      ensures n != 0 ==> OutputTexts(arrived, n, isErr) == SentTexts(frames[..k], n, isErr)
      ensures RogueTexts(arrived, isErr) == SentTexts(frames[..k], 0, isErr)
    {
      TextsArrive(frames[..k], arrived, n, isErr);
    }
    forall n: nat, ok: bool
      ensures Respond(n, ok) in arrived <==> Response(n, ok) in frames[..k]
    {
      AnswersArrive(frames[..k], arrived, n, ok);
    }
  }
}
