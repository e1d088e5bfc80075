// The answers of the Java side (src/JavaBuilder.cc): lines, and data frames whose text
// may hold anything, arriving in chunks of any size.
module Wire {
  import opened Options
  import opened Text

  datatype Line = ResponseLine(request: nat, ok: bool) | DataLine(request: nat, isErr: bool, length: nat) | OtherLine

  datatype Frame = Response(request: nat, ok: bool) | Data(request: nat, isErr: bool, text: string)

  // ---------- Numbers ----------

  predicate IsDigit(c: char)
  {
    '0' <= c <= '9'
  }

  predicate IsNumber(s: string)
  {
    s != "" && forall i :: 0 <= i < |s| ==> IsDigit(s[i])
  }

  function DigitValue(c: char): nat
    requires IsDigit(c)
  {
    c as int - '0' as int
  }

  // atoi
  function NumberOf(s: string): nat
    requires forall i :: 0 <= i < |s| ==> IsDigit(s[i])
  {
    if s == "" then 0 else 10 * NumberOf(s[..|s| - 1]) + DigitValue(s[|s| - 1])
  }

  function Decimal(n: nat): string
  {
    if n < 10 then [('0' as int + n) as char] else Decimal(n / 10) + [('0' as int + n % 10) as char]
  }

  lemma {:induction false} DecimalRoundTrip(n: nat)
    ensures IsNumber(Decimal(n)) && NumberOf(Decimal(n)) == n
  {
    if n < 10 {
      assert Decimal(n)[..0] == "";
    } else {
      DecimalRoundTrip(n / 10);
      var s := Decimal(n);
      assert s[..|s| - 1] == Decimal(n / 10);
    }
  }

  // ---------- Lines ----------

  function WithoutCr(line: string): string
  {
    if line != "" && line[|line| - 1] == '\r' then line[..|line| - 1] else line
  }

  // The two regular expressions; a line ends in an optional carriage return.
  function ParseLine(line: string): Line
  {
    var s := WithoutCr(line);
    var p := Find(' ', s);
    if p == |s| || !IsNumber(s[..p]) then OtherLine
    else
      var request, rest := NumberOf(s[..p]), s[p + 1..];
      if rest == "true" then ResponseLine(request, true)
      else if rest == "false" then ResponseLine(request, false)
      else if |rest| > 9 && rest[..9] in {"data:out ", "data:err "} && IsNumber(rest[9..]) then
        DataLine(request, rest[..9] == "data:err ", NumberOf(rest[9..]))
      else OtherLine
  }

  // ---------- One step ----------

  datatype Step = NeedMore | Bad | Got(frame: Frame, rest: string)

  // The length of the line end that tail starts with, if it is complete.
  function LineEnd(tail: string): (r: Option<nat>)
    ensures r.Some? ==> r.value <= |tail|
  {
    if |tail| >= 1 && tail[0] == '\n' then Some(1)
    else if |tail| >= 2 && tail[..2] == "\r\n" then Some(2)
    else None
  }

  // What the accumulated input starts with: a data frame counts only when its text and
  // the line end after it are there.
  function NextStep(capture: bool, acc: string): Step
  {
    var p := Find('\n', acc);
    if p == |acc| then NeedMore
    else
      var rest := acc[p + 1..];
      match ParseLine(acc[..p])
      case ResponseLine(request, ok) => Got(Response(request, ok), rest)
      case DataLine(request, isErr, length) =>
        if !capture then Bad
        else if |rest| <= length || LineEnd(rest[length..]).None? then NeedMore
        else Got(Data(request, isErr, rest[..length]), rest[length + LineEnd(rest[length..]).value..])
      case OtherLine => Bad
  }

  lemma StepShrinks(capture: bool, acc: string)
    ensures NextStep(capture, acc).Got? ==> |NextStep(capture, acc).rest| < |acc|
  {
  }

  // ---------- The connection ----------

  datatype Delivery =
    | Respond(request: nat, ok: bool)
    | Output(request: nat, isErr: bool, text: string)
    | Rogue(isErr: bool, text: string)     // output that belongs to no request

  // Input not consumed yet, requests waiting for an answer, and what has been delivered.
  // broken: an exception has left the io thread, which ends the program.
  datatype Connection = Connection(acc: string, jobs: set<nat>, delivered: seq<Delivery>, broken: bool)

  function Deliver(c: Connection, f: Frame): Connection
  {
    match f
    case Response(request, ok) =>
      if request !in c.jobs then c.(broken := true)
      else c.(jobs := c.jobs - {request}, delivered := c.delivered + [Respond(request, ok)])
    case Data(request, isErr, text) =>
      if request == 0 then c.(delivered := c.delivered + [Rogue(isErr, text)])
      else if request !in c.jobs then c.(broken := true)
      else c.(delivered := c.delivered + [Output(request, isErr, text)])
  }

  // handleResponse
  function Handle(capture: bool, c: Connection): Connection
    decreases |c.acc|
  {
    StepShrinks(capture, c.acc);
    if c.broken then c
    else match NextStep(capture, c.acc)
      case NeedMore => c
      case Bad => c.(broken := true)
      case Got(frame, rest) => Handle(capture, Deliver(c.(acc := rest), frame))
  }

  // handleRead in running mode
  function Receive(capture: bool, c: Connection, chunk: string): Connection
  {
    if c.broken then c else Handle(capture, c.(acc := c.acc + chunk))
  }

  function ReceiveAll(capture: bool, c: Connection, chunks: seq<string>): Connection
  {
    if chunks == [] then c
    else Receive(capture, ReceiveAll(capture, c, chunks[..|chunks| - 1]), chunks[|chunks| - 1])
  }

  function Concat(chunks: seq<string>): string
  {
    if chunks == [] then "" else Concat(chunks[..|chunks| - 1]) + chunks[|chunks| - 1]
  }

  // What can be told from outside: everything, and as long as the program runs also the
  // input that is left.
  ghost predicate Alike(c: Connection, d: Connection)
  {
    && c.jobs == d.jobs && c.delivered == d.delivered && c.broken == d.broken
    && (!c.broken ==> c.acc == d.acc)
  }

  // ---------- Chunks do not matter ----------

  lemma FindSame(c: char, a: string, b: string)
    requires Find(c, a) < |a|
    ensures Find(c, a + b) == Find(c, a)
  {
    var p := Find(c, a);
    assert (a + b)[..p] == a[..p];
    FindFirst(c, a + b, p);
  }

  lemma LineEndSame(a: string, b: string)
    requires LineEnd(a).Some?
    ensures LineEnd(a + b) == LineEnd(a)
  {
    if a[0] != '\n' {
      assert (a + b)[..2] == a[..2];
    }
  }

  // More input never changes what has been recognized.
  lemma StepSame(capture: bool, a: string, b: string)
    requires !NextStep(capture, a).NeedMore?
    ensures NextStep(capture, a).Bad? ==> NextStep(capture, a + b).Bad?
    ensures NextStep(capture, a).Got? ==>
              NextStep(capture, a + b) == Got(NextStep(capture, a).frame, NextStep(capture, a).rest + b)
  {
    hide ParseLine, Find, LineEnd;
    FindSame('\n', a, b);
    var p := Find('\n', a);
    assert (a + b)[..p] == a[..p];
    var rest := a[p + 1..];
    assert (a + b)[p + 1..] == rest + b;
    match ParseLine(a[..p])
    case DataLine(request, isErr, length) =>
      if capture {
        LineEndSame(rest[length..], b);
        assert (rest + b)[length..] == rest[length..] + b;
        assert (rest + b)[..length] == rest[..length];
        var n := length + LineEnd(rest[length..]).value;
        assert (rest + b)[n..] == rest[n..] + b;
      }
    case _ =>
  }

  // Receiving the input in two parts is receiving it at once.
  lemma {:induction false} HandleSplit(capture: bool, c: Connection, more: string)
    ensures Alike(Handle(capture, c.(acc := c.acc + more)), Receive(capture, Handle(capture, c), more))
    decreases |c.acc|
  {
    hide NextStep;
    if !c.broken && !NextStep(capture, c.acc).NeedMore? {
      StepSame(capture, c.acc, more);
      StepShrinks(capture, c.acc);
      StepShrinks(capture, c.acc + more);
      if NextStep(capture, c.acc).Got? {
        var step := NextStep(capture, c.acc);
        var d := Deliver(c.(acc := step.rest), step.frame);
        HandleSplit(capture, d, more);
        assert Deliver(c.(acc := step.rest + more), step.frame) == d.(acc := d.acc + more);
      }
    }
  }

  // However the input is cut into chunks, the outcome is that of the whole input.
  lemma {:induction false} ChunksDoNotMatter(capture: bool, c: Connection, chunks: seq<string>)
    requires Handle(capture, c) == c
    ensures Alike(ReceiveAll(capture, c, chunks), Handle(capture, c.(acc := c.acc + Concat(chunks))))
  {
    hide Handle, Deliver;
    if chunks == [] {
      assert c.acc + "" == c.acc;
    } else {
      var n := |chunks| - 1;
      ChunksDoNotMatter(capture, c, chunks[..n]);
      var whole := c.(acc := c.acc + Concat(chunks[..n]));
      HandleSplit(capture, whole, chunks[n]);
      assert whole.acc + chunks[n] == c.acc + Concat(chunks);
    }
  }

  // ---------- Frames arrive as they were sent ----------

  function End(cr: bool): string
  {
    if cr then "\r\n" else "\n"
  }

  function Verdict(ok: bool): string
  {
    if ok then "true" else "false"
  }

  function Channel(isErr: bool): string
  {
    if isErr then "data:err " else "data:out "
  }

  function Header(f: Frame): string
  {
    match f
    case Response(request, ok) => Decimal(request) + " " + Verdict(ok)
    case Data(request, isErr, text) => Decimal(request) + " " + (Channel(isErr) + Decimal(|text|))
  }

  // The bytes of a frame; cr says for its lines whether they end in CR LF.
  function Encode(f: Frame, cr: (bool, bool)): string
  {
    Header(f) + End(cr.0) + (if f.Data? then f.text + End(cr.1) else "")
  }

  function Cr(cr: bool): string
  {
    if cr then "\r" else ""
  }

  lemma ParseEnded(line: string, cr: bool)
    requires line != "" && line[|line| - 1] != '\r'
    ensures ParseLine(line + Cr(cr)) == ParseLine(line)
  {
    assert WithoutCr(line + Cr(cr)) == line == WithoutCr(line);
  }

  lemma NumberFirst(n: nat, rest: string)
    ensures var s := Decimal(n) + " " + rest;
            Find(' ', s) == |Decimal(n)| && s[..|Decimal(n)|] == Decimal(n) && s[|Decimal(n)| + 1..] == rest
    ensures IsNumber(Decimal(n)) && NumberOf(Decimal(n)) == n
  {
    DecimalRoundTrip(n);
    var d := Decimal(n);
    var s := d + " " + rest;
    assert s[..|d|] == d;
    forall i | 0 <= i < |d|
      ensures d[i] != ' '
    {
      assert IsDigit(d[i]);
    }
    FindFirst(' ', s, |d|);
  }

  lemma ResponseParses(request: nat, ok: bool)
    ensures var h := Decimal(request) + " " + Verdict(ok);
            ParseLine(h) == ResponseLine(request, ok) && h[|h| - 1] == 'e' && '\n' !in h
  {
    hide Find, Decimal, NumberOf;
    NumberFirst(request, Verdict(ok));
    NoNewline(Decimal(request));
    assert "true" != "false" by { assert |"true"| != |"false"|; }
  }

  lemma DataLineParses(line: string, p: nat)
    requires p < |line| && Find(' ', line) == p && line[|line| - 1] != '\r' && IsNumber(line[..p])
    requires |line| > p + 10 && line[p + 1..p + 10] in {"data:out ", "data:err "} && IsNumber(line[p + 10..])
    ensures ParseLine(line) ==
            DataLine(NumberOf(line[..p]), line[p + 1..p + 10] == "data:err ", NumberOf(line[p + 10..]))
  {
    hide Find, NumberOf, IsNumber, WithoutCr;
    assert WithoutCr(line) == line by { NoCr(line); }
    var rest := line[p + 1..];
    assert |rest| > 9 && rest != "true" && rest != "false";
    assert rest[..9] == line[p + 1..p + 10] && rest[9..] == line[p + 10..];
  }

  lemma NoCr(line: string)
    requires line != "" && line[|line| - 1] != '\r'
    ensures WithoutCr(line) == line
  {
  }

  lemma DataParses(request: nat, isErr: bool, length: nat)
    ensures var h := Decimal(request) + " " + (Channel(isErr) + Decimal(length));
            ParseLine(h) == DataLine(request, isErr, length) && h[|h| - 1] != '\r' && '\n' !in h
  {
    hide Find, Decimal, NumberOf, IsNumber, Channel, ParseLine;
    var kind, d := Channel(isErr), Decimal(length);
    var rest := kind + d;
    NumberFirst(request, rest);
    DecimalRoundTrip(length);
    NoNewline(Decimal(request));
    NoNewline(d);
    ChannelParts(isErr);
    var h, p := Decimal(request) + " " + rest, |Decimal(request)|;
    assert h[p + 1..p + 10] == kind && h[p + 10..] == d;
    assert h[|h| - 1] == d[|d| - 1];
    DataLineParses(h, p);
  }

  lemma ChannelParts(isErr: bool)
    ensures var kind := Channel(isErr);
            && |kind| == 9 && kind[4] == ':' && '\n' !in kind && kind in {"data:out ", "data:err "}
            && (kind == "data:err " <==> isErr)
  {
    assert "data:out "[5] != "data:err "[5];
  }

  lemma HeaderParses(f: Frame)
    ensures ParseLine(Header(f)) ==
            match f
            case Response(request, ok) => ResponseLine(request, ok)
            case Data(request, isErr, text) => DataLine(request, isErr, |text|)
    ensures Header(f) != "" && Header(f)[|Header(f)| - 1] != '\r' && '\n' !in Header(f)
  {
    hide ParseLine, Decimal, Verdict, Channel;
    match f
    case Response(request, ok) => ResponseParses(request, ok);
    case Data(request, isErr, text) => DataParses(request, isErr, |text|);
  }

  lemma NoNewline(s: string)
    requires IsNumber(s)
    ensures s != "" && '\n' !in s && s[|s| - 1] != '\r'
  {
    forall i | 0 <= i < |s|
      ensures s[i] != '\n' && s[i] != '\r'
    {
      assert IsDigit(s[i]);
    }
  }

  lemma StepOfLine(line: string, cr: bool, rest: string)
    requires line != "" && line[|line| - 1] != '\r' && '\n' !in line
    ensures var acc := line + End(cr) + rest;
            && Find('\n', acc) < |acc|
            && ParseLine(acc[..Find('\n', acc)]) == ParseLine(line)
            && acc[Find('\n', acc) + 1..] == rest
  {
    hide ParseLine;
    var acc := line + End(cr) + rest;
    var full := line + Cr(cr);
    assert acc == full + "\n" + rest;
    assert acc[..|full|] == full && '\n' !in full;
    FindFirst('\n', acc, |full|);
    ParseEnded(line, cr);
  }

  lemma ResponseStep(capture: bool, h: string, request: nat, ok: bool, cr: bool, tail: string)
    requires ParseLine(h) == ResponseLine(request, ok) && h != "" && h[|h| - 1] != '\r' && '\n' !in h
    ensures NextStep(capture, h + End(cr) + tail) == Got(Response(request, ok), tail)
  {
    hide ParseLine, Find, End;
    StepOfLine(h, cr, tail);
  }

  lemma DataStep(h: string, request: nat, isErr: bool, text: string, cr: bool, last: string, tail: string)
    requires ParseLine(h) == DataLine(request, isErr, |text|) && h != "" && h[|h| - 1] != '\r' && '\n' !in h
    requires LineEnd(last + tail) == Some(|last|)
    ensures NextStep(true, h + End(cr) + (text + last + tail)) == Got(Data(request, isErr, text), tail)
  {
    hide ParseLine, Find, End, LineEnd;
    var rest := text + last + tail;
    StepOfLine(h, cr, rest);
    NoEnd();
    assert rest[..|text|] == text && rest[|text|..] == last + tail;
    assert rest[|text| + |last|..] == tail;
  }

  lemma NoEnd()
    ensures LineEnd("").None?
  {
  }

  // Data frames are sent only when output is captured.
  predicate Sendable(capture: bool, f: Frame)
  {
    capture || f.Response?
  }

  // Whatever follows it, a frame is recognized as what was sent.
  lemma EncodedStep(capture: bool, f: Frame, cr: (bool, bool), tail: string)
    requires Sendable(capture, f)
    ensures NextStep(capture, Encode(f, cr) + tail) == Got(f, tail)
  {
    hide NextStep, ParseLine, Header, End;
    HeaderParses(f);
    var h := Header(f);
    match f
    case Response(request, ok) =>
      ResponseStep(capture, h, request, ok, cr.0, tail);
      assert Encode(f, cr) == h + End(cr.0);
    case Data(request, isErr, text) =>
      EndRecognized(cr.1, tail);
      DataStep(h, request, isErr, text, cr.0, End(cr.1), tail);
      assert Encode(f, cr) + tail == h + End(cr.0) + (text + End(cr.1) + tail);
  }

  lemma EndRecognized(cr: bool, tail: string)
    ensures LineEnd(End(cr) + tail) == Some(|End(cr)|)
  {
    if cr {
      assert (End(cr) + tail)[..2] == "\r\n";
    }
  }

  function EncodeAll(frames: seq<Frame>, crs: seq<(bool, bool)>): string
    requires |crs| == |frames|
  {
    if frames == [] then "" else Encode(frames[0], crs[0]) + EncodeAll(frames[1..], crs[1..])
  }

  // The frames taking effect one after the other, up to one that breaks the connection.
  function DeliverAll(c: Connection, frames: seq<Frame>): Connection
    decreases |frames|
  {
    if frames == [] || c.broken then c else DeliverAll(Deliver(c, frames[0]), frames[1..])
  }

  lemma {:induction false} HandleEncoded(capture: bool, c: Connection, frames: seq<Frame>, crs: seq<(bool, bool)>)
    requires c.acc == "" && |crs| == |frames|
    requires forall f :: f in frames ==> Sendable(capture, f)
    ensures Alike(Handle(capture, c.(acc := EncodeAll(frames, crs))), DeliverAll(c, frames))
    decreases |frames|
  {
    hide NextStep, Encode;
    if frames == [] {
      assert NextStep(capture, "").NeedMore? by { NothingYet(capture); }
    } else if !c.broken {
      var rest := EncodeAll(frames[1..], crs[1..]);
      EncodedStep(capture, frames[0], crs[0], rest);
      StepShrinks(capture, EncodeAll(frames, crs));
      var d := Deliver(c, frames[0]);
      assert Deliver(c.(acc := rest), frames[0]) == d.(acc := rest);
      HandleEncoded(capture, d, frames[1..], crs[1..]);
    }
  }

  lemma NothingYet(capture: bool)
    ensures NextStep(capture, "").NeedMore?
  {
  }

  // For every list of frames, every mixture of line ends and every way to cut the bytes
  // into chunks, exactly these frames take effect, in order, and nothing is left over.
  lemma FramesArrive(
      capture: bool, c: Connection, frames: seq<Frame>, crs: seq<(bool, bool)>, chunks: seq<string>)
    requires c.acc == "" && |crs| == |frames| && Concat(chunks) == EncodeAll(frames, crs)
    requires forall f :: f in frames ==> Sendable(capture, f)
    ensures Alike(ReceiveAll(capture, c, chunks), DeliverAll(c, frames))
    ensures !ReceiveAll(capture, c, chunks).broken ==> ReceiveAll(capture, c, chunks).acc == ""
  {
    hide Handle, Encode, Deliver;
    NothingToHandle(capture, c);
    ChunksDoNotMatter(capture, c, chunks);
    assert c.acc + Concat(chunks) == EncodeAll(frames, crs);
    HandleEncoded(capture, c, frames, crs);
    DeliverKeepsInput(c, frames);
  }

  lemma NothingToHandle(capture: bool, c: Connection)
    requires c.acc == ""
    ensures Handle(capture, c) == c
  {
    NothingYet(capture);
  }

  lemma {:induction false} DeliverKeepsInput(c: Connection, frames: seq<Frame>)
    ensures DeliverAll(c, frames).acc == c.acc
    decreases |frames|
  {
    if frames != [] && !c.broken {
      DeliverKeepsInput(Deliver(c, frames[0]), frames[1..]);
    }
  }

  // ---------- What a connection leaves unfinished ----------

  // The requests answered and the output delivered are the same.
  ghost predicate SameEffect(c: Connection, d: Connection)
  {
    c.jobs == d.jobs && c.delivered == d.delivered && c.broken == d.broken
  }

  ghost predicate AllArrive(capture: bool, acc: string)
  {
    forall c: Connection, frames, crs, chunks ::
      c.acc == acc && |crs| == |frames| && Concat(chunks) == EncodeAll(frames, crs)
      && (forall f :: f in frames ==> Sendable(capture, f)) ==>
        SameEffect(ReceiveAll(capture, c, chunks), DeliverAll(c, frames))
  }

  predicate Zeros(s: string)
  {
    forall i :: 0 <= i < |s| ==> s[i] == '0'
  }

  lemma {:induction false} NumberAfter(a: string, b: string)
    requires forall i :: 0 <= i < |a| ==> IsDigit(a[i])
    requires forall i :: 0 <= i < |b| ==> IsDigit(b[i])
    ensures NumberOf(a + b) >= NumberOf(a) + NumberOf(b)
    ensures NumberOf(a) == 0 ==> NumberOf(a + b) == NumberOf(b)
  {
    if b == "" {
      assert a + b == a;
    } else {
      NumberAfter(a, b[..|b| - 1]);
      assert (a + b)[..|a + b| - 1] == a + b[..|b| - 1];
    }
  }

  lemma {:induction false} ZeroDigits(s: string)
    requires forall i :: 0 <= i < |s| ==> IsDigit(s[i])
    ensures NumberOf(s) == 0 <==> Zeros(s)
  {
    if s != "" {
      ZeroDigits(s[..|s| - 1]);
      assert s[|s| - 1] == '0' <==> DigitValue(s[|s| - 1]) == 0;
      assert forall i :: 0 <= i < |s| - 1 ==> s[i] == s[..|s| - 1][i];
    }
  }

  lemma FindAfter(c: char, a: string, b: string)
    requires c !in a
    ensures Find(c, a + b) == |a| + Find(c, b)
  {
    var p := Find(c, b);
    assert (a + b)[..|a| + p] == a + b[..p];
    FindFirst(c, a + b, |a| + p);
  }

  lemma ZerosInLine(z: string, line: string)
    requires Zeros(z) && line != "" && IsDigit(line[0])
    ensures ParseLine(z + line) == ParseLine(line)
  {
    hide Find, NumberOf;
    var s := WithoutCr(line);
    assert WithoutCr(z + line) == z + s && s[0] == line[0];
    FindAfter(' ', z, s);
    var p := Find(' ', s);
    assert (z + s)[..|z| + p] == z + s[..p];
    if p < |s| {
      assert p > 0;
      assert (z + s)[|z| + p + 1..] == s[p + 1..];
      assert IsNumber(z + s[..p]) <==> IsNumber(s[..p]) by {
        assert forall i :: 0 <= i < p ==> (z + s[..p])[|z| + i] == s[..p][i];
      }
      if IsNumber(s[..p]) {
        ZeroDigits(z);
        NumberAfter(z, s[..p]);
      }
    }
  }

  lemma ZerosBefore(capture: bool, z: string, acc: string)
    requires Zeros(z) && acc != "" && IsDigit(acc[0])
    ensures NextStep(capture, z + acc) == NextStep(capture, acc)
  {
    hide Find, ParseLine, LineEnd;
    FindAfter('\n', z, acc);
    var p := Find('\n', acc);
    if p < |acc| {
      ZerosInLine(z, acc[..p]);
      assert (z + acc)[..|z| + p] == z + acc[..p];
      assert (z + acc)[|z| + p + 1..] == acc[p + 1..];
    }
  }

  lemma EncodedStart(f: Frame, cr: (bool, bool))
    ensures Encode(f, cr) != "" && IsDigit(Encode(f, cr)[0])
  {
    match f
    case Response(request, _) => DecimalRoundTrip(request);
    case Data(request, _, _) => DecimalRoundTrip(request);
  }

  lemma ZerosArrive(capture: bool, c: Connection, frames: seq<Frame>, crs: seq<(bool, bool)>, chunks: seq<string>)
    requires Zeros(c.acc) && |crs| == |frames| && Concat(chunks) == EncodeAll(frames, crs)
    requires forall f :: f in frames ==> Sendable(capture, f)
    ensures SameEffect(ReceiveAll(capture, c, chunks), DeliverAll(c, frames))
  {
    hide Encode, NextStep, Deliver;
    ZerosWait(capture, c.acc);
    ChunksDoNotMatter(capture, c, chunks);
    if frames == [] {
      assert c.acc + "" == c.acc;
    } else if !c.broken {
      var first, rest := Encode(frames[0], crs[0]), EncodeAll(frames[1..], crs[1..]);
      EncodedStart(frames[0], crs[0]);
      ZerosBefore(capture, c.acc, first + rest);
      EncodedStep(capture, frames[0], crs[0], rest);
      StepShrinks(capture, c.acc + (first + rest));
      var d := Deliver(c.(acc := ""), frames[0]);
      DeliverIgnoresInput(c, frames[0], rest);
      HandleEncoded(capture, d, frames[1..], crs[1..]);
      DeliverAllIgnoresInput(Deliver(c, frames[0]), frames[1..]);
    }
  }

  lemma ZerosWait(capture: bool, z: string)
    requires Zeros(z)
    ensures NextStep(capture, z).NeedMore?
  {
    FindFirst('\n', z, |z|);
  }

  lemma DeliverIgnoresInput(c: Connection, f: Frame, rest: string)
    ensures Deliver(c.(acc := rest), f) == Deliver(c, f).(acc := rest)
    ensures Deliver(c.(acc := rest), f) == Deliver(c.(acc := ""), f).(acc := rest)
    ensures Deliver(c.(acc := ""), f).acc == ""
  {
  }

  lemma {:induction false} DeliverAllIgnoresInput(c: Connection, frames: seq<Frame>)
    ensures SameEffect(DeliverAll(c, frames), DeliverAll(c.(acc := ""), frames))
    decreases |frames|
  {
    if frames != [] && !c.broken {
      DeliverIgnoresInput(c, frames[0], "");
      DeliverAllIgnoresInput(Deliver(c, frames[0]), frames[1..]);
    }
  }

  // What the line of an answer turns into behind an unfinished line with a space in it,
  // and behind one without.
  lemma AnswerAfterSpace(acc: string, d: string, v: string)
    requires ' ' in acc && v in {"true", "false"}
    ensures ParseLine(acc + (d + " " + v)).OtherLine?
  {
    hide NumberOf;
    var s := acc + (d + " " + v);
    assert s[|s| - 1] == 'e' && WithoutCr(s) == s;
    var q := Find(' ', acc);
    FindSame(' ', acc, d + " " + v);
    var rest := s[q + 1..];
    assert rest[|rest| - 1] == 'e' && rest[|rest| - |v| - 1] == ' ';
    NoAnswerEndsSo(rest, |rest| - |v| - 1);
  }

  lemma AnswerAfterWord(acc: string, n: nat, v: string)
    requires ' ' !in acc && !Zeros(acc) && v in {"true", "false"}
    ensures var r := ParseLine(acc + (Decimal(n) + " " + v));
            r.OtherLine? || (r.ResponseLine? && r.request != n)
  {
    hide Find, NumberOf, Decimal, Zeros;
    var d := Decimal(n);
    NumberFirst(n, v);
    var s := acc + (d + " " + v);
    assert s[|s| - 1] == 'e' && WithoutCr(s) == s;
    FindAfter(' ', acc, d + " " + v);
    assert s[..|acc| + |d|] == acc + d && s[|acc| + |d| + 1..] == v;
    if IsNumber(acc + d) {
      WordBeforeNumber(acc, d);
    }
  }

  lemma WordBeforeNumber(acc: string, d: string)
    requires !Zeros(acc) && IsNumber(acc + d) && IsNumber(d)
    ensures NumberOf(acc + d) > NumberOf(d)
  {
    hide NumberOf;
    forall i | 0 <= i < |acc|
      ensures IsDigit(acc[i])
    {
      assert (acc + d)[i] == acc[i];
    }
    ZeroDigits(acc);
    NumberAfter(acc, d);
  }

  lemma AnswerInLine(acc: string, n: nat, ok: bool)
    requires !Zeros(acc)
    ensures var r := ParseLine(acc + (Decimal(n) + " " + Verdict(ok)));
            r.OtherLine? || (r.ResponseLine? && r.request != n)
  {
    hide ParseLine, Decimal;
    if ' ' in acc {
      AnswerAfterSpace(acc, Decimal(n), Verdict(ok));
    } else {
      AnswerAfterWord(acc, n, Verdict(ok));
    }
  }

  // A rest of a line that ends like an answer, but has a space in it.
  lemma NoAnswerEndsSo(rest: string, i: nat)
    requires i < |rest| && rest[i] == ' ' && rest[|rest| - 1] == 'e'
    ensures rest != "true" && rest != "false"
    ensures |rest| > 9 ==> !IsNumber(rest[9..])
  {
    assert forall k :: 0 <= k < 4 ==> "true"[k] != ' ';
    assert forall k :: 0 <= k < 5 ==> "false"[k] != ' ';
    if |rest| > 9 {
      assert rest[9..][|rest| - 10] == 'e';
    }
  }

  lemma AnswerIsSpoilt(capture: bool, acc: string, n: nat, ok: bool, cr: (bool, bool))
    requires NextStep(capture, acc).NeedMore? && !Zeros(acc)
    ensures match NextStep(capture, acc + Encode(Response(n, ok), cr))
            case Got(f, _) => f.Data? || f.request != n
            case _ => true
  {
    hide ParseLine, Find, LineEnd, Decimal, Verdict;
    var f := Response(n, ok);
    HeaderParses(f);
    var h := Header(f);
    var b := Encode(f, cr);
    assert b == h + End(cr.0);
    if Find('\n', acc) < |acc| {
      var p := Find('\n', acc);
      FindSame('\n', acc, b);
      assert (acc + b)[..p] == acc[..p];
    } else {
      assert acc[..|acc|] == acc;
      var full := h + Cr(cr.0);
      assert b == full + "\n" && acc + b == acc + full + "\n";
      assert (acc + b)[..|acc + full|] == acc + full && '\n' !in acc + full;
      FindFirst('\n', acc + b, |acc + full|);
      ParseEnded(acc + h, cr.0);
      assert acc + full == acc + h + Cr(cr.0);
      AnswerInLine(acc, n, ok);
    }
  }

  lemma {:induction false} HandleGrows(capture: bool, c: Connection)
    ensures c.delivered <= Handle(capture, c).delivered
    ensures c.broken ==> Handle(capture, c) == c
    decreases |c.acc|
  {
    hide NextStep;
    if !c.broken && NextStep(capture, c.acc).Got? {
      StepShrinks(capture, c.acc);
      var step := NextStep(capture, c.acc);
      HandleGrows(capture, Deliver(c.(acc := step.rest), step.frame));
    }
  }

  // Behind anything but zeros the answer to whatever request waits for it goes astray.
  lemma LeftoverSpoils(capture: bool, c: Connection, n: nat, ok: bool, cr: (bool, bool))
    requires NextStep(capture, c.acc).NeedMore? && !Zeros(c.acc) && n in c.jobs && !c.broken
    ensures !SameEffect(Receive(capture, c, Encode(Response(n, ok), cr)), Deliver(c, Response(n, ok)))
  {
    hide NextStep, Encode, Zeros;
    var b := Encode(Response(n, ok), cr);
    AnswerIsSpoilt(capture, c.acc, n, ok, cr);
    StepShrinks(capture, c.acc + b);
    var step := NextStep(capture, c.acc + b);
    if step.Got? {
      var d := Deliver(c.(acc := step.rest), step.frame);
      HandleGrows(capture, d);
      if !d.broken {
        assert d.delivered[|c.delivered|] != Respond(n, ok);
      }
    }
  }

  // Frames of the next connection all take effect as they were sent exactly when the
  // last connection has left nothing but zeros (which only lengthen a number).
  lemma LeftoverExact(capture: bool, acc: string)
    requires NextStep(capture, acc).NeedMore?
    ensures AllArrive(capture, acc) <==> Zeros(acc)
  {
    hide NextStep, Encode, ReceiveAll, DeliverAll, Zeros;
    if Zeros(acc) {
      forall c: Connection, frames, crs, chunks |
        c.acc == acc && |crs| == |frames| && Concat(chunks) == EncodeAll(frames, crs)
        && (forall f :: f in frames ==> Sendable(capture, f))
        ensures SameEffect(ReceiveAll(capture, c, chunks), DeliverAll(c, frames))
      {
        ZerosArrive(capture, c, frames, crs, chunks);
      }
    } else {
      var c, f := Connection(acc, {1}, [], false), Response(1, true);
      LeftoverSpoils(capture, c, 1, true, (false, false));
      OneChunk(capture, c, f, (false, false));
      assert !SameEffect(ReceiveAll(capture, c, [Encode(f, (false, false))]), DeliverAll(c, [f]));
    }
  }

  lemma OneChunk(capture: bool, c: Connection, f: Frame, cr: (bool, bool))
    requires !c.broken
    ensures Concat([Encode(f, cr)]) == EncodeAll([f], [cr])
    ensures ReceiveAll(capture, c, [Encode(f, cr)]) == Receive(capture, c, Encode(f, cr))
    ensures DeliverAll(c, [f]) == Deliver(c, f)
  {
    hide Encode, Receive, Deliver;
    assert [Encode(f, cr)][..0] == [] && [f][1..] == [] && [cr][1..] == [];
    assert Concat([]) == "" && EncodeAll([], []) == "";
  }
}
