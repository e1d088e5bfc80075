// The requests sent to the Java side and their answers (src/JavaBuilder.cc).
module JavaBuilders {
  import opened Options
  import opened Text
  import opened Wire

  // How often request n has been answered.
  function Answers(delivered: seq<Delivery>, n: nat): nat
  {
    if delivered == [] then 0
    else
      var d := delivered[|delivered| - 1];
      Answers(delivered[..|delivered| - 1], n) + (if d.Respond? && d.request == n then 1 else 0)
  }

  lemma AnswersPush(delivered: seq<Delivery>, d: Delivery, n: nat)
    ensures Answers(delivered + [d], n) == Answers(delivered, n) + (if d.Respond? && d.request == n then 1 else 0)
  {
    assert (delivered + [d])[..|delivered|] == delivered;
  }

  // A request that has been made waits for its answer or has had exactly one.
  ghost predicate Accounted(jobs: set<nat>, delivered: seq<Delivery>, lastRequest: nat)
  {
    forall n: nat :: Answers(delivered, n) + (if n in jobs then 1 else 0) == (if 1 <= n <= lastRequest then 1 else 0)
  }

  lemma DeliverAccounts(c: Connection, f: Frame, lastRequest: nat)
    requires Accounted(c.jobs, c.delivered, lastRequest)
    ensures Accounted(Deliver(c, f).jobs, Deliver(c, f).delivered, lastRequest)
  {
    hide Answers;
    var d := Deliver(c, f);
    forall n: nat
      ensures Answers(d.delivered, n) + (if n in d.jobs then 1 else 0) == (if 1 <= n <= lastRequest then 1 else 0)
    {
      if d.delivered != c.delivered {
        AnswersPush(c.delivered, d.delivered[|c.delivered|], n);
      }
    }
  }

  // Failing the jobs that are left, in the order of their numbers.
  function FailAll(delivered: seq<Delivery>, jobs: seq<nat>): seq<Delivery>
  {
    if jobs == [] then delivered else FailAll(delivered, jobs[..|jobs| - 1]) + [Respond(jobs[|jobs| - 1], false)]
  }

  ghost predicate Ascending(s: seq<nat>)
  {
    forall i, j :: 0 <= i < j < |s| ==> s[i] < s[j]
  }

  lemma {:induction false} SmallestExists(s: set<nat>) returns (n: nat)
    requires s != {}
    ensures n in s && forall m :: m in s ==> n <= m
  {
    var first :| first in s;
    n := first;
    if s != {first} {
      var k := SmallestExists(s - {first});
      n := if k < first then k else first;
      forall m | m in s
        ensures n <= m
      {
        assert m == first || m in s - {first};
      }
    }
  }

  class JavaBuilder {
    const captureOutput: bool
    var accumulatedResponse: string
    var jobData: set<nat>
    var lastRequest: nat
    var running: bool
    var broken: bool
    var delivered: seq<Delivery>

    constructor (captureOutput: bool)
      ensures Valid() && !running && !broken && delivered == [] && lastRequest == 0
      ensures jobData == {} && accumulatedResponse == ""
      ensures this.captureOutput == captureOutput
    {
      this.captureOutput := captureOutput;
      accumulatedResponse, jobData, lastRequest := "", {}, 0;
      running, broken, delivered := false, false, [];
    }

    ghost predicate Valid()
      reads this
    {
      Accounted(jobData, delivered, lastRequest)
    }

    ghost function View(): Connection
      reads this
    {
      Connection(accumulatedResponse, jobData, delivered, broken)
    }

    // A new io thread: what was accumulated before stays.
    method Start()
      requires Valid()
      modifies this`running
      ensures running && Valid()
    {
      running := true;
    }

    method MakeRequest() returns (n: nat)
      requires Valid()
      modifies this`lastRequest, this`jobData
      ensures Valid() && n == lastRequest == old(lastRequest) + 1
      ensures jobData == old(jobData) + {n} && n !in old(jobData)
    {
      assert Answers(delivered, lastRequest + 1) + (if lastRequest + 1 in jobData then 1 else 0) == 0;
      lastRequest := lastRequest + 1;
      n := lastRequest;
      jobData := jobData + {n};
    }

    method Dispatch(f: Frame)
      requires Valid() && !broken
      modifies this`jobData, this`delivered, this`broken
      ensures Valid() && View() == Deliver(old(View()), f)
    {
      hide Accounted;
      DeliverAccounts(View(), f, lastRequest);
      match f
      case Response(request, ok) =>
        if request !in jobData {
          broken := true;
        } else {
          jobData := jobData - {request};
          delivered := delivered + [Respond(request, ok)];
        }
      case Data(request, isErr, text) =>
        if request == 0 {
          delivered := delivered + [Rogue(isErr, text)];
        } else if request !in jobData {
          broken := true;
        } else {
          delivered := delivered + [Output(request, isErr, text)];
        }
    }

    // One frame, or the finding that there is none yet.
    method TakeFrame() returns (waiting: bool)
      requires Valid() && !broken && Find('\n', accumulatedResponse) < |accumulatedResponse|
      modifies this`accumulatedResponse, this`jobData, this`delivered, this`broken
      ensures Valid()
      ensures match NextStep(captureOutput, old(accumulatedResponse))
              case NeedMore => waiting && View() == old(View())
              case Bad => !waiting && View() == old(View()).(broken := true)
              case Got(frame, rest) => !waiting && View() == Deliver(old(View()).(acc := rest), frame)
    {
      hide Accounted, ParseLine, Deliver, LineEnd;
      waiting := false;
      var p := Find('\n', accumulatedResponse);
      var rest := accumulatedResponse[p + 1..];
      match ParseLine(accumulatedResponse[..p]) {
        case ResponseLine(request, ok) =>
          accumulatedResponse := rest;
          Dispatch(Response(request, ok));
        case DataLine(request, isErr, length) =>
          if !captureOutput {
            broken := true;
          } else {
            var end := None;
            if |rest| > length {
              end := LineEnd(rest[length..]);
            }
            if end.None? {
              // A partial message stays where it is.
              waiting := true;
            } else {
              accumulatedResponse := rest[length + end.value..];
              Dispatch(Data(request, isErr, rest[..length]));
            }
          }
        case OtherLine =>
          broken := true;
      }
    }

    method HandleResponse()
      requires Valid() && !broken
      modifies this`accumulatedResponse, this`jobData, this`delivered, this`broken
      ensures Valid() && View() == Handle(captureOutput, old(View()))
    {
      hide Accounted, Deliver, NextStep;
      ghost var goal := Handle(captureOutput, View());
      var waiting := false;
      while !broken && !waiting && Find('\n', accumulatedResponse) < |accumulatedResponse|
        invariant Valid() && Handle(captureOutput, View()) == goal
        invariant waiting || broken ==> goal == View()
        decreases |accumulatedResponse|, !waiting, !broken
      {
        StepShrinks(captureOutput, accumulatedResponse);
        DeliverKeeps(captureOutput, View());
        waiting := TakeFrame();
      }
      NoLine(captureOutput, accumulatedResponse);
    }

    method HandleRead(chunk: string)
      requires Valid() && !broken
      modifies this`accumulatedResponse, this`jobData, this`delivered, this`broken
      ensures Valid()
      ensures running ==> View() == Receive(captureOutput, old(View()), chunk)
      ensures !running ==> View() == old(View())
    {
      if running {
        accumulatedResponse := accumulatedResponse + chunk;
        HandleResponse();
      }
    }

    // The end of the io thread: every request still waiting is answered with false.
    method EndIO()
      requires Valid()
      modifies this`jobData, this`delivered, this`running
      ensures Valid() && jobData == {} && !running
      ensures exists failed :: Ascending(failed) && (forall n :: n in failed <==> n in old(jobData))
                               && delivered == FailAll(old(delivered), failed)
    {
      hide Accounted, FailAll;
      ghost var failed: seq<nat> := [];
      FailNone(delivered);
      while jobData != {}
        invariant Valid() && Ascending(failed) && delivered == FailAll(old(delivered), failed)
        invariant forall n :: n in old(jobData) <==> n in failed || n in jobData
        invariant forall n, m :: n in failed && m in jobData ==> n < m
        decreases jobData
      {
        ghost var least := SmallestExists(jobData);
        var n: nat :| n in jobData && forall m :: m in jobData ==> n <= m;
        FailAccounts(jobData, delivered, lastRequest, n);
        FailNext(old(delivered), failed, n);
        jobData := jobData - {n};
        delivered := delivered + [Respond(n, false)];
        failed := failed + [n];
      }
      running := false;
    }
  }

  lemma FailNone(delivered: seq<Delivery>)
    ensures FailAll(delivered, []) == delivered
  {
  }

  lemma FailNext(delivered: seq<Delivery>, failed: seq<nat>, n: nat)
    requires Ascending(failed) && forall m :: m in failed ==> m < n
    ensures FailAll(delivered, failed + [n]) == FailAll(delivered, failed) + [Respond(n, false)]
    ensures Ascending(failed + [n])
  {
    var r := failed + [n];
    assert r[..|failed|] == failed;
    forall i, j | 0 <= i < j < |r|
      ensures r[i] < r[j]
    {
      assert failed[i] in failed;
    }
  }

  lemma FailAccounts(jobs: set<nat>, delivered: seq<Delivery>, lastRequest: nat, n: nat)
    requires Accounted(jobs, delivered, lastRequest) && n in jobs
    ensures Accounted(jobs - {n}, delivered + [Respond(n, false)], lastRequest)
  {
    DeliverAccounts(Connection("", jobs, delivered, false), Response(n, false), lastRequest);
  }

  lemma DeliverKeeps(capture: bool, c: Connection)
    ensures NextStep(capture, c.acc).Got? ==>
              Deliver(c.(acc := NextStep(capture, c.acc).rest), NextStep(capture, c.acc).frame).acc ==
                NextStep(capture, c.acc).rest
  {
    hide NextStep;
  }

  lemma NoLine(capture: bool, acc: string)
    ensures Find('\n', acc) == |acc| ==> NextStep(capture, acc).NeedMore?
  {
  }

  // At most one answer to a request, and exactly one to one that no longer waits.
  lemma AnsweredOnce(b: JavaBuilder, n: nat)
    requires b.Valid()
    ensures Answers(b.delivered, n) <= 1
    ensures 1 <= n <= b.lastRequest && n !in b.jobData ==> Answers(b.delivered, n) == 1
  {
    assert Answers(b.delivered, n) + (if n in b.jobData then 1 else 0) == (if 1 <= n <= b.lastRequest then 1 else 0);
  }

  // ---------- What a connection leaves unfinished ----------

  // The first answer on the next connection, when the last one has ended with input that
  // is not complete: it takes effect as it was sent exactly when this input is zeros.
  method AnswerOnNewConnection(
      b: JavaBuilder, ok: bool, cr: (bool, bool)) returns (n: nat, ghost stopped: seq<Delivery>)
    requires b.Valid() && !b.broken && NextStep(b.captureOutput, b.accumulatedResponse).NeedMore?
    modifies b
    ensures b.Valid() && n == old(b.lastRequest) + 1
    ensures exists failed :: Ascending(failed) && (forall m :: m in failed <==> m in old(b.jobData))
                             && stopped == FailAll(old(b.delivered), failed)
    ensures (!b.broken && b.jobData == {} && b.delivered == stopped + [Respond(n, ok)]) <==>
            Zeros(old(b.accumulatedResponse))
  {
    hide NextStep, Encode, Accounted, Zeros;
    b.EndIO();
    stopped := b.delivered;
    b.Start();
    n := b.MakeRequest();
    ghost var c, f, capture := b.View(), Response(n, ok), b.captureOutput;
    b.HandleRead(Encode(Response(n, ok), cr));
    if Zeros(c.acc) {
      OneChunk(capture, c, f, cr);
      ZerosArrive(capture, c, [f], [cr], [Encode(f, cr)]);
    } else {
      LeftoverSpoils(capture, c, n, ok, cr);
    }
  }

  // A run of two connections: the first one ends within the answer to request 1, and the
  // answer to request 2 on the second one is taken for a malformed line.
  method LeftoverSpoilsNext() returns (b: JavaBuilder)
    ensures b.Valid() && b.broken
    ensures b.lastRequest == 2 && b.jobData == {2} && b.delivered == [Respond(1, false)]
  {
    hide NextStep, Accounted, FailAll;
    b := new JavaBuilder(true);
    b.Start();
    var first := b.MakeRequest();
    UnfinishedLine();
    assert "" + "1 tr" == "1 tr";
    b.HandleRead("1 tr");
    assert b.jobData == {first} && b.delivered == [] && b.accumulatedResponse == "1 tr";
    b.EndIO();
    ghost var failed: seq<nat> :| Ascending(failed) && (forall m :: m in failed <==> m in {first})
                                  && b.delivered == FailAll([], failed);
    OnlyOneFailed(failed, first);
    b.Start();
    var second := b.MakeRequest();
    SpoiltLine();
    assert "1 tr" + "2 true\n" == "1 tr2 true\n";
    b.HandleRead("2 true\n");
  }

  lemma OnlyOneFailed(failed: seq<nat>, n: nat)
    requires Ascending(failed) && forall m :: m in failed <==> m in {n}
    ensures FailAll([], failed) == [Respond(n, false)]
  {
    assert n in failed;
    assert |failed| > 1 ==> failed[0] < failed[1];
    forall i | 0 <= i < |failed|
      ensures failed[i] == n
    {
      assert failed[i] in failed;
    }
    assert failed == [n] && failed[..0] == [];
  }

  lemma UnfinishedLine()
    ensures NextStep(true, "1 tr").NeedMore?
  {
    assert '\n' !in "1 tr";
    FindFirst('\n', "1 tr", 4);
  }

  lemma SpoiltLine()
    ensures NextStep(true, "1 tr2 true\n").Bad?
  {
    hide ParseLine, Find;
    assert "1 tr"[1] == ' ';
    AnswerAfterSpace("1 tr", "2", "true");
    assert "1 tr" + ("2" + " " + "true") == "1 tr2 true";
    OtherLineIsBad("1 tr2 true");
    assert "1 tr2 true" + "\n" == "1 tr2 true\n";
  }

  lemma OtherLineIsBad(line: string)
    requires '\n' !in line && ParseLine(line).OtherLine?
    ensures NextStep(true, line + "\n").Bad?
  {
    hide ParseLine;
    assert (line + "\n")[..|line|] == line;
    FindFirst('\n', line + "\n", |line|);
  }
}
