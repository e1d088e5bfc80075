// Which graphs keep the promise made at the head of DependencyEvaluator.hh for failures that
// do not propagate, whatever the order in which items are started and finish.
module EvaluatorRuns {
  import opened Names
  import opened Traversal
  import opened Evaluation

  // The calls a user of the evaluator makes.
  datatype Call = Begin(item: string) | End(item: string, ok: bool)

  // Ready items are started, and running ones finish.
  ghost predicate Allowed(st: States, call: Call)
  {
    call.item in st && st[call.item] == (if call.Begin? then Ready else Running)
  }

  ghost function After(net: Net, mode: Mode, st: States, call: Call): States
    requires Fits(net, st) && call.item in st
  {
    match call
    case Begin(item) => AfterRunning(st, item)
    case End(item, ok) => AfterResult(net, mode, st, item, ok)
  }

  // The states after some calls, if all of them were allowed.
  ghost predicate Reached(net: Net, mode: Mode, calls: seq<Call>, st: States)
    decreases |calls|
  {
    if calls == [] then GoodNet(net) && st == Initial(net)
    else
      var n := |calls| - 1;
      exists before: States ::
        && Reached(net, mode, calls[..n], before)
        && Fits(net, before) && Allowed(before, calls[n]) && st == After(net, mode, before, calls[n])
  }

  lemma {:induction false} ReachedIsConsistent(net: Net, mode: Mode, calls: seq<Call>, st: States)
    requires Reached(net, mode, calls, st)
    ensures Consistent(net, mode, st)
    decreases |calls|
  {
    hide Consistent, AfterResult, AfterRunning, Initial;
    if calls == [] {
      InitialConsistent(net, mode);
    } else {
      var n := |calls| - 1;
      var before: States :| Reached(net, mode, calls[..n], before) && Fits(net, before)
                            && Allowed(before, calls[n]) && st == After(net, mode, before, calls[n]);
      ReachedIsConsistent(net, mode, calls[..n], before);
      match calls[n]
      case Begin(item) => RunningKeeps(net, mode, before, item);
      case End(item, ok) => ResultKeeps(net, mode, before, item, ok);
    }
  }

  lemma ReachedNext(net: Net, mode: Mode, calls: seq<Call>, st: States, call: Call)
    requires Reached(net, mode, calls, st) && Fits(net, st) && Allowed(st, call)
    ensures Reached(net, mode, calls + [call], After(net, mode, st, call))
  {
    assert (calls + [call])[..|calls|] == calls;
  }

  // ---------- The promise and the condition ----------

  // An item waits until all its dependencies have finished, whether they failed or not.
  ghost predicate WaitsForAll(net: Net, st: States)
  {
    forall x, d :: x in st && st[x] != Waiting && Edge(net.deps, x, d) ==> d in st && Finished(st[d])
  }

  ghost predicate PromiseKept(net: Net)
  {
    forall calls, st :: Reached(net, KeepGoing, calls, st) ==> WaitsForAll(net, st)
  }

  // Whatever an item depends on is the first dependency listed, or below it.
  ghost predicate FirstIsLast(net: Net)
  {
    forall x, d :: Edge(net.deps, x, d) ==> d == net.deps[x][0] || DependsOn(net.deps, net.deps[x][0], d)
  }

  // ---------- The condition is enough ----------

  lemma ReachesIsDepends(g: Graph, a: string, b: string)
    requires Reaches(g, a, b) && a != b
    ensures DependsOn(g, a, b)
  {
    var p :| Walk(g, p, a, b);
    assert p[1] in g[p[0]];
    ChainTail(g, p);
    assert Walk(g, p[1..], p[1], b);
  }

  lemma DependsTransitive(g: Graph, a: string, b: string, c: string)
    requires DependsOn(g, a, b) && Reaches(g, b, c)
    ensures DependsOn(g, a, c)
  {
    hide Reaches;
    var d :| d in g[a] && Reaches(g, d, b);
    ReachesTransitive(g, d, b, c);
  }

  lemma FirstIsFinished(net: Net, st: States, x: string)
    requires Consistent(net, KeepGoing, st) && x in st && st[x] != Waiting && x in net.deps && net.deps[x] != []
    ensures net.deps[x][0] in st && Finished(st[net.deps[x][0]])
  {
    hide Consistent;
    KeepGoingExact(net, st, x);
    var n :| CutAt(st, net.deps[x], n);
    assert net.deps[x][0] in net.deps[x];
  }

  lemma {:induction false} BelowIsFinished(net: Net, st: States, x: string, d: string)
    requires Consistent(net, KeepGoing, st) && FirstIsLast(net)
    requires x in st && x in net.deps && st[x] != Waiting && DependsOn(net.deps, x, d)
    ensures d in st && Finished(st[d])
    decreases IndexOf(net.order, x)
  {
    hide Consistent, Reaches;
    ConsistentIsGood(net, st);
    var e :| e in net.deps[x] && Reaches(net.deps, e, d);
    var f := net.deps[x][0];
    FirstIsFinished(net, st, x);
    assert Edge(net.deps, x, e);
    if e != f {
      DependsTransitive(net.deps, f, e, d);
    } else if d != f {
      ReachesIsDepends(net.deps, f, d);
    }
    if d != f {
      EarlierInOrder(net, x, f);
      BelowIsFinished(net, st, f, d);
    }
  }

  lemma ConsistentIsGood(net: Net, st: States)
    requires Consistent(net, KeepGoing, st)
    ensures GoodNet(net) && st.Keys == net.deps.Keys && (forall x :: x in net.order <==> x in net.deps)
  {
  }

  lemma ConsistentWaits(net: Net, st: States)
    requires Consistent(net, KeepGoing, st) && FirstIsLast(net)
    ensures WaitsForAll(net, st)
  {
    hide Consistent;
    ConsistentIsGood(net, st);
    forall x, d | x in st && st[x] != Waiting && Edge(net.deps, x, d)
      ensures d in st && Finished(st[d])
    {
      assert !Missing(net.deps, x, d);
      ReachesSelf(net.deps, d);
      BelowIsFinished(net, st, x, d);
    }
  }

  // ---------- It is needed ----------

  // Of the first k items of the order those below f are completed; no other item is started.
  ghost predicate OnlyBelow(net: Net, st: States, f: string, k: nat)
  {
    && Consistent(net, KeepGoing, st) && k <= |net.order|
    && (forall i :: 0 <= i < |net.order| ==> net.order[i] in st)
    && (forall i :: 0 <= i < k && DependsOn(net.deps, f, net.order[i]) ==> st[net.order[i]] == Completed)
    && (forall i :: 0 <= i < |net.order| && (i >= k || !DependsOn(net.deps, f, net.order[i])) ==>
          st[net.order[i]] in {Waiting, Ready})
  }

  // Starting a ready item and having it finish.
  lemma CallItem(net: Net, calls: seq<Call>, st: States, x: string, ok: bool) returns (calls': seq<Call>, r: States)
    requires Reached(net, KeepGoing, calls, st) && x in st && st[x] == Ready
    ensures Reached(net, KeepGoing, calls', r) && Consistent(net, KeepGoing, r)
    ensures r.Keys == st.Keys && r[x] == (if ok then Completed else Failed)
    ensures forall y :: y in st && y != x ==> r[y] == st[y] || (st[y] == Waiting && r[y] == Ready)
  {
    hide Reached, Consistent, AfterResult;
    ReachedIsConsistent(net, KeepGoing, calls, st);
    ConsistentIsGood(net, st);
    RunningKeeps(net, KeepGoing, st, x);
    var s := AfterRunning(st, x);
    ConsistentFits(net, st);
    ConsistentFits(net, s);
    ResultKeeps(net, KeepGoing, s, x, ok);
    r := AfterResult(net, KeepGoing, s, x, ok);
    assert Allowed(st, Begin(x)) && Allowed(s, End(x, ok));
    ReachedNext(net, KeepGoing, calls, st, Begin(x));
    ReachedNext(net, KeepGoing, calls + [Begin(x)], s, End(x, ok));
    calls' := calls + [Begin(x)] + [End(x, ok)];
    forall y | y in st && y != x
      ensures r[y] == st[y] || (st[y] == Waiting && r[y] == Ready)
    {
      KeepGoingExact(net, r, y);
    }
  }

  lemma ConsistentFits(net: Net, st: States)
    requires Consistent(net, KeepGoing, st)
    ensures Fits(net, st)
  {
  }

  lemma BelowIsReady(net: Net, st: States, f: string, k: nat)
    requires OnlyBelow(net, st, f, k) && k < |net.order|
    requires DependsOn(net.deps, f, net.order[k]) || net.order[k] == f
    ensures st[net.order[k]] == Ready
  {
    hide Consistent, DependsOn, Reaches;
    ConsistentIsGood(net, st);
    var x := net.order[k];
    assert x in net.order;
    forall d | d in net.deps[x]
      ensures d in st && st[d] == Completed
    {
      DependencyBefore(net, k, d);
      BelowBelow(net, f, x, d);
    }
    CompletedMakeReady(net, KeepGoing, st, x);
  }

  lemma BelowBelow(net: Net, f: string, x: string, d: string)
    requires GoodNet(net) && (DependsOn(net.deps, f, x) || x == f) && x in net.deps && d in net.deps[x]
    ensures DependsOn(net.deps, f, d)
  {
    assert !Missing(net.deps, x, d);
    ReachesSelf(net.deps, d);
    if x != f {
      assert Walk(net.deps, [x, d], x, d);
      DependsTransitive(net.deps, f, x, d);
    }
  }

  lemma {:induction false} DoBelow(net: Net, f: string, k: nat) returns (calls: seq<Call>, st: States)
    requires GoodNet(net) && k <= |net.order|
    ensures Reached(net, KeepGoing, calls, st) && OnlyBelow(net, st, f, k)
  {
    hide GoodNet, Consistent, DependsOn, Reached, Initial;
    if k == 0 {
      calls, st := [], Initial(net);
      NothingDone(net, f);
    } else {
      calls, st := DoBelow(net, f, k - 1);
      var x := net.order[k - 1];
      if DependsOn(net.deps, f, x) {
        BelowIsReady(net, st, f, k - 1);
        ghost var before := st;
        calls, st := CallItem(net, calls, st, x, true);
        OnceInOrder(net, k - 1);
      }
    }
  }

  lemma NothingDone(net: Net, f: string)
    requires GoodNet(net)
    ensures Reached(net, KeepGoing, [], Initial(net)) && OnlyBelow(net, Initial(net), f, 0)
  {
    InitialConsistent(net, KeepGoing);
  }

  lemma OnceInOrder(net: Net, k: nat)
    requires GoodNet(net) && k < |net.order|
    ensures forall i :: 0 <= i < |net.order| && i != k ==> net.order[i] != net.order[k]
  {
  }

  // When everything below the first dependency is done and that one fails, the item is
  // released, while d has not been started.
  lemma PromiseBroken(net: Net, x: string, d: string) returns (calls: seq<Call>, st: States)
    requires GoodNet(net) && Edge(net.deps, x, d)
    requires d != net.deps[x][0] && !DependsOn(net.deps, net.deps[x][0], d)
    ensures Reached(net, KeepGoing, calls, st) && x in st && d in st
    ensures st[x] != Waiting && !Finished(st[d])
  {
    hide GoodNet, Consistent, DependsOn, Reached;
    var f := net.deps[x][0];
    InNet(net, x, f);
    InNet(net, x, d);
    var i :| 0 <= i < |net.order| && net.order[i] == d;
    var k :| 0 <= k < |net.order| && net.order[k] == f;
    calls, st := DoBelow(net, f, k);
    ConsistentIsGood(net, st);
    BelowIsReady(net, st, f, k);
    calls, st := CallItem(net, calls, st, f, false);
    KeepGoingExact(net, st, x);
    assert CutAt(st, net.deps[x], 0);
  }

  lemma InNet(net: Net, x: string, d: string)
    requires GoodNet(net) && Edge(net.deps, x, d)
    ensures d in net.deps && d in net.order && x in net.order
  {
    assert !Missing(net.deps, x, d);
  }

  // The loop as written keeps the promise, whatever happens, on exactly those graphs in
  // which the first dependency of every item stands on all its other ones.
  lemma PromiseExact(net: Net)
    requires GoodNet(net)
    ensures PromiseKept(net) <==> FirstIsLast(net)
  {
    hide GoodNet, Consistent, DependsOn, Reached;
    if FirstIsLast(net) {
      forall calls, st | Reached(net, KeepGoing, calls, st)
        ensures WaitsForAll(net, st)
      {
        ReachedIsConsistent(net, KeepGoing, calls, st);
        ConsistentWaits(net, st);
      }
    } else {
      var x, d :| Edge(net.deps, x, d) && d != net.deps[x][0] && !DependsOn(net.deps, net.deps[x][0], d);
      var calls, st := PromiseBroken(net, x, d);
    }
  }
}
