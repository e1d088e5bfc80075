// How the states of items follow from the states of their dependencies.
module Evaluation {
  import opened Names
  import opened Traversal
  import opened Components

  datatype ItemState = Waiting | Ready | Running | Completed | Failed | DepFailed

  type States = map<string, ItemState>

  // The checked graph as an evaluator sees it.
  datatype Net = Net(deps: Graph, reverse: Graph, order: seq<string>)

  ghost predicate GoodNet(net: Net)
  {
    && NoUnknowns(net.deps)
    && ReverseMembers(net.deps, net.reverse)
    && Distinct(net.order)
    && (forall x :: x in net.order <==> x in net.deps)
    && Layered(net.deps, net.order)
  }

  ghost predicate Earlier(order: seq<string>, d: string, x: string)
  {
    d in order && x in order && IndexOf(order, d) < IndexOf(order, x)
  }

  // Every dependency stands earlier in the order.
  ghost predicate Layered(g: Graph, order: seq<string>)
  {
    forall x, d :: Edge(g, x, d) && d in g ==> Earlier(order, d, x)
  }

  lemma {:induction false} IndexOfFirst(s: seq<string>, x: string, j: nat)
    requires j < |s| && s[j] == x
    ensures x in s && IndexOf(s, x) <= j
  {
    if s[0] != x {
      IndexOfFirst(s[1..], x, j - 1);
    }
  }

  lemma {:induction false} IndexOfAppend(s: seq<string>, t: string, x: string)
    requires x in s
    ensures x in s + [t] && IndexOf(s + [t], x) == IndexOf(s, x)
  {
    if s[0] == x {
      assert (s + [t])[0] == x;
    } else {
      assert (s + [t])[1..] == s[1..] + [t] && (s + [t])[0] == s[0];
      IndexOfAppend(s[1..], t, x);
    }
  }

  lemma {:induction false} IndexOfLast(s: seq<string>, t: string)
    requires t !in s
    ensures t in s + [t] && IndexOf(s + [t], t) == |s|
  {
    if s != [] {
      assert (s + [t])[1..] == s[1..] + [t] && (s + [t])[0] == s[0];
      IndexOfLast(s[1..], t);
    }
  }

  // A topological order of the known nodes is layered.
  lemma TopologicalIsLayered(g: Graph, order: seq<string>)
    requires Topological(g, order) && forall x :: x in order <==> x in g
    ensures Layered(g, order)
  {
    forall x, d | Edge(g, x, d) && d in g
      ensures Earlier(order, d, x)
    {
      var i := IndexOf(order, x);
      assert d in order[..i];
      var j :| 0 <= j < i && order[j] == d;
      IndexOfFirst(order, d, j);
    }
  }

  // Propagate and KeepGoing are the two settings of propagate_failure.  Intended is the
  // second one as the comment at the head of DependencyEvaluator.hh describes it.
  datatype Mode = Propagate | KeepGoing | Intended

  predicate Bad(s: ItemState)
  {
    s == Failed || s == DepFailed
  }

  predicate Finished(s: ItemState)
  {
    s == Completed || Bad(s)
  }

  predicate SomeBad(st: States, deps: seq<string>)
    requires forall d :: d in deps ==> d in st
  {
    exists d :: d in deps && Bad(st[d])
  }

  // The loop over the dependencies leaves at the first failed one; an unfinished
  // dependency blocks the item only if the loop reaches it.
  predicate Blocked(st: States, deps: seq<string>)
    requires forall d :: d in deps ==> d in st
  {
    deps != [] && !Bad(st[deps[0]]) && (st[deps[0]] != Completed || Blocked(st, deps[1..]))
  }

  predicate SomeUnfinished(st: States, deps: seq<string>)
    requires forall d :: d in deps ==> d in st
  {
    exists d :: d in deps && !Finished(st[d])
  }

  predicate HeldBack(mode: Mode, st: States, deps: seq<string>)
    requires forall d :: d in deps ==> d in st
  {
    if mode == Intended then SomeUnfinished(st, deps) else Blocked(st, deps)
  }

  ghost predicate Fits(net: Net, st: States)
  {
    GoodNet(net) && st.Keys == net.deps.Keys
  }

  ghost function Pending(st: States): set<string>
  {
    set x | x in st && (st[x] == Waiting || st[x] == Ready)
  }

  ghost function RunningItems(st: States): set<string>
  {
    set x | x in st && st[x] == Running
  }

  lemma DepsKnown(net: Net, st: States, x: string)
    requires Fits(net, st) && x in st
    ensures x in net.deps && x in net.reverse
    ensures forall d :: d in net.deps[x] ==> d in st
    ensures forall y :: y in net.reverse[x] <==> y in net.deps && x in net.deps[y]
  {
    forall d | d in net.deps[x]
      ensures d in st
    {
      assert !Missing(net.deps, x, d);
    }
    forall y
      ensures y in net.reverse[x] <==> y in net.deps && x in net.deps[y]
    {
      assert y in net.reverse[x] <==> Edge(net.deps, y, x);
    }
  }

  // evaluate
  ghost function Evaluate(net: Net, mode: Mode, st: States, item: string): (r: States)
    requires Fits(net, st) && item in st
    ensures r.Keys == st.Keys && Pending(r) <= Pending(st)
    decreases Pending(st), 0, 0
  {
    DepsKnown(net, st, item);
    var deps := net.deps[item];
    if st[item] != Waiting && st[item] != Ready then st
    else if mode == Propagate && SomeBad(st, deps) then
      var s := st[item := DepFailed];
      assert Pending(s) < Pending(st) by {
        assert item in Pending(st) && item !in Pending(s);
      }
      EvaluateAll(net, mode, s, net.reverse[item])
    else if !HeldBack(mode, st, deps) then
      var s := st[item := Ready];
      assert Pending(s) == Pending(st);
      s
    else st
  }

  // evaluateReverseDependencies
  ghost function EvaluateAll(net: Net, mode: Mode, st: States, items: seq<string>): (r: States)
    requires Fits(net, st) && forall x :: x in items ==> x in st
    ensures r.Keys == st.Keys && Pending(r) <= Pending(st)
    decreases Pending(st), 1, |items|
  {
    if items == [] then st
    else EvaluateAll(net, mode, Evaluate(net, mode, st, items[0]), items[1..])
  }

  // The constructor
  ghost function Initial(net: Net): States
  {
    map x | x in net.deps :: if net.deps[x] == [] then Ready else Waiting
  }

  ghost function AfterRunning(st: States, item: string): States
  {
    st[item := Running]
  }

  // setCompleted and setFailed
  ghost function AfterResult(net: Net, mode: Mode, st: States, item: string, success: bool): (r: States)
    requires Fits(net, st) && item in st
    ensures r.Keys == st.Keys
  {
    DepsKnown(net, st, item);
    var s := st[item := if success then Completed else Failed];
    EvaluateAll(net, mode, s, net.reverse[item])
  }

  // ---------- What the states mean ----------

  // The state of x, unless it is waiting, is backed by the states of its dependencies.
  ghost predicate Justified(net: Net, mode: Mode, st: States, x: string)
    requires Fits(net, st) && x in st
  {
    DepsKnown(net, st, x);
    var deps := net.deps[x];
    match st[x]
    case Waiting => true
    case DepFailed => mode == Propagate && SomeBad(st, deps)
    case _ => !HeldBack(mode, st, deps) && (mode == Propagate ==> !SomeBad(st, deps))
  }

  // x is waiting only if there is something to wait for.
  ghost predicate UpToDate(net: Net, mode: Mode, st: States, x: string)
    requires Fits(net, st) && x in st
  {
    DepsKnown(net, st, x);
    var deps := net.deps[x];
    st[x] == Waiting ==> HeldBack(mode, st, deps) && (mode == Propagate ==> !SomeBad(st, deps))
  }

  ghost predicate Consistent(net: Net, mode: Mode, st: States)
  {
    Fits(net, st) && forall x :: x in st ==> Justified(net, mode, st, x) && UpToDate(net, mode, st, x)
  }

  // Consistent, except that the items in `dirty` may not have been re-evaluated yet.
  ghost predicate ConsistentBut(net: Net, mode: Mode, st: States, dirty: set<string>)
  {
    && Fits(net, st)
    && (forall x :: x in st ==> Justified(net, mode, st, x))
    && (forall x :: x in st && x !in dirty ==> UpToDate(net, mode, st, x))
  }

  // ---------- Scanning dependencies ----------

  lemma {:induction false} BlockedScan(st: States, deps: seq<string>)
    requires forall d :: d in deps ==> d in st
    ensures !SomeBad(st, deps) ==> (Blocked(st, deps) <==> exists d :: d in deps && st[d] != Completed)
    ensures Blocked(st, deps) ==> SomeUnfinished(st, deps)
  {
    if deps != [] {
      BlockedScan(st, deps[1..]);
      assert forall d :: d in deps <==> d == deps[0] || d in deps[1..];
    }
  }

  // A change that touches no completed or failed dependency and the way it can go.
  ghost predicate Advances(a: ItemState, b: ItemState)
  {
    a == b || (!Finished(a) && (b == Ready || b == Running || b == Completed || Bad(b)))
  }

  // Whatever was not blocked stays not blocked as its dependencies advance.
  lemma {:induction false} UnblockedStays(mode: Mode, s: States, t: States, deps: seq<string>)
    requires forall d :: d in deps ==> d in s && d in t && Advances(s[d], t[d])
    requires !HeldBack(mode, s, deps)
    ensures !HeldBack(mode, t, deps)
    ensures mode == Propagate && !SomeBad(s, deps) ==> !SomeBad(t, deps)
  {
    if mode == Intended {
    } else if deps != [] && !Bad(s[deps[0]]) {
      assert s[deps[0]] == Completed;
      UnblockedStays(mode, s, t, deps[1..]);
      if !SomeBad(s, deps) {
        assert !SomeBad(s, deps[1..]) by {
          assert forall d :: d in deps[1..] ==> d in deps;
        }
        assert forall d :: d in deps <==> d == deps[0] || d in deps[1..];
      }
    } else if deps != [] {
      assert deps[0] in deps;
    }
  }

  // Only the end of a dependency can release an item.
  lemma {:induction false} HeldStays(mode: Mode, s: States, t: States, deps: seq<string>)
    requires forall d :: d in deps ==> d in s && d in t && (s[d] == t[d] || (!Finished(s[d]) && !Finished(t[d])))
    ensures HeldBack(mode, s, deps) <==> HeldBack(mode, t, deps)
    ensures SomeBad(s, deps) <==> SomeBad(t, deps)
  {
    if mode != Intended && deps != [] {
      HeldStays(mode, s, t, deps[1..]);
    }
  }

  // ---------- The cascade ----------

  ghost predicate CascadeStep(s: States, t: States)
  {
    && t.Keys == s.Keys
    && (forall x :: x in s ==> t[x] == s[x] || (s[x] == Waiting && (t[x] == Ready || t[x] == DepFailed)))
  }

  lemma JustifiedStays(net: Net, mode: Mode, s: States, t: States, x: string)
    requires Fits(net, s) && Fits(net, t) && x in s
    requires forall y :: y in s ==> Advances(s[y], t[y])
    requires Justified(net, mode, s, x) && (t[x] == s[x] || (s[x] == Running && (t[x] == Completed || t[x] == Failed)))
    ensures Justified(net, mode, t, x)
  {
    DepsKnown(net, s, x);
    var deps := net.deps[x];
    if s[x] == DepFailed {
      var d :| d in deps && Bad(s[d]);
      assert Bad(t[d]);
    } else if s[x] != Waiting {
      UnblockedStays(mode, s, t, deps);
    }
  }

  lemma {:induction false} EvaluateKeeps(net: Net, mode: Mode, st: States, item: string, dirty: set<string>)
    requires ConsistentBut(net, mode, st, dirty + {item}) && item in st
    ensures var r := Evaluate(net, mode, st, item);
            ConsistentBut(net, mode, r, dirty) && CascadeStep(st, r)
    decreases Pending(st), 0, 0
  {
    DepsKnown(net, st, item);
    var deps := net.deps[item];
    if st[item] != Waiting && st[item] != Ready {
    } else if mode == Propagate && SomeBad(st, deps) {
      assert st[item] == Waiting;
      var s := st[item := DepFailed];
      assert item in Pending(st) && item !in Pending(s);
      assert Pending(s) < Pending(st);
      MarkDepFailed(net, mode, st, item, dirty);
      EvaluateAllKeeps(net, mode, s, net.reverse[item], dirty);
    } else if !HeldBack(mode, st, deps) {
      MarkReady(net, mode, st, item, dirty);
    }
  }

  lemma MarkDepFailed(net: Net, mode: Mode, st: States, item: string, dirty: set<string>)
    requires ConsistentBut(net, mode, st, dirty + {item}) && item in st && st[item] == Waiting
    requires mode == Propagate && (DepsKnown(net, st, item); SomeBad(st, net.deps[item]))
    ensures item in net.reverse && (forall x :: x in net.reverse[item] ==> x in st)
    ensures ConsistentBut(net, mode, st[item := DepFailed], dirty + Members(net.reverse[item]))
  {
    DepsKnown(net, st, item);
    var s := st[item := DepFailed];
    forall x | x in s
      ensures Justified(net, mode, s, x)
    {
      if x == item {
        var d :| d in net.deps[item] && Bad(st[d]);
        assert Bad(s[d]);
      } else {
        JustifiedStays(net, mode, st, s, x);
      }
    }
    forall x | x in s && x !in dirty + Members(net.reverse[item])
      ensures UpToDate(net, mode, s, x)
    {
      if x != item {
        DepsKnown(net, st, x);
        assert x !in net.reverse[item];
        assert UpToDate(net, mode, st, x);
        HeldStays(mode, st, s, net.deps[x]);
      }
    }
  }

  lemma MarkReady(net: Net, mode: Mode, st: States, item: string, dirty: set<string>)
    requires ConsistentBut(net, mode, st, dirty + {item}) && item in st && (st[item] == Waiting || st[item] == Ready)
    requires (DepsKnown(net, st, item);
              !HeldBack(mode, st, net.deps[item]) && (mode == Propagate ==> !SomeBad(st, net.deps[item])))
    ensures ConsistentBut(net, mode, st[item := Ready], dirty)
  {
    var s := st[item := Ready];
    forall x | x in s
      ensures Justified(net, mode, s, x)
      ensures x !in dirty ==> UpToDate(net, mode, s, x)
    {
      DepsKnown(net, st, x);
      HeldStays(mode, st, s, net.deps[x]);
      assert Justified(net, mode, st, x);
    }
  }

  lemma {:induction false} EvaluateAllKeeps(net: Net, mode: Mode, st: States, items: seq<string>, dirty: set<string>)
    requires ConsistentBut(net, mode, st, dirty + Members(items)) && forall x :: x in items ==> x in st
    ensures var r := EvaluateAll(net, mode, st, items);
            ConsistentBut(net, mode, r, dirty) && CascadeStep(st, r)
    decreases Pending(st), 1, |items|
  {
    if items == [] {
      assert dirty + Members(items) == dirty;
    } else {
      var rest := dirty + Members(items[1..]);
      assert dirty + Members(items) == rest + {items[0]} by {
        assert forall x :: x in items <==> x == items[0] || x in items[1..];
      }
      EvaluateKeeps(net, mode, st, items[0], rest);
      EvaluateAllKeeps(net, mode, Evaluate(net, mode, st, items[0]), items[1..], dirty);
    }
  }

  // ---------- Every public call keeps the states consistent ----------

  lemma InitialConsistent(net: Net, mode: Mode)
    requires GoodNet(net)
    ensures Consistent(net, mode, Initial(net))
    ensures RunningItems(Initial(net)) == {}
  {
    var st := Initial(net);
    forall x | x in st
      ensures Justified(net, mode, st, x) && UpToDate(net, mode, st, x)
    {
      DepsKnown(net, st, x);
      var deps := net.deps[x];
      if deps != [] {
        assert deps[0] in deps;
      }
    }
  }

  lemma RunningKeeps(net: Net, mode: Mode, st: States, item: string)
    requires Consistent(net, mode, st) && item in st && st[item] == Ready
    ensures Consistent(net, mode, AfterRunning(st, item))
  {
    var s := AfterRunning(st, item);
    forall x | x in s
      ensures Justified(net, mode, s, x) && UpToDate(net, mode, s, x)
    {
      DepsKnown(net, st, x);
      HeldStays(mode, st, s, net.deps[x]);
      assert Justified(net, mode, st, x) && UpToDate(net, mode, st, x);
    }
  }

  lemma MarkResult(net: Net, mode: Mode, st: States, item: string, s: States)
    requires Consistent(net, mode, st) && item in st && st[item] == Running
    requires s == st[item := Completed] || s == st[item := Failed]
    ensures item in net.reverse && (forall x :: x in net.reverse[item] ==> x in st)
    ensures ConsistentBut(net, mode, s, {} + Members(net.reverse[item]))
  {
    DepsKnown(net, st, item);
    forall x | x in s
      ensures Justified(net, mode, s, x)
    {
      JustifiedStays(net, mode, st, s, x);
    }
    forall x | x in s && x !in {} + Members(net.reverse[item])
      ensures UpToDate(net, mode, s, x)
    {
      DepsKnown(net, st, x);
      assert UpToDate(net, mode, st, x);
      HeldStays(mode, st, s, net.deps[x]);
    }
  }

  lemma ResultKeeps(net: Net, mode: Mode, st: States, item: string, success: bool)
    requires Consistent(net, mode, st) && item in st && st[item] == Running
    ensures var r := AfterResult(net, mode, st, item, success);
            && Consistent(net, mode, r)
            && r[item] == (if success then Completed else Failed)
            && (forall x :: x in st && x != item ==>
                  r[x] == st[x] || (st[x] == Waiting && (r[x] == Ready || r[x] == DepFailed)))
  {
    hide SomeBad, HeldBack, Justified, UpToDate;
    var s := st[item := if success then Completed else Failed];
    MarkResult(net, mode, st, item, s);
    EvaluateAllKeeps(net, mode, s, net.reverse[item], {});
  }

  // ---------- Propagating failures: the states are exactly right ----------

  // y is among the direct or indirect dependencies of x.
  ghost predicate DependsOn(g: Graph, x: string, y: string)
  {
    x in g && exists d :: d in g[x] && Reaches(g, d, y)
  }

  lemma {:induction false} EarlierInOrder(net: Net, x: string, d: string)
    requires GoodNet(net) && x in net.deps && d in net.deps[x] && d in net.deps
    ensures d in net.order && x in net.order && IndexOf(net.order, d) < IndexOf(net.order, x)
  {
    assert Edge(net.deps, x, d);
    assert Earlier(net.order, d, x);
  }

  lemma {:induction false} DepFailedHasCause(net: Net, st: States, x: string)
    requires Consistent(net, Propagate, st) && x in st && st[x] == DepFailed
    ensures exists y :: y in st && st[y] == Failed && DependsOn(net.deps, x, y)
    decreases IndexOf(net.order, x)
  {
    DepsKnown(net, st, x);
    assert Justified(net, Propagate, st, x);
    var d :| d in net.deps[x] && Bad(st[d]);
    ReachesSelf(net.deps, d);
    if st[d] == Failed {
      assert DependsOn(net.deps, x, d);
    } else {
      EarlierInOrder(net, x, d);
      DepFailedHasCause(net, st, d);
      var y :| y in st && st[y] == Failed && DependsOn(net.deps, d, y);
      var e :| e in net.deps[d] && Reaches(net.deps, e, y);
      var p :| Walk(net.deps, p, e, y);
      assert e in net.deps by { assert p[0] in net.deps; }
      ExtendWalk(net.deps, d, d, e);
      ReachesTransitive(net.deps, d, e, y);
      assert DependsOn(net.deps, x, y);
    }
  }

  lemma {:induction false} FailureReachesAlong(net: Net, st: States, x: string, p: seq<string>, d: string, y: string)
    requires Consistent(net, Propagate, st) && x in st && y in st && st[y] == Failed
    requires d in net.deps[x] && Walk(net.deps, p, d, y)
    ensures st[x] == DepFailed
    decreases |p|
  {
    DepsKnown(net, st, x);
    if |p| == 1 {
      assert d == y;
    } else {
      assert p[1] in net.deps[p[0]];
      ChainTail(net.deps, p);
      assert Walk(net.deps, p[1..], p[1], y);
      FailureReachesAlong(net, st, d, p[1..], p[1], y);
    }
    assert SomeBad(st, net.deps[x]);
    assert Justified(net, Propagate, st, x) && UpToDate(net, Propagate, st, x);
  }

  // With propagation, the dependency-failed items are exactly those that depend,
  // directly or not, on a failed item.
  lemma DepFailedExact(net: Net, st: States, x: string)
    requires Consistent(net, Propagate, st) && x in st
    ensures st[x] == DepFailed <==> exists y :: y in st && st[y] == Failed && DependsOn(net.deps, x, y)
  {
    if st[x] == DepFailed {
      DepFailedHasCause(net, st, x);
    }
    if y :| y in st && st[y] == Failed && DependsOn(net.deps, x, y) {
      var d :| d in net.deps[x] && Reaches(net.deps, d, y);
      var p :| Walk(net.deps, p, d, y);
      FailureReachesAlong(net, st, x, p, d, y);
    }
  }

  // The other states say of direct dependencies what the header promises.
  lemma DirectStatesExact(net: Net, st: States, x: string)
    requires Consistent(net, Propagate, st) && x in st
    ensures x in net.deps && (forall d :: d in net.deps[x] ==> d in st)
    ensures st[x] in {Ready, Running, Completed, Failed} <==> (forall d :: d in net.deps[x] ==> st[d] == Completed)
    ensures st[x] == Waiting <==>
              (exists d :: d in net.deps[x] && !Finished(st[d])) && (forall d :: d in net.deps[x] ==> !Bad(st[d]))
  {
    DepsKnown(net, st, x);
    BlockedScan(st, net.deps[x]);
    assert Justified(net, Propagate, st, x) && UpToDate(net, Propagate, st, x);
  }

  // Whoever was started has only completed items below it.
  lemma {:induction false} StartedHasCompletedBelow(
      net: Net, st: States, x: string, d: string, p: seq<string>, y: string)
    requires Consistent(net, Propagate, st) && x in st && st[x] in {Ready, Running, Completed, Failed}
    requires d in net.deps[x] && Walk(net.deps, p, d, y)
    ensures y in st && st[y] == Completed
    decreases |p|
  {
    DirectStatesExact(net, st, x);
    if |p| > 1 {
      assert p[1] in net.deps[p[0]];
      ChainTail(net.deps, p);
      assert Walk(net.deps, p[1..], p[1], y);
      StartedHasCompletedBelow(net, st, d, p[1], p[1..], y);
    }
  }

  lemma StartedBelowCompleted(net: Net, st: States, x: string, y: string)
    requires Consistent(net, Propagate, st) && x in st && st[x] in {Ready, Running, Completed, Failed}
    requires DependsOn(net.deps, x, y)
    ensures y in st && st[y] == Completed
  {
    var d :| d in net.deps[x] && Reaches(net.deps, d, y);
    var p :| Walk(net.deps, p, d, y);
    StartedHasCompletedBelow(net, st, x, d, p, y);
  }

  // ---------- Without propagation ----------

  // The dependencies before position n are completed, and the one at n, if any, failed.
  ghost predicate CutAt(st: States, deps: seq<string>, n: int)
    requires forall d :: d in deps ==> d in st
  {
    && 0 <= n <= |deps|
    && (forall k :: 0 <= k < n ==> st[deps[k]] == Completed)
    && (n < |deps| ==> Bad(st[deps[n]]))
  }

  // Every dependency listed before the first failed one is completed.
  ghost predicate CompletedUpToFailure(st: States, deps: seq<string>)
    requires forall d :: d in deps ==> d in st
  {
    exists n :: CutAt(st, deps, n)
  }

  lemma {:induction false} UnblockedMeans(st: States, deps: seq<string>)
    requires forall d :: d in deps ==> d in st
    ensures !Blocked(st, deps) <==> CompletedUpToFailure(st, deps)
  {
    if deps == [] || Bad(st[deps[0]]) {
      assert CutAt(st, deps, 0);
    } else {
      UnblockedMeans(st, deps[1..]);
      if !Blocked(st, deps) {
        var n :| CutAt(st, deps[1..], n);
        assert CutAt(st, deps, n + 1);
      }
      if n :| CutAt(st, deps, n) {
        assert n > 0 && CutAt(st, deps[1..], n - 1);
      }
    }
  }

  // What the code guarantees when failures do not propagate.
  lemma KeepGoingExact(net: Net, st: States, x: string)
    requires Consistent(net, KeepGoing, st) && x in st
    ensures x in net.deps && (forall d :: d in net.deps[x] ==> d in st)
    ensures st[x] != DepFailed
    ensures st[x] != Waiting <==> CompletedUpToFailure(st, net.deps[x])
  {
    DepsKnown(net, st, x);
    UnblockedMeans(st, net.deps[x]);
    assert Justified(net, KeepGoing, st, x) && UpToDate(net, KeepGoing, st, x);
  }

  // What the header says, and what the loop would do if it left at a failed dependency
  // only when propagating: an item waits until all its dependencies have finished.
  lemma IntendedExact(net: Net, st: States, x: string)
    requires Consistent(net, Intended, st) && x in st
    ensures x in net.deps && (forall d :: d in net.deps[x] ==> d in st)
    ensures st[x] != DepFailed
    ensures st[x] != Waiting <==> (forall d :: d in net.deps[x] ==> st[d] == Completed || st[d] == Failed)
  {
    DepsKnown(net, st, x);
    assert Justified(net, Intended, st, x) && UpToDate(net, Intended, st, x);
    forall d | d in net.deps[x]
      ensures st[d] != DepFailed
    {
      assert Justified(net, Intended, st, d);
    }
  }

  // The written loop and the described one release an item at the same moment unless an
  // unfinished dependency is listed after a failed one, with only completed ones before that.
  ghost predicate UnfinishedAfterFailure(st: States, deps: seq<string>)
    requires forall d :: d in deps ==> d in st
  {
    exists i, j :: CutAt(st, deps, i) && i < j < |deps| && !Finished(st[deps[j]])
  }

  lemma HeaderClaimExact(st: States, deps: seq<string>)
    requires forall d :: d in deps ==> d in st
    ensures (Blocked(st, deps) <==> SomeUnfinished(st, deps)) <==> !UnfinishedAfterFailure(st, deps)
  {
    BlockedScan(st, deps);
    UnblockedMeans(st, deps);
    if SomeUnfinished(st, deps) && !Blocked(st, deps) {
      var n :| CutAt(st, deps, n);
      var d :| d in deps && !Finished(st[d]);
      var j :| 0 <= j < |deps| && deps[j] == d;
      assert n < j;
    }
    if UnfinishedAfterFailure(st, deps) {
      var i, j :| CutAt(st, deps, i) && i < j < |deps| && !Finished(st[deps[j]]);
      assert deps[j] in deps;
    }
  }

  // An item that has not been started is ready once its dependencies are completed.
  lemma CompletedMakeReady(net: Net, mode: Mode, st: States, x: string)
    requires mode != Intended && Consistent(net, mode, st) && x in st && x in net.deps
    requires st[x] !in {Running, Completed, Failed}
    requires forall d :: d in net.deps[x] ==> d in st && st[d] == Completed
    ensures st[x] == Ready
  {
    hide Consistent;
    if mode == Propagate {
      DirectStatesExact(net, st, x);
    } else {
      KeepGoingExact(net, st, x);
      assert CutAt(st, net.deps[x], |net.deps[x]|);
    }
  }

  // Its dependencies stand before an item in the order.
  lemma DependencyBefore(net: Net, k: nat, d: string)
    requires GoodNet(net) && k < |net.order| && net.order[k] in net.deps && d in net.deps[net.order[k]]
    ensures exists i :: 0 <= i < k && net.order[i] == d
  {
    assert !Missing(net.deps, net.order[k], d);
    EarlierInOrder(net, net.order[k], d);
    IndexOfFirst(net.order, net.order[k], k);
  }

  // ---------- Nothing is left waiting when nothing is going on ----------

  lemma {:induction false} NothingWaits(net: Net, mode: Mode, st: States, x: string)
    requires Consistent(net, mode, st) && x in st
    requires forall y :: y in st ==> st[y] != Ready && st[y] != Running
    ensures st[x] != Waiting
    decreases IndexOf(net.order, x)
  {
    hide Layered, ReverseMembers, NoUnknowns, Distinct, Justified;
    if st[x] == Waiting {
      DepsKnown(net, st, x);
      BlockedScan(st, net.deps[x]);
      assert UpToDate(net, mode, st, x);
      var d :| d in net.deps[x] && !Finished(st[d]);
      EarlierInOrder(net, x, d);
      NothingWaits(net, mode, st, d);
    }
  }

  // ---------- The header's claim fails without propagation ----------

  ghost const FORK: Net := Net(map["a" := [], "b" := [], "x" := ["a", "b"]],
                               map["a" := ["x"], "b" := ["x"], "x" := []],
                               ["a", "b", "x"])

  lemma ForkIsLayered()
    ensures Layered(FORK.deps, FORK.order) && NoUnknowns(FORK.deps)
  {
    assert forall a, b :: Edge(FORK.deps, a, b) ==> a == "x" && (b == "a" || b == "b");
    assert FORK.order[1..] == ["b", "x"] && FORK.order[1..][1..] == ["x"];
    assert Earlier(FORK.order, "a", "x") && Earlier(FORK.order, "b", "x");
  }

  lemma ForkIsGood()
    ensures GoodNet(FORK)
  {
    hide Layered, NoUnknowns;
    ForkIsLayered();
  }

  // x depends on a and b, in this order.  When a fails while b is still being built,
  // x becomes ready, although the header makes it wait for b.
  lemma HeaderClaimFails()
    ensures GoodNet(FORK)
    ensures var st0 := Initial(FORK);
            && "a" in st0 && st0["a"] == Ready && "b" in st0 && st0["b"] == Ready
            && Fits(FORK, st0)
            && (var st := AfterResult(FORK, KeepGoing, AfterRunning(AfterRunning(st0, "a"), "b"), "a", false);
                "x" in st && "b" in st && st["x"] == Ready && st["b"] == Running)
  {
    ForkIsGood();
    InitialConsistent(FORK, KeepGoing);
    var st0 := Initial(FORK);
    RunningKeeps(FORK, KeepGoing, st0, "a");
    var st1 := AfterRunning(st0, "a");
    RunningKeeps(FORK, KeepGoing, st1, "b");
    var st2 := AfterRunning(st1, "b");
    ResultKeeps(FORK, KeepGoing, st2, "a", false);
    var st := AfterResult(FORK, KeepGoing, st2, "a", false);
    KeepGoingExact(FORK, st, "x");
    assert CutAt(st, FORK.deps["x"], 0);
  }
}
