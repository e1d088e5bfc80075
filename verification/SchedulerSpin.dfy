// Stopping at the first error: under which setups the main thread can loop for ever, and how.
module SchedulerSpin {
  import opened Names
  import opened Options
  import opened Traversal
  import opened Evaluation
  import opened Scheduler
  import opened SchedulerInvariant
  import opened SchedulerHistory
  import opened SchedulerRuns
  import opened SchedulerProgress
  import opened SchedulerTermination

  // The failure of one of the items does not keep the other one from being ready.
  ghost predicate Apart(u: Setup, x: string, y: string)
  {
    && x in u.net.deps && y in u.net.deps && x != y
    && (u.mode == Propagate ==> !DependsOn(u.net.deps, x, y) && !DependsOn(u.net.deps, y, x))
  }

  ghost predicate CanSpin(u: Setup)
  {
    u.stopOnError && u.count >= 2 && exists x, y :: Apart(u, x, y)
  }

  // ---------- Spinning takes such a setup ----------

  lemma SpinningNeeds(u: Setup, c: Config)
    requires Inv(u, c) && Typed(u, c) && Spinning(u, c)
    ensures CanSpin(u)
  {
    hide Shaped, FlightExact, LogExact, LogOrdered, DependsOn, Consistent;
    var x :| x in c.states && c.states[x] == Failed;
    var y := NextReady(u, c).value;
    if u.mode == Propagate && DependsOn(u.net.deps, x, y) {
      StartedBelowCompleted(u.net, c.states, x, y);
    }
    if u.mode == Propagate && DependsOn(u.net.deps, y, x) {
      StartedBelowCompleted(u.net, c.states, y, x);
    }
    assert Apart(u, x, y);
  }

  // Every other setup returns, however unfair the schedule: with one worker, for example.
  lemma ReturnsUnlessCanSpin(u: Setup, run: nat -> Config, act: nat -> Action)
    requires Schedule(u, run, act) && !CanSpin(u)
    ensures exists n: nat :: run(n).main.Returned?
  {
    hide Schedule, Shaped, Typed, Inv, CanSpin, Spinning;
    forall j: nat
      ensures !SpinsAt(u, run, j)
    {
      InvAt(u, run, act, j);
      if SpinsAt(u, run, j) {
        SpinningNeeds(u, run(j));
      }
    }
    NoSpinReturnsFrom(u, run, act, 0);
  }

  // ---------- A run in which one worker does everything ----------

  lemma MainReaches(u: Setup, c: Config)
    requires Reachable(u, c) && Typed(u, c) && MainEnabled(u, c)
    ensures Reachable(u, MainStep(u, c)) && Typed(u, MainStep(u, c))
  {
    hide Reachable, Typed, MainStep, MainEnabled;
    assert IsStep(u, c, Main, MainStep(u, c));
    ReachableStep(u, c, Main, MainStep(u, c));
    ReachableInv(u, MainStep(u, c));
  }

  lemma WorkReaches(u: Setup, c: Config, w: nat, ok: bool)
    requires Reachable(u, c) && Typed(u, c) && WorkerEnabled(u, c, w)
    ensures Reachable(u, WorkerStep(u, c, w, ok)) && Typed(u, WorkerStep(u, c, w, ok))
  {
    hide Reachable, Typed, WorkerStep, WorkerEnabled;
    assert IsStep(u, c, Work(w, ok), WorkerStep(u, c, w, ok));
    ReachableStep(u, c, Work(w, ok), WorkerStep(u, c, w, ok));
    ReachableInv(u, WorkerStep(u, c, w, ok));
  }

  // Worker 0 is the only one that has registered; the main thread is at pc.
  ghost predicate Alone(u: Setup, c: Config, pc: MainPc, k: Worker, available: seq<nat>)
  {
    && Reachable(u, c) && Typed(u, c) && u.count >= 2 && !c.shutdown
    && c.main == pc && c.workers[0] == k && c.available == available
  }

  lemma FirstStep(u: Setup) returns (c: Config)
    requires GoodSetup(u) && u.count >= 2 && FirstReady(u.net.order, Initial(u.net)).Some?
    ensures Alone(u, c, Draining, Worker(Idle, []), [0])
    ensures c.states == Initial(u.net) && c.results == [] && !c.stop
  {
    hide Reachable, GoodNet, FirstReady;
    InitialReachable(u);
    ReachableInv(u, InitialConfig(u));
    c := InitialConfig(u);
    WorkReaches(u, c, 0, true);
    c := WorkerStep(u, c, 0, true);
    MainReaches(u, c);
    c := MainStep(u, c);
    MainReaches(u, c);
    c := MainStep(u, c);
  }

  // The main thread hands x to worker 0.
  lemma GiveItem(u: Setup, c: Config, x: string) returns (d: Config)
    requires Alone(u, c, Draining, Worker(Idle, []), [0]) && c.results == [] && !c.stop
    requires NextReady(u, c) == Some(x)
    ensures Alone(u, d, Offering, Worker(Idle, [Item(x)]), [])
    ensures d.states == AfterRunning(c.states, x) && d.results == [] && !d.stop
  {
    hide Reachable, GoodSetup, Fits, FirstReady, AfterRunning;
    MainReaches(u, c);
    d := MainStep(u, c);
    MainReaches(u, d);
    d := MainStep(u, d);
    MainReaches(u, d);
    d := MainStep(u, d);
    MainReaches(u, d);
    d := MainStep(u, d);
  }

  // Worker 0 calls the method and reports.
  lemma DoItem(u: Setup, c: Config, x: string, ok: bool) returns (d: Config)
    requires Alone(u, c, Offering, Worker(Idle, [Item(x)]), []) && c.results == [] && !c.stop
    ensures Alone(u, d, Offering, Worker(Idle, []), [0])
    ensures d.states == c.states && d.results == [(x, ok)] && !d.stop
  {
    hide Reachable, GoodSetup, Fits;
    WorkReaches(u, c, 0, ok);
    d := WorkerStep(u, c, 0, ok);
    WorkReaches(u, d, 0, ok);
    d := WorkerStep(u, d, 0, ok);
    WorkReaches(u, d, 0, ok);
    d := WorkerStep(u, d, 0, ok);
  }

  // The main thread comes round to the result.
  lemma SeeResult(u: Setup, c: Config, x: string, ok: bool) returns (d: Config)
    requires Alone(u, c, Offering, Worker(Idle, []), [0]) && c.results == [(x, ok)] && !c.stop
    ensures Alone(u, d, Draining, Worker(Idle, []), [0])
    ensures d.results == [(x, ok)] && !d.stop && d.states == c.states
  {
    hide Reachable, GoodSetup, Fits, FirstReady;
    MainReaches(u, c);
    d := MainStep(u, c);
    MainReaches(u, d);
    d := MainStep(u, d);
    MainReaches(u, d);
    d := MainStep(u, d);
    MainReaches(u, d);
    d := MainStep(u, d);
  }

  // The main thread drains the result.
  lemma TakeResult(u: Setup, c: Config, x: string, ok: bool) returns (d: Config)
    requires Alone(u, c, Offering, Worker(Idle, []), [0]) && c.results == [(x, ok)] && !c.stop
    ensures x in c.states && Fits(u.net, c.states)
    ensures Alone(u, d, Draining, Worker(Idle, []), [0])
    ensures d.states == AfterResult(u.net, u.mode, c.states, x, ok) && d.results == []
    ensures d.stop == (!ok && u.stopOnError)
  {
    hide Reachable, GoodSetup, Fits, FirstReady, AfterResult;
    d := SeeResult(u, c, x, ok);
    MainReaches(u, d);
    d := MainStep(u, d);
    assert c.results[0] == (x, ok) && c.results[1..] == [];
    MainReaches(u, d);
    d := MainStep(u, d);
  }

  // ---------- Items done in order ----------

  // The first k items of the order are completed, and no other one has been started.
  ghost predicate DoneUpTo(u: Setup, st: States, k: nat)
  {
    && Consistent(u.net, u.mode, st) && k <= |u.net.order|
    && (forall i :: 0 <= i < |u.net.order| ==> u.net.order[i] in st)
    && (forall i :: 0 <= i < k ==> st[u.net.order[i]] == Completed)
    && (forall i :: k <= i < |u.net.order| ==> st[u.net.order[i]] !in {Running, Completed, Failed})
  }

  lemma {:induction false} FirstReadyAt(order: seq<string>, st: States, k: nat)
    requires forall x :: x in order ==> x in st
    requires k < |order| && st[order[k]] == Ready && forall i :: 0 <= i < k ==> st[order[i]] != Ready
    ensures FirstReady(order, st) == Some(order[k])
  {
    if k > 0 {
      FirstReadyAt(order[1..], st, k - 1);
    }
  }

  lemma NextInOrder(u: Setup, st: States, k: nat)
    requires GoodNet(u.net) && u.mode != Intended && DoneUpTo(u, st, k) && k < |u.net.order|
    ensures st[u.net.order[k]] == Ready
    ensures (forall x :: x in u.net.order ==> x in st) && FirstReady(u.net.order, st) == Some(u.net.order[k])
  {
    hide GoodNet, Consistent, FirstReady;
    var x := u.net.order[k];
    assert x in u.net.deps by { ConsistentKeys(u, st); }
    forall d | d in u.net.deps[x]
      ensures d in st && st[d] == Completed
    {
      DependencyBefore(u.net, k, d);
    }
    CompletedMakeReady(u.net, u.mode, st, x);
    FirstReadyAt(u.net.order, st, k);
  }

  lemma ConsistentKeys(u: Setup, st: States)
    requires Consistent(u.net, u.mode, st)
    ensures st.Keys == u.net.deps.Keys
  {
  }

  lemma CompleteNext(u: Setup, st: States, k: nat)
    requires GoodNet(u.net) && u.mode != Intended && DoneUpTo(u, st, k) && k < |u.net.order|
    ensures st[u.net.order[k]] == Ready && Fits(u.net, AfterRunning(st, u.net.order[k]))
    ensures DoneUpTo(u, AfterResult(u.net, u.mode, AfterRunning(st, u.net.order[k]), u.net.order[k], true), k + 1)
  {
    hide Consistent, AfterResult, FirstReady;
    NextInOrder(u, st, k);
    var x := u.net.order[k];
    RunningKeeps(u.net, u.mode, st, x);
    ConsistentKeys(u, st);
    ConsistentKeys(u, AfterRunning(st, x));
    ResultKeeps(u.net, u.mode, AfterRunning(st, x), x, true);
  }

  // The first k items of the order called one after the other, all of them succeeding.
  lemma {:induction false} DoInOrder(u: Setup, k: nat) returns (c: Config)
    requires GoodSetup(u) && u.count >= 2 && k <= |u.net.order| && u.net.order != []
    ensures Alone(u, c, Draining, Worker(Idle, []), [0]) && c.results == [] && !c.stop
    ensures DoneUpTo(u, c.states, k)
  {
    hide GoodNet, Alone, Consistent, AfterResult, FirstReady, Initial;
    if k == 0 {
      InitialInOrder(u);
      NextInOrder(u, Initial(u.net), 0);
      c := FirstStep(u);
    } else {
      c := DoInOrder(u, k - 1);
      CompleteNext(u, c.states, k - 1);
      c := DoNext(u, c, k - 1, true);
    }
  }

  lemma InitialInOrder(u: Setup)
    requires GoodSetup(u)
    ensures DoneUpTo(u, Initial(u.net), 0)
  {
    InitialConsistent(u.net, u.mode);
  }

  lemma DoNext(u: Setup, c: Config, k: nat, ok: bool) returns (d: Config)
    requires GoodSetup(u) && k < |u.net.order| && DoneUpTo(u, c.states, k)
    requires Alone(u, c, Draining, Worker(Idle, []), [0]) && c.results == [] && !c.stop
    ensures u.net.order[k] in c.states && Fits(u.net, AfterRunning(c.states, u.net.order[k]))
    ensures Alone(u, d, Draining, Worker(Idle, []), [0]) && d.results == [] && d.stop == (!ok && u.stopOnError)
    ensures d.states ==
            AfterResult(u.net, u.mode, AfterRunning(c.states, u.net.order[k]), u.net.order[k], ok)
  {
    hide GoodNet, Consistent, AfterResult, FirstReady, Reachable, Typed, AfterRunning;
    var x := u.net.order[k];
    NextInOrder(u, c.states, k);
    NextIsFirst(u, c);
    d := GiveItem(u, c, x);
    d := DoItem(u, d, x, ok);
    d := TakeResult(u, d, x, ok);
  }

  lemma NextIsFirst(u: Setup, c: Config)
    requires Typed(u, c) && forall x :: x in u.net.order ==> x in c.states
    ensures NextReady(u, c) == FirstReady(u.net.order, c.states)
  {
  }

  // ---------- Somewhere in the order the next item does not need the one before ----------

  ghost predicate Loose(u: Setup, k: nat)
  {
    && k + 1 < |u.net.order|
    && (u.mode == Propagate && u.net.order[k + 1] in u.net.deps ==>
          u.net.order[k] !in u.net.deps[u.net.order[k + 1]])
  }

  lemma {:induction false} TightReaches(u: Setup, i: nat, j: nat)
    requires GoodNet(u.net) && i <= j < |u.net.order| && u.mode == Propagate
    requires forall k: nat :: !Loose(u, k)
    ensures Reaches(u.net.deps, u.net.order[j], u.net.order[i])
    decreases j - i
  {
    var order, g := u.net.order, u.net.deps;
    assert order[i] in order && order[j] in order;
    if i == j {
      ReachesSelf(g, order[i]);
    } else {
      TightReaches(u, i + 1, j);
      assert !Loose(u, i);
      ExtendWalk(g, order[j], order[i + 1], order[i]);
    }
  }

  lemma TightDepends(u: Setup, i: nat, j: nat)
    requires GoodNet(u.net) && i < j < |u.net.order| && u.mode == Propagate
    requires forall k: nat :: !Loose(u, k)
    ensures DependsOn(u.net.deps, u.net.order[j], u.net.order[i])
  {
    hide Reaches;
    TightReaches(u, i, j - 1);
    assert !Loose(u, j - 1);
    assert u.net.order[j] in u.net.order;
  }

  lemma SomewhereLoose(u: Setup) returns (k: nat)
    requires GoodSetup(u) && CanSpin(u)
    ensures Loose(u, k)
  {
    hide DependsOn;
    var x, y :| Apart(u, x, y);
    var order := u.net.order;
    assert x in order && y in order;
    var i :| 0 <= i < |order| && order[i] == x;
    var j :| 0 <= j < |order| && order[j] == y;
    if m: nat :| Loose(u, m) {
      k := m;
    } else {
      if u.mode == Propagate {
        TightDepends(u, if i < j then i else j, if i < j then j else i);
      }
      assert Loose(u, 0);
      k := 0;
    }
  }

  // ---------- The endless schedule ----------

  // Whoever follows a failed item in the order and does not need it is ready.
  lemma FollowerIsReady(u: Setup, st: States, k: nat)
    requires GoodNet(u.net) && u.mode != Intended && DoneUpTo(u, st, k) && Loose(u, k)
    requires st[u.net.order[k]] == Ready && Fits(u.net, AfterRunning(st, u.net.order[k]))
    ensures var r := AfterResult(u.net, u.mode, AfterRunning(st, u.net.order[k]), u.net.order[k], false);
            u.net.order[k + 1] in r && r[u.net.order[k + 1]] == Ready
  {
    hide GoodNet, AfterResult, Consistent;
    var x, y := u.net.order[k], u.net.order[k + 1];
    ConsistentKeys(u, st);
    RunningKeeps(u.net, u.mode, st, x);
    ResultKeeps(u.net, u.mode, AfterRunning(st, x), x, false);
    var r := AfterResult(u.net, u.mode, AfterRunning(st, x), x, false);
    assert x != y by { DistinctOrder(u, k); }
    forall d | d in u.net.deps[y]
      ensures d in r && (d == x || r[d] == Completed)
    {
      DependencyBefore(u.net, k + 1, d);
    }
    if u.mode == Propagate {
      CompletedMakeReady(u.net, u.mode, r, y);
    } else {
      KeepGoingExact(u.net, r, y);
      FailedOrCompleted(r, u.net.deps[y], x);
    }
  }

  lemma DistinctOrder(u: Setup, k: nat)
    requires GoodNet(u.net) && k + 1 < |u.net.order|
    ensures u.net.order[k] != u.net.order[k + 1]
  {
  }

  lemma FailedOrCompleted(st: States, deps: seq<string>, x: string)
    requires x in st && st[x] == Failed
    requires forall d :: d in deps ==> d in st && (d == x || st[d] == Completed)
    ensures CompletedUpToFailure(st, deps)
  {
    if x in deps {
      var n := IndexOf(deps, x);
      assert forall k :: 0 <= k < n ==> deps[k] in deps[..n];
      assert CutAt(st, deps, n);
    } else {
      assert CutAt(st, deps, |deps|);
    }
  }

  lemma ReachesSpin(u: Setup) returns (c: Config)
    requires GoodSetup(u) && CanSpin(u)
    ensures Reachable(u, c) && Typed(u, c) && Spinning(u, c) && c.main == Top
  {
    hide GoodNet, Consistent, AfterResult, FirstReady, AfterRunning, Reachable;
    var k := SomewhereLoose(u);
    c := DoInOrder(u, k);
    NextInOrder(u, c.states, k);
    ghost var st := c.states;
    c := DoNext(u, c, k, false);
    FollowerIsReady(u, st, k);
    assert c.states[u.net.order[k + 1]] == Ready;
    MainReaches(u, c);
    c := MainStep(u, c);
    MainReaches(u, c);
    c := MainStep(u, c);
  }

  // Where a spinning main thread is r steps further on.
  ghost function Turn(c: Config, r: nat): Config
  {
    c.(main := match r case 0 => Top case 1 => InWait case 2 => Draining case _ => Settling)
  }

  // A spinning main thread is back where it was after four steps.
  lemma SpinsInPlace(u: Setup, c: Config, r: nat)
    requires Typed(u, c) && Spinning(u, c) && c.main == Top && r < 4
    ensures Typed(u, Turn(c, r)) && MainEnabled(u, Turn(c, r))
    ensures MainStep(u, Turn(c, r)) == Turn(c, (r + 1) % 4)
  {
    hide GoodSetup, Fits, FirstReady;
  }

  // Once run() has returned no step is left.
  lemma ReturnedIsLast(u: Setup, c: Config, a: Action)
    requires Shaped(u, c) && Enabled(u, c, a)
    ensures !c.main.Returned?
  {
    hide GoodSetup, Fits, Distinct, NothingMoreToDo;
    if a.Work? {
      assert WorkerShape(c, a.w);
    }
  }

  // After the n steps of the trace the main thread takes every step.
  ghost function RunOf(trace: seq<Config>, n: nat, c: Config): nat -> Config
    requires n <= |trace|
  {
    (i: nat) => if i < n then trace[i] else Turn(c, (i - n) % 4)
  }

  ghost function ActsOf(acts: seq<Action>): nat -> Action
  {
    (i: nat) => if i < |acts| then acts[i] else Main
  }

  lemma SpinStep(u: Setup, trace: seq<Config>, acts: seq<Action>, c: Config, i: nat)
    requires IsRun(u, trace, acts) && trace[|acts|] == c
    requires Typed(u, c) && Spinning(u, c) && c.main == Top
    ensures StepAt(u, RunOf(trace, |acts|, c), ActsOf(acts), i) && !RunOf(trace, |acts|, c)(i).main.Returned?
  {
    hide Typed, Enabled, Step, InitialConfig, MainEnabled, Inv, Shaped, GoodSetup, Spinning;
    var n := |acts|;
    assert Turn(c, 0) == c;
    if i < n {
      assert IsStep(u, trace[i], acts[i], trace[i + 1]);
      RunKeepsInv(u, trace, acts, i);
      InvIsTyped(u, trace[i]);
      ReturnedIsLast(u, trace[i], acts[i]);
    } else {
      SpinsInPlace(u, c, (i - n) % 4);
      TurnIsStep(u, Turn(c, (i - n) % 4));
      NextTurn(i - n);
    }
  }

  lemma NextTurn(i: nat)
    ensures (i % 4 + 1) % 4 == (i + 1) % 4
  {
  }

  lemma TurnIsStep(u: Setup, c: Config)
    requires Typed(u, c) && MainEnabled(u, c)
    ensures IsStep(u, c, Main, MainStep(u, c))
  {
  }

  // A schedule that never returns: after one failure the main thread takes all the steps.
  lemma EndlessSchedule(u: Setup) returns (run: nat -> Config, act: nat -> Action)
    requires GoodSetup(u) && CanSpin(u)
    ensures Schedule(u, run, act) && forall n: nat :: !run(n).main.Returned?
  {
    hide CanSpin, Typed, InitialConfig, StepAt, IsStep, Spinning, Turn;
    var c := ReachesSpin(u);
    var trace, acts :| IsRun(u, trace, acts) && trace[|acts|] == c;
    run, act := RunOf(trace, |acts|, c), ActsOf(acts);
    forall i: nat
      ensures StepAt(u, run, act, i) && !run(i).main.Returned?
    {
      SpinStep(u, trace, acts, c, i);
    }
    assert run(0) == InitialConfig(u) by {
      assert Turn(c, 0) == c by { TurnNone(c); }
    }
  }

  lemma TurnNone(c: Config)
    requires c.main == Top
    ensures Turn(c, 0) == c
  {
  }

  // run() returns under every schedule.
  ghost predicate AlwaysReturns(u: Setup)
  {
    forall run: nat -> Config, act: nat -> Action :: Schedule(u, run, act) ==> ReturnsFrom(run, 0)
  }

  // Fair or not, every schedule returns exactly when run() goes on after errors, there is
  // one worker, or no two items are apart.
  lemma AlwaysReturnsExact(u: Setup)
    requires GoodSetup(u)
    ensures AlwaysReturns(u) <==> !CanSpin(u)
  {
    hide CanSpin, Schedule;
    if CanSpin(u) {
      var run, act := EndlessSchedule(u);
      assert !ReturnsFrom(run, 0);
    } else {
      forall run: nat -> Config, act: nat -> Action | Schedule(u, run, act)
        ensures ReturnsFrom(run, 0)
      {
        ReturnsUnlessCanSpin(u, run, act);
        var n: nat :| run(n).main.Returned?;
        assert 0 <= n;
      }
    }
  }

  // The smallest such setup: two items that do not depend on each other, and two workers.
  ghost const PAIR: Setup := Setup(Net(map["a" := [], "b" := []], map["a" := [], "b" := []], ["a", "b"]), Propagate,
    2, true)

  lemma PairSpins()
    ensures GoodSetup(PAIR) && CanSpin(PAIR) && !AlwaysReturns(PAIR)
  {
    assert forall a, b :: !Edge(PAIR.net.deps, a, b);
    assert Apart(PAIR, "a", "b");
    AlwaysReturnsExact(PAIR);
  }
}
