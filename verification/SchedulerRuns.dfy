// Whole runs: safety in every reachable configuration, progress, and the answer of run().
module SchedulerRuns {
  import opened Names
  import opened Traversal
  import opened Evaluation
  import opened Scheduler
  import opened SchedulerInvariant
  import opened SchedulerHistory
  import EvaluatorRuns

  // Any interleaving of steps of the main thread and of the workers.
  ghost predicate IsRun(u: Setup, trace: seq<Config>, acts: seq<Action>)
  {
    && GoodSetup(u)
    && |trace| == |acts| + 1
    && trace[0] == InitialConfig(u)
    && (forall i :: 0 <= i < |acts| ==> IsStep(u, trace[i], acts[i], trace[i + 1]))
  }

  ghost predicate IsStep(u: Setup, c: Config, a: Action, d: Config)
  {
    Typed(u, c) && Enabled(u, c, a) && d == Step(u, c, a)
  }

  ghost predicate Reachable(u: Setup, c: Config)
  {
    exists trace, acts :: IsRun(u, trace, acts) && trace[|acts|] == c
  }

  lemma {:induction false} RunKeepsInv(u: Setup, trace: seq<Config>, acts: seq<Action>, n: nat)
    requires IsRun(u, trace, acts) && n <= |acts|
    ensures Inv(u, trace[n])
  {
    hide Inv, Step, Enabled, InitialConfig;
    if n == 0 {
      InitialInv(u);
    } else {
      RunKeepsInv(u, trace, acts, n - 1);
      assert IsStep(u, trace[n - 1], acts[n - 1], trace[n]);
      StepKeepsInv(u, trace[n - 1], acts[n - 1]);
    }
  }

  lemma ReachableInv(u: Setup, c: Config)
    requires Reachable(u, c)
    ensures Inv(u, c) && Typed(u, c)
  {
    hide Inv, Typed;
    var trace, acts :| IsRun(u, trace, acts) && trace[|acts|] == c;
    RunKeepsInv(u, trace, acts, |acts|);
    InvIsShaped(u, c);
    ShapedIsTyped(u, c);
  }

  // ---------- Safety ----------

  // The count kept by the evaluator is the number of queued, executing and undrained items,
  // plus the one being handed over.
  lemma NumRunningExact(u: Setup, c: Config)
    requires Reachable(u, c)
    ensures |RunningItems(c.states)| ==
            |AllQueued(c.workers)| + |AllCalled(c.workers)| + |c.results| + (if c.main.Handing? then 1 else 0)
  {
    hide AllQueued, AllCalled;
    ReachableInv(u, c);
    assert |InFlight(c)| == |multiset(RunningItems(c.states))|;
    CountResults(c.results);
  }

  lemma {:induction false} CountResults(results: seq<(string, bool)>)
    ensures |ResultItems(results)| == |results|
  {
    if results != [] {
      CountResults(results[..|results| - 1]);
    }
  }

  // No item's method is called twice, and no call returns twice.
  lemma CalledAtMostOnce(u: Setup, c: Config, x: string)
    requires Reachable(u, c)
    ensures Starts(c.log)[x] <= 1
    ensures Returns(c.log)[(x, true)] + Returns(c.log)[(x, false)] <= Starts(c.log)[x]
  {
    hide AllQueued, AllCalled, AllReported, ResultItems, Starts, Returns, Shaped, Consistent;
    ReachableInv(u, c);
    assert InFlight(c)[x] == multiset(RunningItems(c.states))[x];
    var done := multiset(DoneItems(c.states));
    assert Starts(c.log)[x] == (AllCalled(c.workers) + ResultItems(c.results) + done)[x];
    ReportedAreCalled(c.workers, x);
    ResultCounts(c.results, x);
    assert multiset(DonePairs(c.states))[(x, true)] + multiset(DonePairs(c.states))[(x, false)] <= done[x];
    assert Returns(c.log)[(x, true)] ==
             (AllReported(c.workers) + multiset(c.results) + multiset(DonePairs(c.states)))[(x, true)];
    assert Returns(c.log)[(x, false)] ==
             (AllReported(c.workers) + multiset(c.results) + multiset(DonePairs(c.states)))[(x, false)];
  }

  lemma {:induction false} ReportedAreCalled(workers: seq<Worker>, x: string)
    ensures AllReported(workers)[(x, true)] + AllReported(workers)[(x, false)] <= AllCalled(workers)[x]
  {
    if workers != [] {
      ReportedAreCalled(workers[..|workers| - 1], x);
    }
  }

  lemma {:induction false} ResultCounts(results: seq<(string, bool)>, x: string)
    ensures multiset(results)[(x, true)] + multiset(results)[(x, false)] == ResultItems(results)[x]
  {
    if results != [] {
      var n := |results| - 1;
      ResultCounts(results[..n], x);
      assert results == results[..n] + [results[n]];
      AppendResult(results[..n], results[n]);
      OneResultCounts(results[n].0, results[n].1, x);
    }
  }

  lemma OneResultCounts(item: string, ok: bool, x: string)
    ensures multiset{(item, ok)}[(x, true)] + multiset{(item, ok)}[(x, false)] == multiset{item}[x]
  {
    if item == x {
      assert (item, ok) == (x, true) || (item, ok) == (x, false);
    } else {
      assert (item, ok) != (x, true) && (item, ok) != (x, false);
    }
  }

  // With propagation, a method is called only after the methods of all direct and
  // indirect dependencies have returned true.
  lemma CalledAfterDependencies(u: Setup, c: Config, i: nat, y: string)
    requires Reachable(u, c) && u.mode == Propagate
    requires i < |c.log| && c.log[i].Start? && DependsOn(u.net.deps, c.log[i].item, y)
    ensures Return(y, true) in c.log[..i]
  {
    hide DependsOn, Shaped, Consistent, FlightExact, LogExact, ErrorsExact;
    ReachableInv(u, c);
    assert StartJustified(u, c.log[..i], c.log[i].item);
  }

  // Without, the dependencies listed before the first one that returned false have returned true.
  lemma CalledAfterListed(u: Setup, c: Config, i: nat)
    requires Reachable(u, c) && u.mode == KeepGoing && i < |c.log| && c.log[i].Start?
    ensures c.log[i].item in u.net.deps
    ensures exists n :: CutInLog(c.log[..i], u.net.deps[c.log[i].item], n)
  {
    hide Shaped, Consistent, FlightExact, LogExact, ErrorsExact;
    ReachableInv(u, c);
    assert StartJustified(u, c.log[..i], c.log[i].item);
  }

  // With failures not propagating, an item is started only when all its dependencies have
  // finished if in the graph the first dependency of every item stands on its other ones.
  lemma PromiseInRuns(u: Setup, c: Config)
    requires Reachable(u, c) && u.mode == KeepGoing && EvaluatorRuns.FirstIsLast(u.net)
    ensures EvaluatorRuns.WaitsForAll(u.net, c.states)
  {
    hide Reachable, Consistent, Shaped, Typed;
    ReachableInv(u, c);
    EvaluatorRuns.ConsistentWaits(u.net, c.states);
  }

  // At most num_workers calls are going on at a time.
  lemma ConcurrencyBound(u: Setup, c: Config)
    requires Reachable(u, c)
    ensures |Starts(c.log)| - |Returns(c.log)| <= u.count
  {
    hide AllQueued, AllCalled, AllReported, ResultItems, Starts, Returns, FlightExact, Consistent;
    ReachableInv(u, c);
    CountCalls(c.workers);
    CountResults(c.results);
    DonePairsCount(c.states);
  }

  lemma {:induction false} CountCalls(workers: seq<Worker>)
    ensures |AllCalled(workers)| <= |AllReported(workers)| + |workers|
  {
    if workers != [] {
      CountCalls(workers[..|workers| - 1]);
    }
  }

  ghost function Paired(s: set<string>, ok: bool): set<(string, bool)>
  {
    set x | x in s :: (x, ok)
  }

  ghost function InState(st: States, s: ItemState): set<string>
  {
    set x | x in st && st[x] == s
  }

  lemma DonePairsCount(st: States)
    ensures |DonePairs(st)| == |DoneItems(st)|
  {
    hide Paired;
    var good, bad := InState(st, Completed), InState(st, Failed);
    PairCount(good, true);
    PairCount(bad, false);
    assert DoneItems(st) == good + bad && good !! bad;
    PairsOf(st);
  }

  lemma PairsOf(st: States)
    ensures DonePairs(st) == Paired(InState(st, Completed), true) + Paired(InState(st, Failed), false)
    ensures Paired(InState(st, Completed), true) !! Paired(InState(st, Failed), false)
  {
    var pairs := Paired(InState(st, Completed), true) + Paired(InState(st, Failed), false);
    forall p
      ensures p in DonePairs(st) <==> p in pairs
    {
      assert p == (p.0, p.1);
    }
  }

  lemma {:induction false} PairCount(s: set<string>, ok: bool)
    ensures |Paired(s, ok)| == |s|
  {
    if s != {} {
      var y :| y in s;
      PairCount(s - {y}, ok);
      assert Paired(s, ok) == Paired(s - {y}, ok) + {(y, ok)};
    }
  }

  // Once a failure has been drained in stop mode, nothing more is handed out.
  lemma NothingHandedOutAfterStop(u: Setup, c: Config, a: Action)
    requires Reachable(u, c) && c.stop
    requires (ReachableInv(u, c); Enabled(u, c, a))
    ensures (ReachableInv(u, c);
             var d := Step(u, c, a);
             d.stop && RunningItems(d.states) <= RunningItems(c.states) && !d.main.Handing?)
  {
    hide MainStep, MainEnabled, FlightExact, LogExact, LogOrdered, ErrorsExact, Consistent, Fits, GoodSetup,
         WorkerShape;
    ReachableInv(u, c);
    if a.Main? {
      StoppedMain(u, c);
    }
  }

  lemma StoppedMain(u: Setup, c: Config)
    requires Inv(u, c) && c.stop && Typed(u, c) && MainEnabled(u, c)
    ensures var d := MainStep(u, c);
            d.stop && RunningItems(d.states) <= RunningItems(c.states) && !d.main.Handing?
  {
    hide AfterResult, FlightExact, LogExact, LogOrdered, ErrorsExact, Consistent, Fits, GoodSetup, WorkerShape,
         FirstReady;
    if c.main == Fetching {
      ResultIsRunningIn(u, c);
      ResultKeeps(u.net, u.mode, c.states, c.results[0].0, c.results[0].1);
    }
  }

  lemma ResultIsRunningIn(u: Setup, c: Config)
    requires Inv(u, c) && c.results != []
    ensures c.results[0].0 in c.states && c.states[c.results[0].0] == Running
  {
    ResultIsRunning(c);
  }
}
