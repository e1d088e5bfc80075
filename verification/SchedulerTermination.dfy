// Every fair build run returns, and what it returns is exact.
module SchedulerTermination {
  import opened Names
  import opened Traversal
  import opened Evaluation
  import opened Scheduler
  import opened SchedulerInvariant
  import opened SchedulerHistory
  import opened SchedulerRuns
  import opened SchedulerProgress

  // ---------- Endless schedules ----------

  ghost predicate StepAt(u: Setup, run: nat -> Config, act: nat -> Action, i: nat)
  {
    if run(i).main.Returned? then run(i + 1) == run(i) else IsStep(u, run(i), act(i), run(i + 1))
  }

  // run and act list the configurations and the steps of one schedule; after run()
  // has returned nothing changes.
  ghost predicate Schedule(u: Setup, run: nat -> Config, act: nat -> Action)
  {
    && GoodSetup(u)
    && run(0) == InitialConfig(u)
    && (forall i: nat :: StepAt(u, run, act, i))
  }

  ghost predicate Serves(run: nat -> Config, act: nat -> Action, i: nat, w: nat)
  {
    run(i).main.Returned? || (act(i).Work? && act(i).w == w)
  }

  // A worker that can take a step takes one eventually.
  ghost predicate Fair(u: Setup, run: nat -> Config, act: nat -> Action)
  {
    forall i: nat, w: nat {:trigger Waits(u, run, i, w)} :: Waits(u, run, i, w) ==>
      exists j: nat :: i <= j && Serves(run, act, j, w)
  }

  ghost predicate Waits(u: Setup, run: nat -> Config, i: nat, w: nat)
  {
    Typed(u, run(i)) && WorkerEnabled(u, run(i), w)
  }

  lemma {:induction false} InvAt(u: Setup, run: nat -> Config, act: nat -> Action, i: nat)
    requires Schedule(u, run, act)
    ensures Inv(u, run(i)) && Typed(u, run(i)) && Shaped(u, run(i))
  {
    hide Inv, Step, Enabled, InitialConfig, Typed, Shaped;
    if i == 0 {
      InitialInv(u);
    } else {
      InvAt(u, run, act, i - 1);
      assert StepAt(u, run, act, i - 1);
      if !run(i - 1).main.Returned? {
        StepKeepsInv(u, run(i - 1), act(i - 1));
      }
    }
    InvIsTyped(u, run(i));
  }

  // One step forward: a worker's step lowers the measure, one of the main thread does
  // not raise it, and lowers the rank instead unless it spins.
  lemma StepForward(u: Setup, run: nat -> Config, act: nat -> Action, i: nat)
    requires Schedule(u, run, act) && !run(i).main.Returned?
    ensures Typed(u, run(i)) && Typed(u, run(i + 1))
    ensures Measure(u, run(i + 1)) <= Measure(u, run(i))
    ensures act(i).Work? ==> Measure(u, run(i + 1)) < Measure(u, run(i))
    ensures act(i).Main? && !Spinning(u, run(i)) && Measure(u, run(i + 1)) == Measure(u, run(i)) ==>
              Rank(u, run(i + 1)) < Rank(u, run(i))
    ensures act(i).Work? ==> WorkerEnabled(u, run(i), act(i).w)
  {
    hide Inv, Typed, Shaped, Measure, Rank, Spinning, MainStep, WorkerStep, MainEnabled;
    InvAt(u, run, act, i);
    InvAt(u, run, act, i + 1);
    assert StepAt(u, run, act, i);
    match act(i)
    case Work(w, ok) => WorkerStepLowers(u, run(i), w, ok);
    case Main =>
      MainNeverRaises(u, run(i));
      if !Spinning(u, run(i)) {
        MainProgress(u, run(i));
      }
  }

  lemma {:induction false} MeasureFalls(u: Setup, run: nat -> Config, act: nat -> Action, i: nat, j: nat)
    requires Schedule(u, run, act) && i <= j
    ensures Measure(u, run(j)) <= Measure(u, run(i))
    decreases j
  {
    hide Measure;
    if i < j {
      MeasureFalls(u, run, act, i, j - 1);
      assert StepAt(u, run, act, j - 1);
      if !run(j - 1).main.Returned? {
        StepForward(u, run, act, j - 1);
      }
    }
  }

  ghost predicate ReturnsFrom(run: nat -> Config, i: nat)
  {
    exists n: nat :: i <= n && run(n).main.Returned?
  }

  ghost predicate LowerAt(u: Setup, run: nat -> Config, i: nat, j: nat)
  {
    i <= j && Measure(u, run(j)) < Measure(u, run(i))
  }

  ghost predicate NeverLower(u: Setup, run: nat -> Config, i: nat)
  {
    forall j: nat :: !LowerAt(u, run, i, j)
  }

  // While the measure stands still, no worker can take a step.
  lemma SteadyIsQuiet(u: Setup, run: nat -> Config, act: nat -> Action, i: nat)
    requires Schedule(u, run, act) && Fair(u, run, act) && !ReturnsFrom(run, i)
    requires NeverLower(u, run, i)
    ensures Typed(u, run(i)) && Shaped(u, run(i)) && !SomeWorkerEnabled(u, run(i))
  {
    hide Measure, Typed, Shaped, WorkerEnabled, Schedule, Inv;
    InvAt(u, run, act, i);
    if w: nat :| WorkerEnabled(u, run(i), w) {
      assert Waits(u, run, i, w);
      var j: nat :| i <= j && Serves(run, act, j, w);
      StaysSteady(u, run, i, j + 1);
      StepForward(u, run, act, j);
      MeasureFalls(u, run, act, i, j);
    }
  }

  lemma StaysSteady(u: Setup, run: nat -> Config, i: nat, k: nat)
    requires NeverLower(u, run, i) && i <= k
    ensures Measure(u, run(k)) >= Measure(u, run(i))
    ensures Measure(u, run(k)) == Measure(u, run(i)) ==> NeverLower(u, run, k)
  {
    hide Measure;
    assert LowerAt(u, run, i, k) <==> Measure(u, run(k)) < Measure(u, run(i));
    if Measure(u, run(k)) == Measure(u, run(i)) {
      assert forall j: nat :: LowerAt(u, run, k, j) ==> LowerAt(u, run, i, j);
    }
  }

  lemma {:induction false} SteadyReturns(u: Setup, run: nat -> Config, act: nat -> Action, i: nat)
    requires Schedule(u, run, act) && Fair(u, run, act)
    requires NeverLower(u, run, i)
    ensures ReturnsFrom(run, i)
    decreases (InvAt(u, run, act, i); Rank(u, run(i)))
  {
    hide Measure, Typed, Shaped, WorkerEnabled, Schedule, Inv, Rank;
    InvAt(u, run, act, i);
    if !ReturnsFrom(run, i) {
      SteadyIsQuiet(u, run, act, i);
      QuietMainProgresses(u, run(i));
      StepForward(u, run, act, i);
      StaysSteady(u, run, i, i + 1);
      SteadyReturns(u, run, act, i + 1);
    }
  }

  lemma {:induction false} FairReturnsFrom(u: Setup, run: nat -> Config, act: nat -> Action, i: nat)
    requires Schedule(u, run, act) && Fair(u, run, act)
    ensures ReturnsFrom(run, i)
    decreases Measure(u, run(i))
  {
    hide Measure, Schedule, Fair;
    if j: nat :| LowerAt(u, run, i, j) {
      FairReturnsFrom(u, run, act, j);
    } else {
      SteadyReturns(u, run, act, i);
    }
  }

  // run() always returns, whatever the methods answer and however the threads are
  // scheduled, as long as no worker is starved.
  lemma FairRunReturns(u: Setup, run: nat -> Config, act: nat -> Action)
    requires Schedule(u, run, act) && Fair(u, run, act)
    ensures exists n: nat :: run(n).main.Returned?
  {
    FairReturnsFrom(u, run, act, 0);
  }

  ghost predicate SpinsAt(u: Setup, run: nat -> Config, i: nat)
  {
    Typed(u, run(i)) && Spinning(u, run(i))
  }

  // Spinning is the only way not to return, fair or not.
  lemma {:induction false} NoSpinReturnsFrom(u: Setup, run: nat -> Config, act: nat -> Action, i: nat)
    requires Schedule(u, run, act) && forall j: nat :: !SpinsAt(u, run, j)
    ensures ReturnsFrom(run, i)
    decreases Measure(u, run(i)), (InvAt(u, run, act, i); Rank(u, run(i)))
  {
    hide Measure, Rank, Schedule, Shaped, Typed, Spinning, Inv;
    InvAt(u, run, act, i);
    if !run(i).main.Returned? {
      StepForward(u, run, act, i);
      assert !SpinsAt(u, run, i);
      NoSpinReturnsFrom(u, run, act, i + 1);
    }
  }

  // Unless it is to stop at the first error, run() returns under every schedule.
  lemma UnstoppedReturnsFrom(u: Setup, run: nat -> Config, act: nat -> Action, i: nat)
    requires Schedule(u, run, act) && !u.stopOnError
    ensures ReturnsFrom(run, i)
  {
    hide Schedule, Shaped, Typed, Consistent, FlightExact, LogExact, LogOrdered;
    forall j: nat
      ensures !SpinsAt(u, run, j)
    {
      InvAt(u, run, act, j);
    }
    NoSpinReturnsFrom(u, run, act, i);
  }

  // However long a run, the workers take at most six steps an item and two each besides.
  lemma {:induction false} WorkerStepsBounded(u: Setup, run: nat -> Config, act: nat -> Action, n: nat)
    requires Schedule(u, run, act) && !run(n).main.Returned?
    ensures WorkerSteps(act, n) + Measure(u, run(n)) <= 6 * |u.net.deps| + 2 * u.count + 1
  {
    hide Measure;
    if n == 0 {
      InitialMeasure(u);
    } else {
      assert StepAt(u, run, act, n - 1);
      WorkerStepsBounded(u, run, act, n - 1);
      StepForward(u, run, act, n - 1);
    }
  }

  ghost function WorkerSteps(act: nat -> Action, n: nat): nat
  {
    if n == 0 then 0 else WorkerSteps(act, n - 1) + (if act(n - 1).Work? then 1 else 0)
  }

  lemma {:induction false} InitialLoad(n: nat)
    ensures Load(seq(n, i => Worker(Starting, []))) == n
  {
    if n > 0 {
      InitialLoad(n - 1);
      var workers := seq(n, i => Worker(Starting, []));
      assert workers[..n - 1] == seq(n - 1, i => Worker(Starting, []));
    }
  }

  lemma InitialMeasure(u: Setup)
    requires GoodSetup(u)
    ensures Measure(u, InitialConfig(u)) <= 6 * |u.net.deps| + 2 * u.count + 1
  {
    hide GoodNet;
    InitialLoad(u.count);
    InitialTyped(u);
    SubsetSize(Pending(Initial(u.net)), u.net.deps.Keys);
    assert |u.net.deps.Keys| == |u.net.deps|;
  }

  lemma InitialTyped(u: Setup)
    requires GoodSetup(u)
    ensures Initial(u.net).Keys == u.net.deps.Keys
  {
  }

  // ---------- The answer ----------

  lemma {:induction false} NothingHeld(workers: seq<Worker>)
    requires forall w :: 0 <= w < |workers| ==> workers[w].pc == Gone && workers[w].queue == []
    ensures AllQueued(workers) == multiset{} && AllCalled(workers) == multiset{}
  {
    if workers != [] {
      NothingHeld(workers[..|workers| - 1]);
    }
  }

  lemma EmptyMultiset<T>(s: set<T>)
    requires multiset(s) == multiset{}
    ensures s == {}
  {
    assert forall x :: x in s <==> x in multiset(s);
  }

  lemma ReturnedShape(u: Setup, c: Config)
    requires Shaped(u, c) && c.main.Returned?
    ensures forall w :: 0 <= w < |c.workers| ==> c.workers[w].pc == Gone && c.workers[w].queue == []
    ensures c.results == [] && c.main.result == !c.anyErrors
  {
    forall w | 0 <= w < |c.workers|
      ensures c.workers[w].pc == Gone && c.workers[w].queue == []
    {
      assert WorkerShape(c, w);
    }
  }

  // When run() returns nothing is running, and the method has been called exactly for
  // the completed and the failed items.
  lemma ReturnedIsQuiet(u: Setup, c: Config)
    requires Reachable(u, c) && c.main.Returned?
    ensures RunningItems(c.states) == {}
    ensures Starts(c.log) == multiset(DoneItems(c.states))
  {
    hide Consistent, LogOrdered, ErrorsExact, Shaped, AllQueued, AllCalled, Typed, Reachable, Starts, DoneItems;
    ReachableInv(u, c);
    ReturnedShape(u, c);
    NothingHeld(c.workers);
    EmptyMultiset(RunningItems(c.states));
  }

  // Without a stop, nothing is left waiting, ready or running.
  lemma NothingLeft(u: Setup, c: Config, x: string)
    requires Reachable(u, c) && c.main.Returned? && !c.stop && x in c.states
    ensures Finished(c.states[x])
  {
    hide FlightExact, LogExact, LogOrdered, Consistent, Starts, DoneItems;
    ReachableInv(u, c);
    ReturnedIsQuiet(u, c);
    forall y | y in c.states
      ensures c.states[y] != Ready && c.states[y] != Running
    {
      assert y !in RunningItems(c.states);
    }
    NothingWaits(u.net, u.mode, c.states, x);
  }

  // run() returns true if and only if every item is completed.
  lemma AnswerExact(u: Setup, c: Config)
    requires Reachable(u, c) && c.main.Returned?
    ensures c.main.result <==> forall x :: x in c.states ==> c.states[x] == Completed
  {
    hide FlightExact, LogExact, LogOrdered, Consistent, Shaped, Typed, Reachable;
    ReachableInv(u, c);
    ReturnedShape(u, c);
    if c.main.result {
      forall x | x in c.states
        ensures c.states[x] == Completed
      {
        NothingLeft(u, c, x);
        if c.states[x] == DepFailed {
          DepFailedNeedsFailure(u, c, x);
        }
      }
    }
  }

  lemma DepFailedNeedsFailure(u: Setup, c: Config, x: string)
    requires Inv(u, c) && x in c.states && c.states[x] == DepFailed
    ensures u.mode == Propagate && exists y :: y in c.states && c.states[y] == Failed && DependsOn(u.net.deps, x, y)
  {
    hide FlightExact, LogExact, LogOrdered, Consistent, ErrorsExact, DependsOn;
    if u.mode == KeepGoing {
      KeepGoingExact(u.net, c.states, x);
    } else {
      DepFailedExact(u.net, c.states, x);
    }
  }

  // With propagation and without stop, exactly the items that depend on no failed item
  // have had their method called.
  lemma CalledUnlessBelowFailed(u: Setup, c: Config, x: string)
    requires Reachable(u, c) && c.main.Returned? && !u.stopOnError && u.mode == Propagate && x in c.states
    ensures Starts(c.log)[x] ==
            if exists y :: y in c.states && c.states[y] == Failed && DependsOn(u.net.deps, x, y) then 0 else 1
  {
    hide FlightExact, LogExact, LogOrdered, Consistent, DependsOn, Starts;
    ReachableInv(u, c);
    ReturnedIsQuiet(u, c);
    NothingLeft(u, c, x);
    DepFailedExact(u.net, c.states, x);
  }

  // With failures not propagating and without stop, every item's method has been called
  // exactly once.
  lemma KeepGoingCallsAll(u: Setup, c: Config, x: string)
    requires Reachable(u, c) && c.main.Returned? && !u.stopOnError && u.mode == KeepGoing && x in c.states
    ensures Starts(c.log)[x] == 1
  {
    hide FlightExact, LogExact, LogOrdered, Consistent, Starts;
    ReachableInv(u, c);
    ReturnedIsQuiet(u, c);
    NothingLeft(u, c, x);
    KeepGoingExact(u.net, c.states, x);
  }

  lemma ReachableStep(u: Setup, c: Config, a: Action, d: Config)
    requires Reachable(u, c) && IsStep(u, c, a, d)
    ensures Reachable(u, d)
  {
    hide IsStep, InitialConfig;
    var trace, acts :| IsRun(u, trace, acts) && trace[|acts|] == c;
    var trace', acts' := trace + [d], acts + [a];
    forall i | 0 <= i < |acts'|
      ensures IsStep(u, trace'[i], acts'[i], trace'[i + 1])
    {
      if i < |acts| {
        assert IsStep(u, trace[i], acts[i], trace[i + 1]);
      }
    }
    assert IsRun(u, trace', acts') && trace'[|acts'|] == d;
  }

  lemma {:induction false} ScheduleReaches(u: Setup, run: nat -> Config, act: nat -> Action, i: nat)
    requires Schedule(u, run, act)
    ensures Reachable(u, run(i))
  {
    hide IsStep, InitialConfig, GoodSetup, Reachable;
    if i == 0 {
      InitialReachable(u);
    } else {
      ScheduleReaches(u, run, act, i - 1);
      assert StepAt(u, run, act, i - 1);
      if !run(i - 1).main.Returned? {
        ReachableStep(u, run(i - 1), act(i - 1), run(i));
      }
    }
  }

  lemma InitialReachable(u: Setup)
    requires GoodSetup(u)
    ensures Reachable(u, InitialConfig(u))
  {
    var trace: seq<Config>, acts: seq<Action> := [InitialConfig(u)], [];
    assert IsRun(u, trace, acts);
  }

  // Total correctness: every fair schedule reaches the return of run(), and the value
  // returned says whether every item is completed.
  lemma FairRunAnswers(u: Setup, run: nat -> Config, act: nat -> Action)
    requires Schedule(u, run, act) && Fair(u, run, act)
    ensures exists n: nat ::
              && run(n).main.Returned?
              && run(n).states.Keys == u.net.deps.Keys
              && (run(n).main.result <==> forall x :: x in run(n).states ==> run(n).states[x] == Completed)
  {
    hide Reachable, Fair, Schedule;
    FairRunReturns(u, run, act);
    var n: nat :| run(n).main.Returned?;
    ScheduleReaches(u, run, act, n);
    ReachableInv(u, run(n));
    AnswerExact(u, run(n));
  }
}
