// Progress: the build run never gets stuck, every fair run returns, and its answer is exact.
module SchedulerProgress {
  import opened Names
  import opened Traversal
  import opened Evaluation
  import opened Scheduler
  import opened SchedulerInvariant
  import opened SchedulerHistory
  import opened SchedulerRuns

  // ---------- Work that is left ----------

  // The steps a worker can still take without the main thread.
  ghost function Weight(k: Worker): nat
  {
    match k.pc
    case Starting => 1
    case Idle => if k.queue == [] then 0 else if k.queue[0].Item? then 4 else 1
    case Working(_) => 3
    case Reporting(_, _) => 2
    case Gone => 0
  }

  ghost function Load(workers: seq<Worker>): nat
  {
    if workers == [] then 0 else Load(workers[..|workers| - 1]) + Weight(workers[|workers| - 1])
  }

  // Bounds the worker steps, hand-overs, drained results and shutdowns still to come.
  ghost function Measure(u: Setup, c: Config): nat
  {
    6 * |Pending(c.states)| + (if c.main.Handing? then 5 else 0) + Load(c.workers) + |c.results|
      + (if c.shutdown then 0 else u.count + 1)
  }

  lemma {:induction false} LoadUpdate(workers: seq<Worker>, w: nat, k: Worker)
    requires w < |workers|
    ensures Load(workers[w := k]) + Weight(workers[w]) == Load(workers) + Weight(k)
  {
    hide Weight;
    var n := |workers| - 1;
    if w < n {
      LoadUpdate(workers[..n], w, k);
      assert workers[w := k][..n] == workers[..n][w := k];
    } else {
      assert workers[w := k][..n] == workers[..n];
    }
  }

  lemma {:induction false} DismissedLoad(workers: seq<Worker>)
    requires forall i :: 0 <= i < |workers| ==> workers[i] == Worker(Idle, [])
    ensures Load(Dismissed(workers)) == |workers| && Load(workers) == 0
  {
    if workers != [] {
      var n := |workers| - 1;
      DismissedLoad(workers[..n]);
      assert Dismissed(workers)[..n] == Dismissed(workers[..n]);
    }
  }

  lemma WorkerStepLowers(u: Setup, c: Config, w: nat, ok: bool)
    requires Shaped(u, c) && WorkerEnabled(u, c, w)
    ensures Measure(u, WorkerStep(u, c, w, ok)) == Measure(u, c) - 1
  {
    hide MainShape, GoodSetup, Load, Pending, Distinct, Fits;
    assert WorkerShape(c, w);
    LoadUpdate(c.workers, w, WorkerStep(u, c, w, ok).workers[w]);
  }

  lemma StartLowers(st: States, item: string)
    requires item in st && st[item] == Ready
    ensures |Pending(AfterRunning(st, item))| == |Pending(st)| - 1
  {
    assert Pending(AfterRunning(st, item)) == Pending(st) - {item};
  }

  lemma ResultNeverRaises(u: Setup, c: Config)
    requires Inv(u, c) && c.results != []
    ensures |Pending(Fetch(u, c).states)| <= |Pending(c.states)|
  {
    hide Consistent, FlightExact, LogExact, LogOrdered, ErrorsExact, AfterResult;
    ResultIsRunningIn(u, c);
    ResultKeeps(u.net, u.mode, c.states, c.results[0].0, c.results[0].1);
    SubsetSize(Pending(Fetch(u, c).states), Pending(c.states));
  }

  // The steps of the main thread that get something done.
  ghost predicate Productive(u: Setup, c: Config)
    requires Typed(u, c)
  {
    || c.main == Fetching || c.main.Handing? || c.main == Stopping
    || (c.main == Counting && c.available != [] && NextReady(u, c).Some?)
  }

  lemma HandLowers(u: Setup, c: Config, item: string)
    requires Shaped(u, c) && c.main == Handing(item)
    ensures c.available != [] && Measure(u, Hand(u, c, item)) == Measure(u, c) - 1
  {
    hide GoodSetup, Load, Pending, Distinct, Fits;
    var w := c.available[0];
    assert w in c.available;
    assert WorkerShape(c, w);
    LoadUpdate(c.workers, w, Hand(u, c, item).workers[w]);
  }

  lemma StopLowers(u: Setup, c: Config)
    requires Shaped(u, c) && c.main == Stopping
    ensures Measure(u, MainStep(u, c)) == Measure(u, c) - 1
  {
    hide Load, Pending, NothingMoreToDo, Fits, GoodSetup;
    Pigeonhole(c.available, u.count);
    forall i | 0 <= i < |c.workers|
      ensures c.workers[i] == Worker(Idle, [])
    {
      assert WorkerShape(c, i);
    }
    DismissedLoad(c.workers);
  }

  lemma MainNeverRaises(u: Setup, c: Config)
    requires Inv(u, c) && (InvIsShaped(u, c); ShapedIsTyped(u, c); MainEnabled(u, c))
    ensures Measure(u, MainStep(u, c)) <= Measure(u, c)
    ensures Productive(u, c) ==> Measure(u, MainStep(u, c)) < Measure(u, c)
  {
    hide Inv, Load, Pending, Fits, GoodSetup, Hand, Dismissed, AfterRunning, Shaped, WorkerShape;
    InvIsShaped(u, c);
    ShapedIsTyped(u, c);
    match c.main
    case Fetching => ResultNeverRaises(u, c);
    case Counting =>
      if Productive(u, c) {
        StartLowers(c.states, NextReady(u, c).value);
      }
    case Handing(item) => HandLowers(u, c, item);
    case Stopping => StopLowers(u, c);
    case _ =>
  }

  // ---------- Steps of the main thread that only look around ----------

  ghost predicate SomeReady(u: Setup, c: Config)
    requires Typed(u, c)
  {
    NextReady(u, c).Some?
  }

  // After a failure in stop mode the main thread does not block while an item is still
  // ready and some, but not all, workers are free: wait() returns at once, nothing is
  // handed out, and the loop starts over.
  ghost predicate Spinning(u: Setup, c: Config)
    requires Typed(u, c)
  {
    !c.shutdown && c.stop && c.results == [] && 0 < |c.available| < u.count && SomeReady(u, c)
  }

  // The steps left before the main thread gets something done, blocks or returns.
  ghost function Rank(u: Setup, c: Config): nat
    requires Typed(u, c)
  {
    if c.main.Joining? then (if c.main.next <= u.count then u.count - c.main.next + 1 else 0)
    else if c.main.Returned? || c.main.Handing? || c.main == Stopping then 0
    else if c.main == Fetching then 3
    else if c.results != [] then
      match c.main
      case Settling => 7
      case Top => 6
      case Draining => 4
      case InWait => 5
      case InWaitForResults => 5
      case _ => 8
    else if |c.available| == u.count && (c.stop || !SomeReady(u, c)) then
      match c.main
      case Top => 6
      case Draining => 4
      case Offering => 3
      case Counting => 2
      case Settling => 1
      case _ => 5
    else if !c.stop && SomeReady(u, c) && c.available != [] then
      match c.main
      case Settling => 7
      case Top => 6
      case Draining => 4
      case Offering => 3
      case Counting => 2
      case _ => 5
    else
      match c.main
      case InWait => if c.available != [] then 6 else 0
      case Draining => 5
      case Offering => 4
      case Counting => 3
      case Settling => 2
      case Top => 1
      case _ => 0
  }

  lemma LookingLowersRank(u: Setup, c: Config)
    requires Shaped(u, c) && MainEnabled(u, c) && !Productive(u, c) && !Spinning(u, c)
    requires Typed(u, MainStep(u, c))
    ensures Rank(u, MainStep(u, c)) < Rank(u, c)
  {
    hide GoodNet, Fits, WorkerShape, Distinct, NothingMoreToDo, FirstReady, AfterRunning, Dismissed;
    if |c.available| >= u.count {
      Pigeonhole(c.available, u.count);
    }
  }

  // The only way for the main thread to take a step without coming nearer to the end.
  lemma MainProgress(u: Setup, c: Config)
    requires Inv(u, c) && (InvIsTyped(u, c); MainEnabled(u, c) && !Spinning(u, c))
    ensures var d := MainStep(u, c);
            && Inv(u, d) && Typed(u, d)
            && (Measure(u, d) < Measure(u, c) || (Measure(u, d) == Measure(u, c) && Rank(u, d) < Rank(u, c)))
  {
    hide Inv, Shaped, Typed, MainEnabled, Spinning, Rank, MainStep, Measure;
    InvIsTyped(u, c);
    InvIsShaped(u, c);
    MainKeepsInv(u, c);
    InvIsTyped(u, MainStep(u, c));
    MainNeverRaises(u, c);
    if !Productive(u, c) {
      LookingLowersRank(u, c);
    }
  }

  lemma InvIsTyped(u: Setup, c: Config)
    requires Inv(u, c)
    ensures Typed(u, c) && Shaped(u, c)
  {
    hide Inv, Shaped, Typed;
    InvIsShaped(u, c);
    ShapedIsTyped(u, c);
  }

  // ---------- No deadlock ----------

  lemma SomeoneMissing(s: seq<nat>, n: nat) returns (w: nat)
    requires |s| < n && Distinct(s)
    ensures w < n && w !in s
  {
    if forall v: nat :: v < n ==> v in s {
      SubsetSize(Upto(n), ElementsOf(s));
    }
    w :| w < n && w !in s;
  }

  lemma MissingIsEnabled(u: Setup, c: Config, w: nat)
    requires Shaped(u, c) && !c.shutdown && w < u.count && w !in c.available
    ensures WorkerEnabled(u, c, w)
  {
    assert WorkerShape(c, w);
  }

  ghost predicate SomeWorkerEnabled(u: Setup, c: Config)
    requires Typed(u, c)
  {
    exists w: nat :: WorkerEnabled(u, c, w)
  }

  // Whenever the main thread is blocked, some worker can take a step; the loops inside
  // getResults and processItem never block.
  lemma NoDeadlock(u: Setup, c: Config)
    requires Shaped(u, c) && !c.main.Returned?
    ensures MainEnabled(u, c) || SomeWorkerEnabled(u, c)
    ensures c.main == Fetching || c.main.Handing? ==> MainEnabled(u, c)
  {
    hide GoodNet, Fits, WorkerShape, Distinct, NothingMoreToDo;
    if !MainEnabled(u, c) {
      if c.main.Joining? {
        BlockedJoin(u, c);
      } else {
        var w := SomeoneMissing(c.available, u.count);
        MissingIsEnabled(u, c, w);
      }
    }
  }

  lemma BlockedJoin(u: Setup, c: Config)
    requires Shaped(u, c) && c.main.Joining? && !MainEnabled(u, c)
    ensures WorkerEnabled(u, c, c.main.next)
  {
    assert WorkerShape(c, c.main.next);
  }

  // While all workers are blocked, the main thread is neither blocked nor spinning.
  lemma QuietMainProgresses(u: Setup, c: Config)
    requires Shaped(u, c) && !c.main.Returned? && !SomeWorkerEnabled(u, c)
    ensures MainEnabled(u, c) && !Spinning(u, c)
  {
    hide GoodSetup, Fits, WorkerShape, Distinct, NothingMoreToDo, MainShape, NextReady;
    NoDeadlock(u, c);
    if Spinning(u, c) {
      var w := SomeoneMissing(c.available, u.count);
      MissingIsEnabled(u, c, w);
    }
  }

  // No wake-up is lost: a blocked wait() or waitForResults() is released only by a worker
  // registering or reporting, and a blocked worker only by the main thread filling its
  // queue; each of these notifies under the mutex.
  lemma OnlyNotifiersWake(u: Setup, c: Config, a: Action)
    requires Inv(u, c) && (InvIsTyped(u, c); Enabled(u, c, a))
    ensures (InvIsTyped(u, c); StepKeepsInv(u, c, a); InvIsTyped(u, Step(u, c, a));
             var d := Step(u, c, a);
             && (c.main in {InWait, InWaitForResults} && !MainEnabled(u, c) && MainEnabled(u, d) ==>
                   a.Work? && (c.workers[a.w].pc == Starting || c.workers[a.w].pc.Reporting?))
             && (forall w :: 0 <= w < u.count && !WorkerEnabled(u, c, w) && WorkerEnabled(u, d, w) ==>
                   a.Main? && (c.main.Handing? || c.main == Stopping)))
  {
    hide Inv, Fits, GoodSetup, WorkerShape, MainShape, Distinct, FirstReady, AfterResult, AfterRunning;
    InvIsTyped(u, c);
    StepKeepsInv(u, c, a);
    InvIsTyped(u, Step(u, c, a));
  }
}
