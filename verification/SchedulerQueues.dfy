// The two queues of the pool are first in, first out (src/WorkerPool.hh,
// src/ThreadSafeQueue.hh): in any run workers are served in the order in which they became
// available, and results are processed in the order in which they were reported.
module SchedulerQueues {
  import opened Names
  import opened Traversal
  import opened Options
  import opened Evaluation
  import opened Scheduler
  import opened SchedulerInvariant
  import opened SchedulerHistory
  import opened SchedulerRuns

  ghost predicate HandsOver(c: Config, a: Action)
  {
    a.Main? && c.main.Handing?
  }

  ghost predicate Drains(c: Config, a: Action)
  {
    a.Main? && c.main.Fetching?
  }

  // The items handed over from configuration m on and before n.
  ghost function HandOvers(trace: seq<Config>, acts: seq<Action>, m: nat, n: nat): nat
    requires m <= n <= |acts| < |trace|
  {
    if n == m then 0 else HandOvers(trace, acts, m, n - 1) + (if HandsOver(trace[n - 1], acts[n - 1]) then 1 else 0)
  }

  ghost function Drainings(trace: seq<Config>, acts: seq<Action>, m: nat, n: nat): nat
    requires m <= n <= |acts| < |trace|
  {
    if n == m then 0 else Drainings(trace, acts, m, n - 1) + (if Drains(trace[n - 1], acts[n - 1]) then 1 else 0)
  }

  // One step moves up everything behind what it takes, and puts what is new at the end.
  lemma StepShifts(u: Setup, c: Config, a: Action)
    requires Typed(u, c) && Enabled(u, c, a)
    ensures var d := Step(u, c, a);
            && (if HandsOver(c, a) then c.available != [] && d.available == c.available[1..]
                else c.available <= d.available)
            && (if Drains(c, a) then c.results != [] && d.results == c.results[1..]
                else c.results <= d.results)
  {
    hide AfterResult, FirstReady, NextReady, Fits, GoodSetup, Dismissed;
  }

  lemma {:induction false} AvailableShift(
      u: Setup, trace: seq<Config>, acts: seq<Action>, m: nat, n: nat, k: nat)
    requires IsRun(u, trace, acts) && m <= n <= |acts| && k < |trace[m].available|
    requires HandOvers(trace, acts, m, n) <= k
    ensures var j := k - HandOvers(trace, acts, m, n);
            j < |trace[n].available| && trace[n].available[j] == trace[m].available[k]
  {
    hide Typed, Enabled, Step, InitialConfig, GoodSetup, HandsOver;
    if m < n {
      AvailableShift(u, trace, acts, m, n - 1, k);
      assert IsStep(u, trace[n - 1], acts[n - 1], trace[n]);
      StepShifts(u, trace[n - 1], acts[n - 1]);
    }
  }

  lemma {:induction false} ResultsShift(
      u: Setup, trace: seq<Config>, acts: seq<Action>, m: nat, n: nat, k: nat)
    requires IsRun(u, trace, acts) && m <= n <= |acts| && k < |trace[m].results|
    requires Drainings(trace, acts, m, n) <= k
    ensures var j := k - Drainings(trace, acts, m, n);
            j < |trace[n].results| && trace[n].results[j] == trace[m].results[k]
  {
    hide Typed, Enabled, Step, InitialConfig, GoodSetup, Drains;
    if m < n {
      ResultsShift(u, trace, acts, m, n - 1, k);
      assert IsStep(u, trace[n - 1], acts[n - 1], trace[n]);
      StepShifts(u, trace[n - 1], acts[n - 1]);
    }
  }

  // The worker that registers at step m, behind k others, is given the item of the k-th
  // hand-over after that, counted from 0, and no earlier one.
  lemma ServedInTurn(u: Setup, trace: seq<Config>, acts: seq<Action>, m: nat, n: nat, w: nat)
    requires IsRun(u, trace, acts) && m < n < |acts|
    requires w < u.count && |trace[m].workers| == u.count && |trace[m + 1].workers| == u.count
    requires trace[m].workers[w].pc != Idle && trace[m + 1].workers[w].pc == Idle
    requires HandOvers(trace, acts, m + 1, n) == |trace[m].available| && HandsOver(trace[n], acts[n])
    ensures |trace[n].workers| == u.count && |trace[n + 1].workers| == u.count
    ensures trace[n].workers[w] == Worker(Idle, [])
    ensures trace[n + 1].workers[w] == Worker(Idle, [Item(trace[n].main.item)])
  {
    hide Typed, Enabled, Step, InitialConfig, GoodSetup, HandsOver, Inv;
    assert IsStep(u, trace[m], acts[m], trace[m + 1]);
    Registers(u, trace[m], acts[m], w);
    AvailableShift(u, trace, acts, m + 1, n, |trace[m].available|);
    assert IsStep(u, trace[n], acts[n], trace[n + 1]);
    RunKeepsInv(u, trace, acts, n);
    HandedTo(u, trace[n], acts[n]);
  }

  lemma Registers(u: Setup, c: Config, a: Action, w: nat)
    requires Typed(u, c) && Enabled(u, c, a) && w < u.count && c.workers[w].pc != Idle
    requires var d := Step(u, c, a); |d.workers| == u.count && d.workers[w].pc == Idle
    ensures Step(u, c, a).available == c.available + [w]
  {
    hide MainStep, MainEnabled, GoodSetup, Fits, Dismissed;
    if a.Main? {
      MainRegistersNone(u, c, w);
    }
  }

  lemma MainRegistersNone(u: Setup, c: Config, w: nat)
    requires Typed(u, c) && MainEnabled(u, c) && w < u.count
    ensures var d := MainStep(u, c); |d.workers| == u.count && d.workers[w].pc == c.workers[w].pc
  {
    hide AfterResult, FirstReady, NextReady, Fits, GoodSetup, Hand, Dismissed;
    if c.main.Handing? {
      HandKeepsPc(u, c, w);
    }
  }

  lemma HandKeepsPc(u: Setup, c: Config, w: nat)
    requires Typed(u, c) && c.main.Handing? && c.available != [] && w < u.count
    ensures var d := Hand(u, c, c.main.item); |d.workers| == u.count && d.workers[w].pc == c.workers[w].pc
  {
    hide Fits, GoodSetup;
  }

  lemma HandedTo(u: Setup, c: Config, a: Action)
    requires Inv(u, c) && Typed(u, c) && Enabled(u, c, a) && HandsOver(c, a)
    ensures c.available != [] && c.available[0] < u.count == |c.workers| && |Step(u, c, a).workers| == u.count
    ensures var w, d := c.available[0], Step(u, c, a);
            c.workers[w] == Worker(Idle, []) && d.workers[w] == Worker(Idle, [Item(c.main.item)])
  {
    hide AfterResult, FirstReady, NextReady, Fits, GoodSetup, LogExact, LogOrdered, ErrorsExact, FlightExact;
    assert c.available[0] in c.available;
    assert WorkerShape(c, c.available[0]);
  }

  // The result that a worker reports at step m, behind k others, is the one that the k-th
  // draining after that takes: its item is completed or failed there, and not before.
  lemma DrainedInTurn(u: Setup, trace: seq<Config>, acts: seq<Action>, m: nat, n: nat, w: nat)
    requires IsRun(u, trace, acts) && m < n < |acts|
    requires w < u.count && |trace[m].workers| == u.count && acts[m].Work? && acts[m].w == w
    requires trace[m].workers[w].pc.Reporting?
    requires Drainings(trace, acts, m + 1, n) == |trace[m].results| && Drains(trace[n], acts[n])
    ensures var pc := trace[m].workers[w].pc;
            && pc.item in trace[n].states && trace[n].states[pc.item] == Running
            && pc.item in trace[n + 1].states
            && trace[n + 1].states[pc.item] == (if pc.ok then Completed else Failed)
  {
    hide Typed, Enabled, Step, InitialConfig, GoodSetup, Drains, Inv;
    var pc := trace[m].workers[w].pc;
    assert IsStep(u, trace[m], acts[m], trace[m + 1]);
    Reports(u, trace[m], acts[m]);
    ResultsShift(u, trace, acts, m + 1, n, |trace[m].results|);
    assert IsStep(u, trace[n], acts[n], trace[n + 1]);
    RunKeepsInv(u, trace, acts, n);
    Settles(u, trace[n], acts[n]);
  }

  lemma Reports(u: Setup, c: Config, a: Action)
    requires Typed(u, c) && Enabled(u, c, a) && a.Work? && c.workers[a.w].pc.Reporting?
    ensures Step(u, c, a).results == c.results + [(c.workers[a.w].pc.item, c.workers[a.w].pc.ok)]
  {
  }

  lemma Settles(u: Setup, c: Config, a: Action)
    requires Inv(u, c) && Typed(u, c) && Enabled(u, c, a) && Drains(c, a)
    ensures c.results != []
    ensures var (x, ok), d := c.results[0], Step(u, c, a);
            x in c.states && c.states[x] == Running && x in d.states
            && d.states[x] == (if ok then Completed else Failed)
  {
    hide AfterResult, FirstReady, NextReady, Fits, GoodSetup, LogExact, LogOrdered, ErrorsExact, FlightExact,
         WorkerShape, Consistent;
    ResultIsRunningIn(u, c);
    ResultKeeps(u.net, u.mode, c.states, c.results[0].0, c.results[0].1);
  }

  // What is chosen for a free worker is the first ready item in dependency order; nothing else
  // starts an item.
  lemma ChosenInOrder(u: Setup, c: Config, a: Action, x: string)
    requires Reachable(u, c)
    requires (ReachableInv(u, c); Enabled(u, c, a)) && x in c.states && c.states[x] != Running
    requires (ReachableInv(u, c); var d := Step(u, c, a); x in d.states && d.states[x] == Running)
    ensures a.Main? && c.main == Counting && c.states[x] == Ready && x in u.net.order
    ensures forall y :: y in u.net.order[..IndexOf(u.net.order, x)] ==> y in c.states && c.states[y] != Ready
  {
    hide AfterResult, Fits, GoodSetup, Inv, Consistent, NextReady, WorkerStep, MainStep, WorkerEnabled, MainEnabled;
    ReachableInv(u, c);
    if a.Work? {
      WorkerKeepsStates(u, c, a.w, a.ok);
    } else {
      MainStates(u, c);
      if c.main == Counting {
        NextReadyIsFirst(u, c);
      } else {
        ResultIsRunningIn(u, c);
        InvConsistent(u, c);
        ResultKeeps(u.net, u.mode, c.states, c.results[0].0, c.results[0].1);
      }
    }
  }

  // The states change when an item is chosen and when a result is taken.
  lemma MainStates(u: Setup, c: Config)
    requires Typed(u, c) && MainEnabled(u, c)
    ensures var d := MainStep(u, c);
            || d.states == c.states
            || (c.main == Counting && NextReady(u, c).Some?
                && d.states == AfterRunning(c.states, NextReady(u, c).value))
            || (c.main == Fetching && c.results != []
                && d.states == AfterResult(u.net, u.mode, c.states, c.results[0].0, c.results[0].1))
  {
    hide AfterResult, AfterRunning, NextReady, Fits, GoodSetup, Hand, Dismissed;
    if c.main.Handing? {
      HandKeepsStates(u, c);
    }
  }

  lemma WorkerKeepsStates(u: Setup, c: Config, w: nat, ok: bool)
    requires Typed(u, c) && WorkerEnabled(u, c, w)
    ensures WorkerStep(u, c, w, ok).states == c.states
  {
    hide Fits, GoodSetup;
  }

  lemma HandKeepsStates(u: Setup, c: Config)
    requires Typed(u, c) && c.main.Handing? && c.available != []
    ensures Hand(u, c, c.main.item).states == c.states
  {
    hide Fits, GoodSetup;
  }

  lemma InvConsistent(u: Setup, c: Config)
    requires Inv(u, c)
    ensures Consistent(u.net, u.mode, c.states)
  {
    hide Consistent, FlightExact, LogExact, LogOrdered, ErrorsExact;
  }

  lemma NextReadyIsFirst(u: Setup, c: Config)
    requires Typed(u, c) && NextReady(u, c).Some?
    ensures var x := NextReady(u, c).value;
            && x in u.net.order && x in c.states && c.states[x] == Ready
            && forall y :: y in u.net.order[..IndexOf(u.net.order, x)] ==> y in c.states && c.states[y] != Ready
  {
    hide Fits, GoodSetup, FirstReady;
    OrderKnown(u, c);
    FirstReadyIsFirst(u.net.order, c.states);
  }

  lemma {:induction false} FirstReadyIsFirst(order: seq<string>, st: States)
    requires (forall x :: x in order ==> x in st) && FirstReady(order, st).Some?
    ensures var x := FirstReady(order, st).value;
            forall y :: y in order[..IndexOf(order, x)] ==> y in st && st[y] != Ready
  {
    if st[order[0]] != Ready {
      FirstReadyIsFirst(order[1..], st);
      var x := FirstReady(order, st).value;
      var k := IndexOf(order[1..], x);
      assert order[..k + 1] == [order[0]] + order[1..][..k];
    }
  }
}
