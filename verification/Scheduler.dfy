// The build run as a state machine: DependencyRunner::run on the main thread and
// WorkerPool::worker_main on every worker, interleaved at the granularity of the pool's
// critical sections.  A condition wait is a guard.
module Scheduler {
  import opened Names
  import opened Options
  import opened Traversal
  import opened Evaluation

  // What run() is given: the graph, propagate_failure, num_workers, stop_on_first_error.
  datatype Setup = Setup(net: Net, mode: Mode, count: nat, stopOnError: bool)

  ghost predicate GoodSetup(u: Setup)
  {
    GoodNet(u.net) && u.mode != Intended && u.count >= 1
  }

  // Where the main thread is.
  datatype MainPc =
    | Top                      // about to choose between wait and waitForResults
    | InWait
    | InWaitForResults
    | Draining                 // about to test resultsAvailable
    | Fetching                 // in getResults
    | Offering                 // about to test resultsAvailable before handing out
    | Counting                 // about to test availableWorkers and nextReadyItem
    | Handing(item: string)    // setRunning done, in processItem
    | Settling                 // about to test idle
    | Stopping                 // about to request shutdown
    | Joining(next: nat)
    | Returned(result: bool)

  // A queue entry: an item, or the request to exit.
  datatype Message = Item(item: string) | Exit

  datatype WorkerPc =
    | Starting                 // about to register as available
    | Idle                     // in dequeue
    | Working(item: string)    // in the method
    | Reporting(item: string, ok: bool)
    | Gone

  datatype Worker = Worker(pc: WorkerPc, queue: seq<Message>)

  // Calls of the method and their ends, in order.
  datatype Event = Start(item: string) | Return(item: string, ok: bool)

  datatype Config = Config(
    main: MainPc, stop: bool, anyErrors: bool, states: States,
    results: seq<(string, bool)>, available: seq<nat>, shutdown: bool,
    workers: seq<Worker>, log: seq<Event>)

  datatype Action = Main | Work(w: nat, ok: bool)

  // nextReadyItem
  function FirstReady(order: seq<string>, st: States): (r: Option<string>)
    requires forall x :: x in order ==> x in st
    ensures r.Some? ==> r.value in order && st[r.value] == Ready
    ensures r.None? ==> forall x :: x in order ==> st[x] != Ready
  {
    if order == [] then None
    else if st[order[0]] == Ready then Some(order[0])
    else FirstReady(order[1..], st)
  }

  ghost predicate Typed(u: Setup, c: Config)
  {
    && GoodSetup(u)
    && Fits(u.net, c.states)
    && |c.workers| == u.count
    && (forall i :: 0 <= i < |c.available| ==> c.available[i] < u.count)
    && (forall i :: 0 <= i < |c.results| ==> c.results[i].0 in c.states)
  }

  lemma OrderKnown(u: Setup, c: Config)
    requires Typed(u, c)
    ensures forall x :: x in u.net.order <==> x in c.states
  {
  }

  ghost function NextReady(u: Setup, c: Config): (r: Option<string>)
    requires Typed(u, c)
    ensures r.Some? ==> r.value in c.states && c.states[r.value] == Ready
    ensures r.None? ==> forall x :: x in c.states ==> c.states[x] != Ready
  {
    OrderKnown(u, c);
    FirstReady(u.net.order, c.states)
  }

  ghost function InitialConfig(u: Setup): Config
  {
    Config(Top, false, false, Initial(u.net), [], [], false,
           seq(u.count, i => Worker(Starting, [])), [])
  }

  // ---------- Guards ----------

  ghost predicate MainEnabled(u: Setup, c: Config)
    requires Typed(u, c)
  {
    match c.main
    case InWait => c.shutdown || c.results != [] || c.available != []
    case InWaitForResults => c.shutdown || c.results != [] || |c.available| >= u.count
    case Fetching => c.results != []
    case Handing(_) => c.available != []
    case Joining(i) => i >= u.count || c.workers[i].pc == Gone
    case Returned(_) => false
    case _ => true
  }

  ghost predicate WorkerEnabled(u: Setup, c: Config, w: nat)
    requires Typed(u, c)
  {
    w < u.count && c.workers[w].pc != Gone && (c.workers[w].pc == Idle ==> c.workers[w].queue != [])
  }

  ghost predicate Enabled(u: Setup, c: Config, a: Action)
    requires Typed(u, c)
  {
    match a
    case Main => MainEnabled(u, c)
    case Work(w, _) => WorkerEnabled(u, c, w)
  }

  // ---------- Steps ----------

  ghost function MainStep(u: Setup, c: Config): Config
    requires Typed(u, c) && MainEnabled(u, c)
  {
    match c.main
    case Top => c.(main := if NextReady(u, c).Some? then InWait else InWaitForResults)
    case InWait => c.(main := Draining)
    case InWaitForResults => c.(main := Draining)
    case Draining => c.(main := if c.results != [] then Fetching else if !c.stop then Offering else Settling)
    case Fetching => Fetch(u, c)
    case Offering => c.(main := if c.results == [] then Counting else Settling)
    case Counting =>
      if c.available != [] && NextReady(u, c).Some? then
        var item := NextReady(u, c).value;
        c.(main := Handing(item), states := AfterRunning(c.states, item))
      else c.(main := Settling)
    case Handing(item) => Hand(u, c, item)
    case Settling =>
      c.(main := if |c.available| == u.count && c.results == [] && (c.stop || NextReady(u, c).None?)
                 then Stopping else Top)
    case Stopping => c.(main := Joining(0), shutdown := true, workers := Dismissed(c.workers))
    case Joining(i) => c.(main := if i < u.count then Joining(i + 1) else Returned(!c.anyErrors))
  }

  // getResults, then setCompleted or setFailed
  ghost function Fetch(u: Setup, c: Config): Config
    requires Typed(u, c) && c.results != []
  {
    var (item, ok) := c.results[0];
    c.(main := Draining,
       results := c.results[1..],
       states := AfterResult(u.net, u.mode, c.states, item, ok),
       anyErrors := c.anyErrors || !ok,
       stop := c.stop || (!ok && u.stopOnError))
  }

  // processItem
  ghost function Hand(u: Setup, c: Config, item: string): Config
    requires Typed(u, c) && c.available != []
  {
    var w := c.available[0];
    c.(main := Offering, available := c.available[1..],
       workers := c.workers[w := c.workers[w].(queue := c.workers[w].queue + [Item(item)])])
  }

  // requestShutdown
  ghost function Dismissed(workers: seq<Worker>): (r: seq<Worker>)
    ensures |r| == |workers|
    ensures forall i :: 0 <= i < |r| ==> r[i] == workers[i].(queue := workers[i].queue + [Exit])
  {
    seq(|workers|, i requires 0 <= i < |workers| => workers[i].(queue := workers[i].queue + [Exit]))
  }

  ghost function WorkerStep(u: Setup, c: Config, w: nat, ok: bool): Config
    requires Typed(u, c) && WorkerEnabled(u, c, w)
  {
    var k := c.workers[w];
    match k.pc
    case Starting =>
      c.(available := c.available + [w], workers := c.workers[w := k.(pc := Idle)])
    case Idle =>
      if k.queue[0] == Exit then c.(workers := c.workers[w := Worker(Gone, k.queue[1..])])
      else
        c.(workers := c.workers[w := Worker(Working(k.queue[0].item), k.queue[1..])],
           log := c.log + [Start(k.queue[0].item)])
    case Working(item) =>
      c.(workers := c.workers[w := k.(pc := Reporting(item, ok))], log := c.log + [Return(item, ok)])
    case Reporting(item, status) =>
      c.(results := c.results + [(item, status)], available := c.available + [w],
         workers := c.workers[w := k.(pc := Idle)])
  }

  ghost function Step(u: Setup, c: Config, a: Action): Config
    requires Typed(u, c) && Enabled(u, c, a)
  {
    match a
    case Main => MainStep(u, c)
    case Work(w, ok) => WorkerStep(u, c, w, ok)
  }
}
