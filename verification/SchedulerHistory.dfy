// Where every running item is, and what has been called, in every reachable configuration.
module SchedulerHistory {
  import opened Names
  import opened Traversal
  import opened Evaluation
  import opened Scheduler
  import opened SchedulerInvariant

  // ---------- Items in flight ----------

  function QueuedItems(queue: seq<Message>): multiset<string>
  {
    if queue == [] then multiset{}
    else (if queue[0].Item? then multiset{queue[0].item} else multiset{}) + QueuedItems(queue[1..])
  }

  function CalledItems(pc: WorkerPc): multiset<string>
  {
    match pc
    case Working(item) => multiset{item}
    case Reporting(item, _) => multiset{item}
    case _ => multiset{}
  }

  function ReportedItems(pc: WorkerPc): multiset<(string, bool)>
  {
    match pc
    case Reporting(item, ok) => multiset{(item, ok)}
    case _ => multiset{}
  }

  function AllQueued(workers: seq<Worker>): multiset<string>
  {
    if workers == [] then multiset{}
    else AllQueued(workers[..|workers| - 1]) + QueuedItems(workers[|workers| - 1].queue)
  }

  function AllCalled(workers: seq<Worker>): multiset<string>
  {
    if workers == [] then multiset{}
    else AllCalled(workers[..|workers| - 1]) + CalledItems(workers[|workers| - 1].pc)
  }

  function AllReported(workers: seq<Worker>): multiset<(string, bool)>
  {
    if workers == [] then multiset{}
    else AllReported(workers[..|workers| - 1]) + ReportedItems(workers[|workers| - 1].pc)
  }

  function ResultItems(results: seq<(string, bool)>): multiset<string>
  {
    if results == [] then multiset{}
    else ResultItems(results[..|results| - 1]) + multiset{results[|results| - 1].0}
  }

  function MainItem(pc: MainPc): multiset<string>
  {
    if pc.Handing? then multiset{pc.item} else multiset{}
  }

  // Queued, executing and undrained items, and the one being handed to a worker.
  function InFlight(c: Config): multiset<string>
  {
    MainItem(c.main) + AllQueued(c.workers) + AllCalled(c.workers) + ResultItems(c.results)
  }

  // ---------- What the log says ----------

  function Starts(log: seq<Event>): multiset<string>
  {
    if log == [] then multiset{}
    else
      var e := log[|log| - 1];
      Starts(log[..|log| - 1]) + (if e.Start? then multiset{e.item} else multiset{})
  }

  function Returns(log: seq<Event>): multiset<(string, bool)>
  {
    if log == [] then multiset{}
    else
      var e := log[|log| - 1];
      Returns(log[..|log| - 1]) + (if e.Return? then multiset{(e.item, e.ok)} else multiset{})
  }

  ghost function DoneItems(st: States): set<string>
  {
    set x | x in st && (st[x] == Completed || st[x] == Failed)
  }

  ghost function DonePairs(st: States): set<(string, bool)>
  {
    (set x | x in st && st[x] == Completed :: (x, true)) + (set x | x in st && st[x] == Failed :: (x, false))
  }

  // The evaluator's running items are exactly the ones in flight, each in one place.
  ghost predicate FlightExact(c: Config)
  {
    InFlight(c) == multiset(RunningItems(c.states))
  }

  // A method call has begun for the items being executed, reported or done, and has
  // ended for those reported or done, with the recorded result.
  ghost predicate LogExact(c: Config)
  {
    && Starts(c.log) == AllCalled(c.workers) + ResultItems(c.results) + multiset(DoneItems(c.states))
    && Returns(c.log) == AllReported(c.workers) + multiset(c.results) + multiset(DonePairs(c.states))
  }

  // Before position n of its dependencies everything had returned true, and the one at n,
  // if any, false.
  ghost predicate CutInLog(before: seq<Event>, deps: seq<string>, n: int)
  {
    && 0 <= n <= |deps|
    && (forall k :: 0 <= k < n ==> Return(deps[k], true) in before)
    && (n < |deps| ==> Return(deps[n], false) in before)
  }

  // What the results so far say about a call that begins now.  With propagation, all direct
  // and indirect dependencies have returned true; without, those listed before the first
  // failed one have.
  ghost predicate StartJustified(u: Setup, before: seq<Event>, x: string)
  {
    && x in u.net.deps
    && (u.mode == Propagate ==> forall y :: DependsOn(u.net.deps, x, y) ==> Return(y, true) in before)
    && (u.mode == KeepGoing ==> exists n :: CutInLog(before, u.net.deps[x], n))
  }

  ghost predicate LogOrdered(u: Setup, log: seq<Event>)
  {
    forall i :: 0 <= i < |log| && log[i].Start? ==> StartJustified(u, log[..i], log[i].item)
  }

  ghost predicate ErrorsExact(u: Setup, c: Config)
  {
    && (c.anyErrors <==> exists x :: x in c.states && c.states[x] == Failed)
    && (c.stop <==> c.anyErrors && u.stopOnError)
  }

  ghost predicate Inv(u: Setup, c: Config)
  {
    && Shaped(u, c)
    && Consistent(u.net, u.mode, c.states)
    && FlightExact(c)
    && LogExact(c)
    && LogOrdered(u, c.log)
    && ErrorsExact(u, c)
  }

  // ---------- Updating one worker ----------

  lemma AddBoth<T>(a: multiset<T>, x: multiset<T>, b: multiset<T>, y: multiset<T>, z: multiset<T>)
    requires a + x == b + y
    ensures (a + z) + x == (b + z) + y
  {
    SwapLast(a, x, z);
    SwapLast(b, y, z);
  }

  lemma CancelSame<T>(a: multiset<T>, b: multiset<T>, x: multiset<T>)
    requires a + x == b + x
    ensures a == b
  {
    forall e
      ensures a[e] == b[e]
    {
      assert (a + x)[e] == (b + x)[e];
    }
  }

  // Taking x from one part and putting it into another.
  lemma Move<T>(
      m: multiset<T>, a: multiset<T>, a': multiset<T>, b: multiset<T>, b': multiset<T>, n: multiset<T>, x: multiset<T>)
    requires a' + x == a && b' == b + x
    ensures m + a + b + n == m + a' + b' + n
    ensures m + b + a + n == m + b' + a' + n
    ensures m + n + a + b == m + n + a' + b'
  {
  }

  // Removing the same part from both sides.
  lemma Cancel<T>(a: multiset<T>, r: multiset<T>, rest: multiset<T>, x: multiset<T>, s: multiset<T>, t: multiset<T>)
    requires a + r == s && r == x + rest && s == t + x
    ensures a + rest == t
  {
    forall e
      ensures (a + rest)[e] == t[e]
    {
      assert (a + r)[e] == s[e] && r[e] == (x + rest)[e] && s[e] == (t + x)[e];
    }
  }

  lemma SwapLast<T>(a: multiset<T>, x: multiset<T>, y: multiset<T>)
    ensures (a + y) + x == (a + x) + y
  {
  }

  lemma {:induction false} QueuedUpdate(workers: seq<Worker>, w: nat, k: Worker)
    requires w < |workers|
    ensures AllQueued(workers[w := k]) + QueuedItems(workers[w].queue) == AllQueued(workers) + QueuedItems(k.queue)
  {
    hide QueuedItems;
    var n := |workers| - 1;
    if w < n {
      QueuedUpdate(workers[..n], w, k);
      assert workers[w := k][..n] == workers[..n][w := k];
      AddBoth(AllQueued(workers[..n][w := k]), QueuedItems(workers[w].queue),
              AllQueued(workers[..n]), QueuedItems(k.queue), QueuedItems(workers[n].queue));
    } else {
      assert workers[w := k][..n] == workers[..n];
      SwapLast(AllQueued(workers[..n]), QueuedItems(workers[n].queue), QueuedItems(k.queue));
    }
  }

  lemma {:induction false} CalledUpdate(workers: seq<Worker>, w: nat, k: Worker)
    requires w < |workers|
    ensures AllCalled(workers[w := k]) + CalledItems(workers[w].pc) == AllCalled(workers) + CalledItems(k.pc)
  {
    hide CalledItems;
    var n := |workers| - 1;
    if w < n {
      CalledUpdate(workers[..n], w, k);
      assert workers[w := k][..n] == workers[..n][w := k];
      AddBoth(AllCalled(workers[..n][w := k]), CalledItems(workers[w].pc),
              AllCalled(workers[..n]), CalledItems(k.pc), CalledItems(workers[n].pc));
    } else {
      assert workers[w := k][..n] == workers[..n];
      SwapLast(AllCalled(workers[..n]), CalledItems(workers[n].pc), CalledItems(k.pc));
    }
  }

  lemma {:induction false} ReportedUpdate(workers: seq<Worker>, w: nat, k: Worker)
    requires w < |workers|
    ensures AllReported(workers[w := k]) + ReportedItems(workers[w].pc) == AllReported(workers) + ReportedItems(k.pc)
  {
    hide ReportedItems;
    var n := |workers| - 1;
    if w < n {
      ReportedUpdate(workers[..n], w, k);
      assert workers[w := k][..n] == workers[..n][w := k];
      AddBoth(AllReported(workers[..n][w := k]), ReportedItems(workers[w].pc),
              AllReported(workers[..n]), ReportedItems(k.pc), ReportedItems(workers[n].pc));
    } else {
      assert workers[w := k][..n] == workers[..n];
      SwapLast(AllReported(workers[..n]), ReportedItems(workers[n].pc), ReportedItems(k.pc));
    }
  }

  lemma {:induction false} QueuedAppend(a: seq<Message>, m: Message)
    ensures QueuedItems(a + [m]) == QueuedItems(a) + (if m.Item? then multiset{m.item} else multiset{})
  {
    if a == [] {
      assert [m][1..] == [];
      assert a + [m] == [m];
    } else {
      QueuedAppend(a[1..], m);
      assert (a + [m])[1..] == a[1..] + [m];
    }
  }

  lemma {:induction false} DismissedItems(workers: seq<Worker>)
    ensures AllQueued(Dismissed(workers)) == AllQueued(workers)
    ensures AllCalled(Dismissed(workers)) == AllCalled(workers)
    ensures AllReported(Dismissed(workers)) == AllReported(workers)
  {
    hide QueuedItems, CalledItems, ReportedItems;
    if workers != [] {
      var n := |workers| - 1;
      DismissedItems(workers[..n]);
      assert Dismissed(workers)[..n] == Dismissed(workers[..n]);
      QueuedAppend(workers[n].queue, Exit);
    }
  }

  lemma {:induction false} DropFirstResult(results: seq<(string, bool)>)
    requires results != []
    ensures ResultItems(results) == multiset{results[0].0} + ResultItems(results[1..])
    ensures multiset(results) == multiset{results[0]} + multiset(results[1..])
  {
    var n := |results| - 1;
    assert results == [results[0]] + results[1..];
    if n > 0 {
      DropFirstResult(results[..n]);
      assert results[..n][1..] == results[1..][..n - 1];
    }
  }

  lemma AppendResult(results: seq<(string, bool)>, r: (string, bool))
    ensures ResultItems(results + [r]) == ResultItems(results) + multiset{r.0}
    ensures multiset(results + [r]) == multiset(results) + multiset{r}
  {
    assert (results + [r])[..|results|] == results;
  }

  lemma AppendLog(log: seq<Event>, e: Event)
    ensures Starts(log + [e]) == Starts(log) + (if e.Start? then multiset{e.item} else multiset{})
    ensures Returns(log + [e]) == Returns(log) + (if e.Return? then multiset{(e.item, e.ok)} else multiset{})
  {
    assert (log + [e])[..|log|] == log;
  }

  lemma {:induction false} NoItemsInitially(n: nat)
    ensures var workers := seq(n, i => Worker(Starting, []));
            AllQueued(workers) == multiset{} && AllCalled(workers) == multiset{} && AllReported(workers) == multiset{}
  {
    if n > 0 {
      NoItemsInitially(n - 1);
      var workers := seq(n, i => Worker(Starting, []));
      assert workers[..n - 1] == seq(n - 1, i => Worker(Starting, []));
    }
  }

  lemma {:induction false} ReturnInLog(log: seq<Event>, x: string, ok: bool)
    ensures (x, ok) in Returns(log) <==> Return(x, ok) in log
  {
    if log != [] {
      var n := |log| - 1;
      ReturnInLog(log[..n], x, ok);
      assert log == log[..n] + [log[n]];
    }
  }

  // ---------- Initially ----------

  lemma InitialInv(u: Setup)
    requires GoodSetup(u)
    ensures Inv(u, InitialConfig(u))
  {
    var c := InitialConfig(u);
    InitialShaped(u);
    InitialConsistent(u.net, u.mode);
    NoItemsInitially(u.count);
    assert DoneItems(c.states) == {};
    assert DonePairs(c.states) == {};
  }

  // ---------- Steps of the main thread ----------

  lemma StartSets(st: States, item: string)
    requires item in st && st[item] == Ready
    ensures multiset(RunningItems(AfterRunning(st, item))) == multiset(RunningItems(st)) + multiset{item}
    ensures DoneItems(AfterRunning(st, item)) == DoneItems(st)
    ensures DonePairs(AfterRunning(st, item)) == DonePairs(st)
  {
    var r := AfterRunning(st, item);
    assert RunningItems(r) == RunningItems(st) + {item};
    assert forall x :: x in st && r[x] == Completed <==> x in st && st[x] == Completed;
    assert forall x :: x in st && r[x] == Failed <==> x in st && st[x] == Failed;
  }

  lemma ResultSets(st: States, r: States, item: string, ok: bool)
    requires item in st && st[item] == Running && r.Keys == st.Keys
    requires r[item] == (if ok then Completed else Failed)
    requires forall x :: x in st && x != item ==>
               r[x] == st[x] || (st[x] == Waiting && (r[x] == Ready || r[x] == DepFailed))
    ensures multiset(RunningItems(st)) == multiset(RunningItems(r)) + multiset{item}
    ensures multiset(DoneItems(r)) == multiset(DoneItems(st)) + multiset{item}
    ensures multiset(DonePairs(r)) == multiset(DonePairs(st)) + multiset{(item, ok)}
    ensures (exists x :: x in r && r[x] == Failed) <==> !ok || exists x :: x in st && st[x] == Failed
  {
    assert RunningItems(st) == RunningItems(r) + {item};
    assert DoneItems(r) == DoneItems(st) + {item};
    assert DonePairs(r) == DonePairs(st) + {(item, ok)};
    assert (item, ok) !in DonePairs(st);
    if x :| x in st && st[x] == Failed {
      assert r[x] == Failed;
    }
    if !ok {
      assert r[item] == Failed;
    }
  }

  // The item whose result is drained is running.
  lemma ResultIsRunning(c: Config)
    requires FlightExact(c) && c.results != []
    ensures c.results[0].0 in c.states && c.states[c.results[0].0] == Running
  {
    DropFirstResult(c.results);
    var x := c.results[0].0;
    assert InFlight(c)[x] > 0;
    assert x in multiset(RunningItems(c.states));
  }

  lemma FetchFlight(u: Setup, c: Config, item: string, ok: bool)
    requires Typed(u, c) && c.main == Fetching && c.results != [] && c.results[0] == (item, ok)
    requires Consistent(u.net, u.mode, c.states) && FlightExact(c)
    ensures FlightExact(Fetch(u, c))
  {
    hide AllQueued, AllCalled, ResultItems, AfterResult, Consistent, GoodSetup, Fits;
    ResultIsRunning(c);
    ResultKeeps(u.net, u.mode, c.states, item, ok);
    var r := AfterResult(u.net, u.mode, c.states, item, ok);
    ResultSets(c.states, r, item, ok);
    DropFirstResult(c.results);
    Cancel(AllQueued(c.workers) + AllCalled(c.workers), ResultItems(c.results), ResultItems(c.results[1..]),
      multiset{item},
           multiset(RunningItems(c.states)), multiset(RunningItems(r)));
  }

  lemma FetchLog(u: Setup, c: Config, item: string, ok: bool)
    requires Typed(u, c) && c.main == Fetching && c.results != [] && c.results[0] == (item, ok)
    requires Consistent(u.net, u.mode, c.states) && FlightExact(c) && LogExact(c)
    ensures LogExact(Fetch(u, c))
  {
    hide AllCalled, AllReported, Starts, Returns, ResultItems, AfterResult, Consistent, GoodSetup, FlightExact, Fits,
         DoneItems, DonePairs;
    ResultIsRunning(c);
    ResultKeeps(u.net, u.mode, c.states, item, ok);
    var r := AfterResult(u.net, u.mode, c.states, item, ok);
    ResultSets(c.states, r, item, ok);
    DropFirstResult(c.results);
    Shift(AllCalled(c.workers), multiset{item}, ResultItems(c.results[1..]), multiset(DoneItems(c.states)));
    Shift(AllReported(c.workers), multiset{(item, ok)}, multiset(c.results[1..]), multiset(DonePairs(c.states)));
  }

  lemma Shift<T>(a: multiset<T>, x: multiset<T>, b: multiset<T>, d: multiset<T>)
    ensures a + (x + b) + d == a + b + (d + x)
  {
  }

  lemma FetchErrors(u: Setup, c: Config, item: string, ok: bool)
    requires Typed(u, c) && c.main == Fetching && c.results != [] && c.results[0] == (item, ok)
    requires Consistent(u.net, u.mode, c.states) && FlightExact(c) && ErrorsExact(u, c)
    ensures ErrorsExact(u, Fetch(u, c)) && Consistent(u.net, u.mode, Fetch(u, c).states)
  {
    hide AllQueued, AllCalled, AllReported, ResultItems, AfterResult, Consistent, GoodSetup, Fits;
    ResultIsRunning(c);
    ResultKeeps(u.net, u.mode, c.states, item, ok);
    ResultSets(c.states, AfterResult(u.net, u.mode, c.states, item, ok), item, ok);
  }

  lemma FetchKeepsInv(u: Setup, c: Config)
    requires Inv(u, c) && c.main == Fetching && c.results != [] && Shaped(u, Fetch(u, c))
    ensures Inv(u, Fetch(u, c))
  {
    hide Shaped, Consistent, AfterResult, FlightExact, LogExact, ErrorsExact, LogOrdered;
    ShapedIsTyped(u, c);
    var (item, ok) := c.results[0];
    FetchFlight(u, c, item, ok);
    FetchLog(u, c, item, ok);
    FetchErrors(u, c, item, ok);
  }

  lemma ShapedIsTyped(u: Setup, c: Config)
    requires Shaped(u, c)
    ensures Typed(u, c)
  {
  }

  // A step that changes neither items nor log.
  lemma SameItemsKeepInv(u: Setup, c: Config, r: Config)
    requires Inv(u, c) && Shaped(u, r)
    requires MainItem(r.main) == MainItem(c.main) && AllQueued(r.workers) == AllQueued(c.workers)
    requires AllCalled(r.workers) == AllCalled(c.workers) && AllReported(r.workers) == AllReported(c.workers)
    requires r.results == c.results && r.states == c.states && r.log == c.log
    requires r.stop == c.stop && r.anyErrors == c.anyErrors
    ensures Inv(u, r)
  {
    hide Shaped, Consistent, AllQueued, AllCalled, AllReported, LogOrdered;
  }

  lemma StartKeepsInv(u: Setup, c: Config, item: string)
    requires Inv(u, c) && c.main == Counting && item in c.states && c.states[item] == Ready
    requires Shaped(u, c.(main := Handing(item), states := AfterRunning(c.states, item)))
    ensures Inv(u, c.(main := Handing(item), states := AfterRunning(c.states, item)))
  {
    hide Shaped, Consistent, AllQueued, AllCalled, AllReported, ResultItems, LogOrdered, Starts, Returns, AfterRunning;
    RunningKeeps(u.net, u.mode, c.states, item);
    StartSets(c.states, item);
    StartFails(c.states, item);
  }

  lemma StartFails(st: States, item: string)
    requires item in st && st[item] == Ready
    ensures (exists x :: x in AfterRunning(st, item) && AfterRunning(st, item)[x] == Failed)
            <==> exists x :: x in st && st[x] == Failed
  {
    if x :| x in st && st[x] == Failed {
      assert AfterRunning(st, item)[x] == Failed;
    }
  }

  lemma HandKeepsInv(u: Setup, c: Config, item: string)
    requires Inv(u, c) && c.main == Handing(item) && c.available != [] && c.available[0] < |c.workers|
    requires Typed(u, c) && Shaped(u, Hand(u, c, item))
    ensures Inv(u, Hand(u, c, item))
  {
    hide Shaped, Typed, Consistent, AllQueued, AllCalled, AllReported, ResultItems, LogOrdered, Starts, Returns,
         QueuedItems, ErrorsExact, CalledItems, ReportedItems;
    var w := c.available[0];
    var r := Hand(u, c, item);
    var queue := c.workers[w].queue;
    var k := c.workers[w].(queue := queue + [Item(item)]);
    assert r.workers == c.workers[w := k];
    QueuedUpdate(c.workers, w, k);
    CalledUpdate(c.workers, w, k);
    ReportedUpdate(c.workers, w, k);
    QueuedAppend(queue, Item(item));
    AddLast(AllQueued(r.workers), QueuedItems(queue), AllQueued(c.workers), multiset{item});
    CancelSame(AllCalled(r.workers), AllCalled(c.workers), CalledItems(k.pc));
    CancelSame(AllReported(r.workers), AllReported(c.workers), ReportedItems(k.pc));
    SameErrors(u, c, r);
  }

  lemma AddLast<T>(a: multiset<T>, x: multiset<T>, b: multiset<T>, y: multiset<T>)
    requires a + x == b + (x + y)
    ensures a == b + y
  {
    forall e
      ensures a[e] == (b + y)[e]
    {
      assert (a + x)[e] == (b + (x + y))[e];
    }
  }

  // A step of the main thread that moves no item.
  lemma LookingKeepsInv(u: Setup, c: Config)
    requires Inv(u, c) && Typed(u, c) && MainEnabled(u, c) && Shaped(u, MainStep(u, c))
    requires c.main != Fetching && !c.main.Handing?
    requires !(c.main == Counting && c.available != [] && NextReady(u, c).Some?)
    ensures Inv(u, MainStep(u, c))
  {
    hide Inv, Fits, GoodSetup, WorkerShape, Distinct, Dismissed, NothingMoreToDo, FirstReady, AllQueued, AllCalled,
         AllReported, Shaped;
    DismissedItems(c.workers);
    SameItemsKeepInv(u, c, MainStep(u, c));
  }

  lemma MainKeepsInv(u: Setup, c: Config)
    requires Inv(u, c) && (ShapedIsTyped(u, c); MainEnabled(u, c))
    ensures Inv(u, MainStep(u, c))
  {
    hide Inv, Shaped, Typed, MainEnabled, AfterResult, AfterRunning, Dismissed, FirstReady;
    InvIsShaped(u, c);
    ShapedIsTyped(u, c);
    MainKeepsShape(u, c);
    if c.main == Fetching {
      FetchingShape(u, c);
      FetchKeepsInv(u, c);
    } else if c.main.Handing? {
      HandingShape(u, c);
      HandKeepsInv(u, c, c.main.item);
    } else if c.main == Counting && c.available != [] && NextReady(u, c).Some? {
      StartKeepsInv(u, c, NextReady(u, c).value);
    } else {
      LookingKeepsInv(u, c);
    }
  }

  lemma HandingShape(u: Setup, c: Config)
    requires Shaped(u, c) && c.main.Handing?
    ensures c.available != [] && c.available[0] < |c.workers|
  {
  }

  lemma FetchingShape(u: Setup, c: Config)
    requires Shaped(u, c) && c.main == Fetching
    ensures c.results != []
  {
  }

  lemma InvIsShaped(u: Setup, c: Config)
    requires Inv(u, c)
    ensures Shaped(u, c)
  {
  }

  // ---------- Steps of a worker ----------

  lemma {:induction false} WorkerItemInFlight(workers: seq<Worker>, w: nat, x: string)
    requires w < |workers| && (x in CalledItems(workers[w].pc) || x in QueuedItems(workers[w].queue))
    ensures x in AllQueued(workers) || x in AllCalled(workers)
  {
    hide CalledItems, QueuedItems;
    var n := |workers| - 1;
    if w < n {
      WorkerItemInFlight(workers[..n], w, x);
    }
  }

  lemma HeldItemIsRunning(c: Config, w: nat, x: string)
    requires FlightExact(c) && w < |c.workers|
    requires x in CalledItems(c.workers[w].pc) || x in QueuedItems(c.workers[w].queue)
    ensures x in c.states && c.states[x] == Running
  {
    hide AllQueued, AllCalled, ResultItems, CalledItems, QueuedItems;
    WorkerItemInFlight(c.workers, w, x);
    assert x in InFlight(c);
    assert x in multiset(RunningItems(c.states));
  }

  lemma DoneIsInLog(c: Config, y: string)
    requires LogExact(c) && y in c.states
    ensures c.states[y] == Completed ==> Return(y, true) in c.log
    ensures c.states[y] == Failed ==> Return(y, false) in c.log
  {
    hide AllQueued, AllCalled, AllReported, ResultItems, Starts, Returns;
    ReturnInLog(c.log, y, true);
    ReturnInLog(c.log, y, false);
    if c.states[y] == Completed {
      assert (y, true) in DonePairs(c.states);
      assert (y, true) in Returns(c.log);
    } else if c.states[y] == Failed {
      assert (y, false) in DonePairs(c.states);
      assert (y, false) in Returns(c.log);
    }
  }

  lemma RunningIsJustified(u: Setup, c: Config, x: string)
    requires Consistent(u.net, u.mode, c.states) && LogExact(c)
    requires x in c.states && c.states[x] == Running
    ensures StartJustified(u, c.log, x)
  {
    hide Consistent, DependsOn, LogExact;
    ConsistentFits(u.net, u.mode, c.states);
    if u.mode == Propagate {
      forall y | DependsOn(u.net.deps, x, y)
        ensures Return(y, true) in c.log
      {
        StartedBelowCompleted(u.net, c.states, x, y);
        DoneIsInLog(c, y);
      }
    } else if u.mode == KeepGoing {
      KeepGoingExact(u.net, c.states, x);
      var deps := u.net.deps[x];
      var n :| CutAt(c.states, deps, n);
      forall k | 0 <= k < |deps|
        ensures deps[k] in c.states && c.states[deps[k]] != DepFailed
        ensures c.states[deps[k]] == Completed ==> Return(deps[k], true) in c.log
        ensures c.states[deps[k]] == Failed ==> Return(deps[k], false) in c.log
      {
        assert deps[k] in deps;
        KeepGoingExact(u.net, c.states, deps[k]);
        DoneIsInLog(c, deps[k]);
      }
      assert CutInLog(c.log, deps, n);
    }
  }

  lemma ConsistentFits(net: Net, mode: Mode, st: States)
    requires Consistent(net, mode, st)
    ensures st.Keys == net.deps.Keys
  {
  }

  lemma AppendOrdered(u: Setup, log: seq<Event>, e: Event)
    requires LogOrdered(u, log) && (e.Start? ==> StartJustified(u, log, e.item))
    ensures LogOrdered(u, log + [e])
  {
    hide StartJustified;
    var r := log + [e];
    forall i | 0 <= i < |r| && r[i].Start?
      ensures StartJustified(u, r[..i], r[i].item)
    {
      if i < |log| {
        assert r[..i] == log[..i];
      } else {
        assert r[..i] == log;
      }
    }
  }

  // A worker registers, or leaves for good.
  lemma QuietWorkerKeepsInv(u: Setup, c: Config, w: nat, k: Worker, r: Config)
    requires Inv(u, c) && Shaped(u, r) && w < |c.workers|
    requires r == c.(available := r.available, workers := c.workers[w := k])
    requires QueuedItems(k.queue) == QueuedItems(c.workers[w].queue)
    requires CalledItems(k.pc) == CalledItems(c.workers[w].pc) == multiset{}
    requires ReportedItems(k.pc) == ReportedItems(c.workers[w].pc) == multiset{}
    ensures Inv(u, r)
  {
    hide Inv, Shaped, AllQueued, AllCalled, AllReported, QueuedItems, CalledItems, ReportedItems;
    QueuedUpdate(c.workers, w, k);
    CalledUpdate(c.workers, w, k);
    ReportedUpdate(c.workers, w, k);
    assert r.workers == c.workers[w := k];
    CancelSame(AllQueued(r.workers), AllQueued(c.workers), QueuedItems(k.queue));
    CancelSame(AllCalled(r.workers), AllCalled(c.workers), multiset{});
    CancelSame(AllReported(r.workers), AllReported(c.workers), multiset{});
    SameItemsKeepInv(u, c, r);
  }

  lemma DequeueKeepsInv(u: Setup, c: Config, w: nat, item: string, r: Config)
    requires Inv(u, c) && Shaped(u, r) && w < |c.workers|
    requires c.workers[w] == Worker(Idle, [Item(item)])
    requires r == c.(workers := c.workers[w := Worker(Working(item), [])], log := c.log + [Start(item)])
    ensures Inv(u, r)
  {
    hide Shaped, AllQueued, AllCalled, AllReported, ResultItems, Starts, Returns, LogOrdered, Consistent, ErrorsExact;
    var k := Worker(Working(item), []);
    QueuedUpdate(c.workers, w, k);
    CalledUpdate(c.workers, w, k);
    ReportedUpdate(c.workers, w, k);
    OneQueued(item);
    assert AllQueued(r.workers) + multiset{item} == AllQueued(c.workers);
    assert AllCalled(r.workers) == AllCalled(c.workers) + multiset{item};
    CancelSame(AllReported(r.workers), AllReported(c.workers), multiset{});
    Move(MainItem(c.main), AllQueued(c.workers), AllQueued(r.workers), AllCalled(c.workers), AllCalled(r.workers),
         ResultItems(c.results), multiset{item});
    AppendLog(c.log, Start(item));
    HeldItemIsRunning(c, w, item);
    RunningIsJustified(u, c, item);
    AppendOrdered(u, c.log, Start(item));
    assert ErrorsExact(u, r) by {
      SameErrors(u, c, r);
    }
  }

  lemma SameErrors(u: Setup, c: Config, r: Config)
    requires ErrorsExact(u, c) && r.states == c.states && r.stop == c.stop && r.anyErrors == c.anyErrors
    ensures ErrorsExact(u, r)
  {
  }

  lemma OneQueued(item: string)
    ensures QueuedItems([Item(item)]) == multiset{item} && QueuedItems([]) == multiset{}
  {
    assert [Item(item)][1..] == [];
  }

  lemma ReturnKeepsInv(u: Setup, c: Config, w: nat, item: string, ok: bool, r: Config)
    requires Inv(u, c) && Shaped(u, r) && w < |c.workers|
    requires c.workers[w].pc == Working(item)
    requires r == c.(workers := c.workers[w := c.workers[w].(pc := Reporting(item, ok))],
               log := c.log + [Return(item, ok)])
    ensures Inv(u, r)
  {
    hide Shaped, AllQueued, AllCalled, AllReported, ResultItems, Starts, Returns, LogOrdered, Consistent, ErrorsExact,
         QueuedItems;
    var k := c.workers[w].(pc := Reporting(item, ok));
    QueuedUpdate(c.workers, w, k);
    CalledUpdate(c.workers, w, k);
    ReportedUpdate(c.workers, w, k);
    CancelSame(AllQueued(r.workers), AllQueued(c.workers), QueuedItems(k.queue));
    CancelSame(AllCalled(r.workers), AllCalled(c.workers), multiset{item});
    assert AllReported(r.workers) == AllReported(c.workers) + multiset{(item, ok)};
    AppendLog(c.log, Return(item, ok));
    AppendOrdered(u, c.log, Return(item, ok));
    SameErrors(u, c, r);
  }

  lemma ReportKeepsInv(u: Setup, c: Config, w: nat, item: string, ok: bool, r: Config)
    requires Inv(u, c) && Shaped(u, r) && w < |c.workers|
    requires c.workers[w].pc == Reporting(item, ok)
    requires r == c.(results := c.results + [(item, ok)], available := c.available + [w],
                     workers := c.workers[w := c.workers[w].(pc := Idle)])
    ensures Inv(u, r)
  {
    hide Shaped, AllQueued, AllCalled, AllReported, ResultItems, Starts, Returns, LogOrdered, Consistent, ErrorsExact,
         QueuedItems;
    var k := c.workers[w].(pc := Idle);
    QueuedUpdate(c.workers, w, k);
    CalledUpdate(c.workers, w, k);
    ReportedUpdate(c.workers, w, k);
    CancelSame(AllQueued(r.workers), AllQueued(c.workers), QueuedItems(k.queue));
    assert AllCalled(r.workers) + multiset{item} == AllCalled(c.workers);
    assert AllReported(r.workers) + multiset{(item, ok)} == AllReported(c.workers);
    AppendResult(c.results, (item, ok));
    Move(MainItem(c.main), AllCalled(c.workers), AllCalled(r.workers), ResultItems(c.results), ResultItems(r.results),
         AllQueued(c.workers), multiset{item});
    SameErrors(u, c, r);
  }

  lemma WorkerKeepsInv(u: Setup, c: Config, w: nat, ok: bool)
    requires Inv(u, c) && (ShapedIsTyped(u, c); WorkerEnabled(u, c, w))
    ensures Inv(u, WorkerStep(u, c, w, ok))
  {
    hide Inv, Shaped, Fits, GoodSetup, AllQueued, AllCalled, AllReported, FlightExact;
    InvIsShaped(u, c);
    ShapedIsTyped(u, c);
    WorkerShapeAt(u, c, w);
    var k := c.workers[w];
    if k.pc.Reporting? {
      FlightOf(u, c);
      HeldItemIsRunning(c, w, k.pc.item);
    }
    WorkerKeepsShape(u, c, w, ok);
    var r := WorkerStep(u, c, w, ok);
    match k.pc
    case Starting =>
      QuietWorkerKeepsInv(u, c, w, k.(pc := Idle), r);
    case Idle =>
      if k.queue[0] == Exit {
        assert k.queue == [Exit];
        assert [Exit][1..] == [];
        QuietWorkerKeepsInv(u, c, w, Worker(Gone, []), r);
      } else {
        assert k.queue == [Item(k.queue[0].item)] && k.queue[1..] == [];
        DequeueKeepsInv(u, c, w, k.queue[0].item, r);
      }
    case Working(item) =>
      ReturnKeepsInv(u, c, w, item, ok, r);
    case Reporting(item, status) =>
      ReportKeepsInv(u, c, w, item, status, r);
  }

  lemma FlightOf(u: Setup, c: Config)
    requires Inv(u, c)
    ensures FlightExact(c)
  {
  }

  lemma WorkerShapeAt(u: Setup, c: Config, w: nat)
    requires Shaped(u, c) && w < u.count
    ensures |c.workers| == u.count && WorkerShape(c, w)
  {
  }

  lemma StepKeepsInv(u: Setup, c: Config, a: Action)
    requires Inv(u, c) && (ShapedIsTyped(u, c); Enabled(u, c, a))
    ensures (ShapedIsTyped(u, c); Inv(u, Step(u, c, a)))
  {
    match a
    case Main => MainKeepsInv(u, c);
    case Work(w, ok) => WorkerKeepsInv(u, c, w, ok);
  }
}
