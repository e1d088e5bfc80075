// What holds in every reachable configuration of a build run.
module SchedulerInvariant {
  import opened Names
  import opened Traversal
  import opened Evaluation
  import opened Scheduler

  // ---------- Workers and program points ----------

  // Until shutdown a worker is registered exactly while it idles with an empty queue, and
  // its queue never holds more than one item.  Afterwards it holds one exit request, or is gone.
  ghost predicate WorkerShape(c: Config, w: nat)
    requires w < |c.workers|
  {
    var k := c.workers[w];
    if c.shutdown then
      (k.pc == Idle && k.queue == [Exit]) || (k.pc == Gone && k.queue == [])
    else if k.pc == Idle then
      |k.queue| <= 1 && (k.queue == [] <==> w in c.available) && (k.queue != [] ==> k.queue[0].Item?)
    else
      k.pc != Gone && k.queue == [] && w !in c.available
  }

  ghost predicate NothingMoreToDo(u: Setup, c: Config)
    requires Typed(u, c)
  {
    c.results == [] && (c.stop || forall x :: x in c.states ==> c.states[x] != Ready)
  }

  ghost predicate MainShape(u: Setup, c: Config)
    requires Typed(u, c)
  {
    && (c.main == Fetching ==> c.results != [])
    && (c.main.Handing? ==> c.available != [] && c.main.item in c.states && c.states[c.main.item] == Running)
    && (c.main in {Offering, Counting} || c.main.Handing? ==> !c.stop)
    && (c.main == Stopping ==> |c.available| == u.count && NothingMoreToDo(u, c))
    && (c.shutdown <==> c.main.Joining? || c.main.Returned?)
    && (c.shutdown ==> NothingMoreToDo(u, c))
    && (c.main.Joining? ==> c.main.next <= u.count && forall w :: 0 <= w < c.main.next ==> c.workers[w].pc == Gone)
    && (c.main.Returned? ==> forall w :: 0 <= w < u.count ==> c.workers[w].pc == Gone)
    && (c.main.Returned? ==> c.main.result == !c.anyErrors)
  }

  ghost predicate Shaped(u: Setup, c: Config)
  {
    && Typed(u, c)
    && Distinct(c.available)
    && (forall w :: 0 <= w < u.count ==> WorkerShape(c, w))
    && MainShape(u, c)
  }

  ghost function Upto(n: nat): (s: set<nat>)
    ensures forall w: nat :: w in s <==> w < n
    ensures |s| == n
  {
    if n == 0 then {} else Upto(n - 1) + {n - 1}
  }

  ghost function ElementsOf(s: seq<nat>): (r: set<nat>)
    requires Distinct(s)
    ensures forall x :: x in r <==> x in s
    ensures |r| == |s|
  {
    if s == [] then {}
    else
      var n := |s| - 1;
      assert s == s[..n] + [s[n]];
      ElementsOf(s[..n]) + {s[n]}
  }

  // A repetition-free list of n numbers below n names them all.
  lemma Pigeonhole(s: seq<nat>, n: nat)
    requires Distinct(s) && (forall i :: 0 <= i < |s| ==> s[i] < n) && |s| >= n
    ensures forall w: nat :: w < n ==> w in s
    ensures |s| == n
  {
    SubsetSize(ElementsOf(s), Upto(n));
    forall w: nat | w < n
      ensures w in s
    {
      if w !in s {
        SubsetSize(ElementsOf(s), Upto(n) - {w});
      }
    }
  }

  lemma InitialShaped(u: Setup)
    requires GoodSetup(u)
    ensures Shaped(u, InitialConfig(u))
  {
  }

  lemma FetchKeepsTyped(u: Setup, c: Config)
    requires Typed(u, c) && c.results != []
    ensures Typed(u, Fetch(u, c))
  {
    var r := Fetch(u, c);
    assert forall i :: 0 <= i < |r.results| ==> r.results[i] == c.results[i + 1];
  }

  lemma MainKeepsTyped(u: Setup, c: Config)
    requires Typed(u, c) && MainEnabled(u, c)
    ensures Typed(u, MainStep(u, c))
  {
    hide Fetch, Fits, GoodSetup;
    if c.main == Fetching {
      FetchKeepsTyped(u, c);
    } else if c.main == Counting && c.available != [] && NextReady(u, c).Some? {
      StartKeepsFits(u, c, NextReady(u, c).value);
    }
  }

  lemma StartKeepsFits(u: Setup, c: Config, item: string)
    requires Typed(u, c) && item in c.states
    ensures Fits(u.net, AfterRunning(c.states, item))
  {
  }

  lemma WorkerKeepsTyped(u: Setup, c: Config, w: nat, ok: bool)
    requires Typed(u, c) && WorkerEnabled(u, c, w)
    requires WorkerItemsKnown(u, c, w)
    ensures Typed(u, WorkerStep(u, c, w, ok))
  {
  }

  ghost predicate WorkerItemsKnown(u: Setup, c: Config, w: nat)
    requires Typed(u, c) && w < u.count
  {
    c.workers[w].pc.Reporting? ==> c.workers[w].pc.item in c.states
  }

  lemma MainKeepsWorkers(u: Setup, c: Config)
    requires Shaped(u, c) && MainEnabled(u, c) && !c.main.Handing?
    ensures var r := MainStep(u, c);
            Distinct(r.available) && |r.workers| == u.count && forall w :: 0 <= w < u.count ==> WorkerShape(r, w)
  {
    hide Fits, AfterResult, AfterRunning, FirstReady, GoodSetup;
    var r := MainStep(u, c);
    if c.main == Stopping {
      Pigeonhole(c.available, u.count);
    }
    forall v | 0 <= v < u.count
      ensures WorkerShape(r, v)
    {
      assert WorkerShape(c, v);
    }
  }

  lemma MainKeepsMain(u: Setup, c: Config)
    requires Shaped(u, c) && MainEnabled(u, c) && !c.main.Handing?
    requires Typed(u, MainStep(u, c))
    ensures MainShape(u, MainStep(u, c))
  {
    hide Fits, AfterResult, FirstReady, GoodSetup, WorkerShape, Distinct;
  }

  lemma MainKeepsShape(u: Setup, c: Config)
    requires Shaped(u, c) && MainEnabled(u, c)
    ensures Shaped(u, MainStep(u, c))
  {
    hide Fits, AfterResult, FirstReady, GoodSetup, WorkerShape, Distinct, MainShape;
    MainKeepsTyped(u, c);
    if c.main.Handing? {
      HandKeepsShape(u, c, c.main.item);
    } else {
      MainKeepsWorkers(u, c);
      MainKeepsMain(u, c);
    }
  }

  lemma HandKeepsShape(u: Setup, c: Config, item: string)
    requires Shaped(u, c) && c.main == Handing(item)
    ensures Typed(u, Hand(u, c, item)) && Shaped(u, Hand(u, c, item))
  {
    var r := Hand(u, c, item);
    var w := c.available[0];
    assert c.available == [w] + c.available[1..];
    assert w in c.available;
    assert WorkerShape(c, w);
    assert w !in r.available;
    forall v | 0 <= v < u.count
      ensures WorkerShape(r, v)
    {
      assert WorkerShape(c, v);
      assert v != w ==> (v in c.available <==> v in r.available);
    }
  }

  lemma WorkerKeepsShape(u: Setup, c: Config, w: nat, ok: bool)
    requires Shaped(u, c) && WorkerEnabled(u, c, w) && WorkerItemsKnown(u, c, w)
    ensures Shaped(u, WorkerStep(u, c, w, ok))
  {
    hide GoodSetup, Fits;
    WorkerKeepsTyped(u, c, w, ok);
    var r := WorkerStep(u, c, w, ok);
    assert WorkerShape(c, w);
    if c.main == Stopping {
      Pigeonhole(c.available, u.count);
    }
    forall v | 0 <= v < u.count
      ensures WorkerShape(r, v)
    {
      assert WorkerShape(c, v);
      assert v != w ==> (v in c.available <==> v in r.available);
    }
  }
}
