// The evaluator object: item states, advanced in place.
module DependencyEvaluators {
  import opened Names
  import opened Traversal
  import opened GraphCheck
  import opened Components
  import opened Evaluation
  import G = DependencyGraphs

  class DependencyEvaluator {
    const graph: G.DependencyGraph
    var states: States
    var propagateFailure: bool
    var numRunning: int

    ghost function View(): Net
      reads graph
    {
      Net(graph.dependencies, graph.reverseDependencies, graph.inOrder)
    }

    ghost function CurrentMode(): Mode
      reads this
    {
      if propagateFailure then Propagate else KeepGoing
    }

    ghost predicate Valid()
      reads this, graph
    {
      && Consistent(View(), CurrentMode(), states)
      && numRunning == |RunningItems(states)|
    }

    // A checked, error-free graph is demanded.
    constructor (graph: G.DependencyGraph)
      requires graph.Checked() && graph.state == G.Ready
      ensures Valid() && this.graph == graph
      ensures propagateFailure && states == Initial(View()) && numRunning == 0
    {
      hide Consistent, GoodNet, Initial, FirstCheck, InOrder, G.DependencyGraph.Checked;
      this.graph := graph;
      propagateFailure := true;
      numRunning := 0;
      states := map[];
      new;
      GoodGraphIsGoodNet(graph);
      InitializeStates();
      InitialConsistent(View(), Propagate);
    }

    method InitializeStates()
      requires GoodNet(View()) && states == map[]
      modifies this`states
      ensures states == Initial(View())
    {
      hide Layered, ReverseMembers, NoUnknowns, Distinct;
      var inOrder := graph.inOrder;
      var i := 0;
      while i < |inOrder|
        invariant i <= |inOrder|
        invariant forall x :: x in states <==> x in inOrder[..i]
        invariant forall x :: x in states ==> x in graph.dependencies
        invariant forall x :: x in states ==> states[x] == (if graph.dependencies[x] == [] then Ready else Waiting)
      {
        assert inOrder[..i + 1] == inOrder[..i] + [inOrder[i]];
        assert inOrder[i] in inOrder;
        if graph.dependencies[inOrder[i]] == [] {
          states := states[inOrder[i] := Ready];
        } else {
          states := states[inOrder[i] := Waiting];
        }
        i := i + 1;
      }
      assert inOrder[..i] == inOrder;
    }

    // Must be called before any state changes.
    method DisableFailurePropagation()
      requires Valid() && states == Initial(View())
      modifies this`propagateFailure
      ensures Valid() && !propagateFailure
    {
      propagateFailure := false;
      InitialConsistent(View(), KeepGoing);
    }

    method SetRunning(item: string)
      requires Valid() && item in states && states[item] == Ready
      modifies this`states, this`numRunning
      ensures Valid() && states == AfterRunning(old(states), item)
      ensures numRunning == old(numRunning) + 1
    {
      RunningKeeps(View(), CurrentMode(), states, item);
      CountStarted(states, item);
      states := states[item := Running];
      numRunning := numRunning + 1;
    }

    method SetCompleted(item: string)
      requires Valid() && item in states && states[item] == Running
      modifies this`states, this`numRunning
      ensures Valid() && states == AfterResult(View(), if propagateFailure then Propagate else KeepGoing,
                                               old(states), item, true)
      ensures numRunning == old(numRunning) - 1
    {
      hide Consistent;
      ResultStep(View(), CurrentMode(), states, item, true);
      states := states[item := Completed];
      numRunning := numRunning - 1;
      EvaluateReverseDependencies(item);
    }

    method SetFailed(item: string)
      requires Valid() && item in states && states[item] == Running
      modifies this`states, this`numRunning
      ensures Valid() && states == AfterResult(View(), if propagateFailure then Propagate else KeepGoing,
                                               old(states), item, false)
      ensures numRunning == old(numRunning) - 1
    {
      hide Consistent;
      ResultStep(View(), CurrentMode(), states, item, false);
      states := states[item := Failed];
      numRunning := numRunning - 1;
      EvaluateReverseDependencies(item);
    }

    // The first ready item in dependency order.
    method NextReadyItem() returns (found: bool, item: string)
      requires Valid()
      ensures found <==> exists x :: x in states && states[x] == Ready
      ensures found ==> item in states && states[item] == Ready
      ensures found ==>
                item in graph.inOrder
                && forall x :: x in graph.inOrder[..IndexOf(graph.inOrder, item)] ==> x in states && states[x] != Ready
    {
      hide Layered, ReverseMembers, NoUnknowns, Distinct;
      var inOrder := graph.inOrder;
      var i := 0;
      while i < |inOrder|
        invariant i <= |inOrder|
        invariant forall x :: x in inOrder[..i] ==> x in states && states[x] != Ready
      {
        assert inOrder[i] in inOrder;
        if states[inOrder[i]] == Ready {
          assert i == IndexOf(inOrder, inOrder[i]);
          return true, inOrder[i];
        }
        assert inOrder[..i + 1] == inOrder[..i] + [inOrder[i]];
        i := i + 1;
      }
      assert inOrder[..i] == inOrder;
      return false, "";
    }

    method Evaluate(item: string)
      requires Fits(View(), states) && item in states
      modifies this`states
      ensures states == Evaluation.Evaluate(View(), if propagateFailure then Propagate else KeepGoing,
                                            old(states), item)
      decreases Pending(states), 1
    {
      DepsKnown(View(), states, item);
      var istate := states[item];
      if istate == Running || istate == Completed || istate == Failed || istate == DepFailed {
        return;
      }
      var failed, blocked := ScanDependencies(graph.dependencies[item]);
      if failed {
        assert item in Pending(states) && item !in Pending(states[item := DepFailed]);
        assert Pending(states[item := DepFailed]) < Pending(states);
        states := states[item := DepFailed];
        EvaluateReverseDependencies(item);
      } else if !blocked {
        states := states[item := Ready];
      }
    }

    // The loop of evaluate over the direct dependencies.
    method ScanDependencies(deps: seq<string>) returns (failed: bool, blocked: bool)
      requires forall d :: d in deps ==> d in states
      ensures failed <==> propagateFailure && SomeBad(states, deps)
      ensures !failed ==> (blocked <==> HeldBack(CurrentMode(), states, deps))
    {
      failed, blocked := false, false;
      var i := 0;
      assert deps[i..] == deps;
      while i < |deps|
        invariant i <= |deps| && !failed
        invariant forall d :: d in deps[..i] ==> !Bad(states[d])
        invariant blocked || Blocked(states, deps[i..]) <==> Blocked(states, deps)
      {
        var state := states[deps[i]];
        assert deps[i..][1..] == deps[i + 1..] && deps[i] in deps;
        if state == Failed || state == DepFailed {
          if propagateFailure {
            failed := true;
          }
          return;
        } else if state != Completed {
          blocked := true;
        }
        assert deps[..i + 1] == deps[..i] + [deps[i]];
        i := i + 1;
      }
      assert deps[..i] == deps;
    }

    method EvaluateReverseDependencies(item: string)
      requires Fits(View(), states) && item in states
      modifies this`states
      ensures item in View().reverse && (forall x :: x in View().reverse[item] ==> x in old(states))
      ensures states == EvaluateAll(View(), CurrentMode(), old(states), View().reverse[item])
      decreases Pending(states), 2
    {
      hide Evaluation.Evaluate, GoodNet;
      ghost var net, mode, st := View(), CurrentMode(), states;
      DepsKnown(net, st, item);
      var rdeps := graph.reverseDependencies[item];
      ghost var done := EvaluateAll(net, mode, st, rdeps);
      var i := 0;
      assert rdeps[i..] == rdeps;
      while i < |rdeps|
        invariant i <= |rdeps|
        invariant states == st && Fits(net, st) && Pending(st) <= Pending(old(states)) && st.Keys == old(states).Keys
        invariant EvaluateAll(net, mode, st, rdeps[i..]) == done
      {
        EvaluateAllStep(net, mode, st, rdeps, i);
        Evaluate(rdeps[i]);
        st := states;
        i := i + 1;
      }
      assert rdeps[i..] == [];
    }
  }

  lemma GoodGraphIsGoodNet(graph: G.DependencyGraph)
    requires graph.Checked() && graph.state == G.Ready
    ensures GoodNet(Net(graph.dependencies, graph.reverseDependencies, graph.inOrder))
  {
    VerdictExact(graph.dependencies);
    InOrderExact(graph.dependencies);
    TopologicalIsLayered(graph.dependencies, graph.inOrder);
  }

  // What a valid evaluator's states say: with propagation the dependency-failed items are those
  // that depend on a failed one, without it there are none; and the counter is the number of
  // running items.
  lemma FailuresSpread(e: DependencyEvaluator, x: string)
    requires e.Valid() && x in e.states
    ensures e.states[x] == DepFailed <==>
            e.propagateFailure
            && exists y :: y in e.states && e.states[y] == Failed && DependsOn(e.View().deps, x, y)
    ensures e.numRunning == |set y | y in e.states && e.states[y] == Running|
  {
    hide DependsOn;
    if e.propagateFailure {
      DepFailedExact(e.View(), e.states, x);
    }
    assert RunningItems(e.states) == set y | y in e.states && e.states[y] == Running;
  }

  lemma ResultStep(net: Net, mode: Mode, st: States, item: string, success: bool)
    requires Consistent(net, mode, st) && item in st && st[item] == Running
    ensures Fits(net, st[item := if success then Completed else Failed])
    ensures var r := AfterResult(net, mode, st, item, success);
            Consistent(net, mode, r) && |RunningItems(r)| == |RunningItems(st)| - 1
  {
    ResultKeeps(net, mode, st, item, success);
    CountEnded(st, AfterResult(net, mode, st, item, success), item);
  }

  lemma EvaluateAllStep(net: Net, mode: Mode, st: States, items: seq<string>, i: nat)
    requires Fits(net, st) && i < |items| && (forall x :: x in items ==> x in st)
    ensures items[i] in st
    ensures forall x :: x in items[i..] || x in items[i + 1..] ==> x in st
    ensures EvaluateAll(net, mode, st, items[i..]) ==
            EvaluateAll(net, mode, Evaluation.Evaluate(net, mode, st, items[i]), items[i + 1..])
  {
    assert items[i] in items;
    assert items[i..][0] == items[i] && items[i..][1..] == items[i + 1..];
  }

  lemma CountStarted(st: States, item: string)
    requires item in st && st[item] == Ready
    ensures |RunningItems(AfterRunning(st, item))| == |RunningItems(st)| + 1
  {
    assert RunningItems(AfterRunning(st, item)) == RunningItems(st) + {item};
  }

  lemma CountEnded(st: States, r: States, item: string)
    requires item in st && st[item] == Running && r.Keys == st.Keys && r[item] != Running
    requires forall x :: x in st && x != item ==>
               r[x] == st[x] || (st[x] == Waiting && (r[x] == Ready || r[x] == DepFailed))
    ensures |RunningItems(r)| == |RunningItems(st)| - 1
  {
    assert RunningItems(r) == RunningItems(st) - {item};
  }
}
