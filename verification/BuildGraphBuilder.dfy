// The loops that fill the build graph (src/Abuild-build.cc, buildBuildset and
// addItemToBuildGraph).
module BuildGraphBuilders {
  import opened Names
  import opened Options
  import opened Traversal
  import opened GraphCheck
  import opened BuildItems
  import opened BuildGraphs
  import opened BuildGraphTargets
  import Evaluation
  import G = DependencyGraphs

  // i cannot be built on p for want of a platform of d.  An item of type "all" passes
  // over such dependencies, unless it declares a platform type for them.
  predicate Unmatched(b: Build, i: string, d: string, p: string)
    requires i in b.items && d in b.items
  {
    Choice(b, i, d, p) == "" && (Declared(b, i, d) || !b.items[i].all)
  }

  ghost predicate AllMatched(b: Build, i: string, ps: set<string>)
    requires GoodBuild(b) && i in b.items
  {
    forall d, p :: d in b.items[i].deps && p in ps ==> d in b.items && !Unmatched(b, i, d, p)
  }

  ghost function NamesOn(b: Build, i: string, ps: seq<string>): set<string>
    requires i in b.prefixes
  {
    set p | p in ps :: Node(b, i, p)
  }

  lemma NameOn(b: Build, i: string, ps: seq<string>, p: string)
    requires i in b.prefixes && p in ps
    ensures Node(b, i, p) in NamesOn(b, i, ps)
  {
    hide NodeName;
  }

  // Nodes that have their first dependencies: those in ps[..k] one more than the others.
  ghost predicate Linked(b: Build, i: string, g: Graph, ps: seq<string>, deps: seq<string>, j: nat, k: nat)
    requires i in b.items && i in b.prefixes && AllKnown(b, deps) && j <= |deps|
  {
    forall t :: 0 <= t < |ps| ==>
      Node(b, i, ps[t]) in g &&
      g[Node(b, i, ps[t])] == Targets(b, i, ps[t], deps[..if t < k && j < |deps| then j + 1 else j])
  }

  lemma TargetsStep(b: Build, i: string, p: string, deps: seq<string>, j: nat)
    requires i in b.items && AllKnown(b, deps) && j < |deps|
    ensures Targets(b, i, p, deps[..j + 1]) == Targets(b, i, p, deps[..j]) +
              (if Choice(b, i, deps[j], p) == "" then [] else [Node(b, deps[j], Choice(b, i, deps[j], p))])
  {
    hide Choice, NodeName;
    assert deps[..j + 1][..j] == deps[..j];
  }

  // Giving node k its next dependency.
  lemma LinkedStep(b: Build, i: string, g: Graph, h: Graph, ps: seq<string>, deps: seq<string>, j: nat, k: nat)
    requires i in b.items && i in b.prefixes && AllKnown(b, deps) && j < |deps| && k < |ps|
    requires Linked(b, i, g, ps, deps, j, k) && Node(b, i, ps[k]) in g
    requires forall t :: 0 <= t < |ps| && t != k ==> Node(b, i, ps[t]) != Node(b, i, ps[k])
    requires h == g[Node(b, i, ps[k]) := g[Node(b, i, ps[k])] +
                      (if Choice(b, i, deps[j], ps[k]) == "" then []
                        else [Node(b, deps[j], Choice(b, i, deps[j], ps[k]))])]
    ensures Linked(b, i, h, ps, deps, j, k + 1)
  {
    hide Choice, NodeName, Targets;
    TargetsStep(b, i, ps[k], deps, j);
  }

  lemma LinkedRow(b: Build, i: string, g: Graph, ps: seq<string>, deps: seq<string>, j: nat)
    requires i in b.items && i in b.prefixes && AllKnown(b, deps) && j < |deps| && Linked(b, i, g, ps, deps, j, |ps|)
    ensures Linked(b, i, g, ps, deps, j + 1, 0)
  {
  }

  lemma LinkedHas(b: Build, i: string, g: Graph, ps: seq<string>, deps: seq<string>, j: nat, k: nat)
    requires i in b.items && i in b.prefixes && AllKnown(b, deps) && j <= |deps| && Linked(b, i, g, ps, deps, j, k)
    ensures forall t :: 0 <= t < |ps| ==> Node(b, i, ps[t]) in g
  {
  }

  lemma WidenStep(b: Build, i: string, d: string, ps: seq<string>, k: nat, have: set<string>)
    requires i in b.items && d in b.items && k < |ps|
    ensures var sofar := Widen(b, i, d, ps[..k], have);
            var q := Choice(b, i, d, ps[k]);
            Widen(b, i, d, ps[..k + 1], have) == if q != "" && ps[k] !in sofar then sofar + {q} else sofar
  {
    hide Choice;
    assert ps[..k + 1][..k] == ps[..k];
  }

  lemma WidenAllStep(b: Build, i: string, ps: seq<string>, deps: seq<string>, j: nat, platforms: Platforms)
    requires i in b.items && AllKnown(b, deps) && platforms.Keys == b.items.Keys && j < |deps|
    ensures var before := WidenAll(b, i, ps, deps[..j], platforms);
            WidenAll(b, i, ps, deps[..j + 1], platforms) == before[deps[j] := Widen(b, i, deps[j], ps, before[deps[j]])]
  {
    hide Widen;
    assert deps[..j + 1][..j] == deps[..j];
  }

  lemma WidenNone(b: Build, i: string, d: string, have: set<string>)
    requires i in b.items && d in b.items
    ensures Widen(b, i, d, [], have) == have
  {
  }

  lemma NothingLinked(b: Build, i: string, ps: seq<string>, deps: seq<string>, platforms: Platforms)
    requires i in b.items && AllKnown(b, deps) && platforms.Keys == b.items.Keys
    ensures deps[..0] == [] && WidenAll(b, i, ps, [], platforms) == platforms
    ensures forall p :: Targets(b, i, p, []) == []
  {
  }

  class Builder {
    const b: Build
    const graph: G.DependencyGraph
    var platforms: Platforms
    var errors: bool

    constructor (b: Build, platforms: Platforms)
      requires GoodBuild(b) && GoodPlatforms(b, platforms)
      ensures Valid() && this.b == b && this.platforms == platforms && !errors
      ensures graph.dependencies == map[] && graph.unknowns == map[] && graph.cycles == [] && graph.state == G.Init
      ensures fresh(graph)
    {
      this.b, this.platforms, this.errors := b, platforms, false;
      graph := new G.DependencyGraph();
    }

    ghost predicate Valid()
      reads this, graph
    {
      GoodBuild(b) && GoodPlatforms(b, platforms) && graph.Valid()
    }

    method ChoosePlatform(i: string, d: string, p: string) returns (q: string)
      requires GoodBuild(b) && i in b.items && d in b.items
      ensures q == Choice(b, i, d, p)
    {
      ItemNamed(b, d);
      if Declared(b, i, d) {
        q := GetBestPlatformForType(b.selectors, b.items[d], b.items[i].depTypes[d].0, b.items[i].depTypes[d].1);
      } else {
        q := GetBestPlatformForPlatform(b.selectors, b.items[i], b.items[d], p);
      }
    }

    // The nodes of one item, without dependencies.
    method AddNodes(i: string, ps: seq<string>)
      requires Valid() && i in b.items && Distinct(ps) && graph.state == G.Init
      requires forall p :: p in ps ==> Spellable(p) && Node(b, i, p) !in graph.dependencies
      modifies graph
      ensures Valid() && graph.state == G.Init
      ensures graph.unknowns == old(graph.unknowns) && graph.cycles == old(graph.cycles)
      ensures graph.dependencies.Keys == old(graph.dependencies).Keys + NamesOn(b, i, ps)
      ensures forall x :: x in old(graph.dependencies) ==> graph.dependencies[x] == old(graph.dependencies)[x]
      ensures forall p :: p in ps ==> graph.dependencies[Node(b, i, p)] == []
    {
      hide GoodBuild, GoodPlatforms, Named, G.ReverseSound, NodeName;
      DepsKnown(b, i);
      ghost var before := graph.dependencies;
      var k := 0;
      while k < |ps|
        invariant k <= |ps| && graph.Valid() && graph.state == G.Init
        invariant graph.unknowns == old(graph.unknowns) && graph.cycles == old(graph.cycles)
        invariant graph.dependencies.Keys == before.Keys + NamesOn(b, i, ps[..k])
        invariant forall x :: x in before ==> graph.dependencies[x] == before[x]
        invariant forall p :: p in ps[..k] ==> graph.dependencies[Node(b, i, p)] == []
      {
        assert ps[k] in ps && ps[..k + 1] == ps[..k] + [ps[k]];
        NodeNamed(i, ps[k]);
        NewNode(i, ps, k);
        graph.AddItem(Node(b, i, ps[k]));
        k := k + 1;
      }
      assert ps[..k] == ps;
    }

    lemma NodeNamed(i: string, p: string)
      requires GoodBuild(b) && i in b.items
      ensures i in b.prefixes && Node(b, i, p) != ""
    {
    }

    lemma NewNode(i: string, ps: seq<string>, k: nat)
      requires GoodBuild(b) && i in b.items && Distinct(ps) && k < |ps| && forall p :: p in ps ==> Spellable(p)
      ensures i in b.prefixes && forall p :: p in ps[..k] ==> Node(b, i, p) != Node(b, i, ps[k])
    {
      hide NodeName, GoodBuild;
      NodeNamed(i, ps[k]);
      forall p | p in ps[..k]
        ensures Node(b, i, p) != Node(b, i, ps[k])
      {
        assert p in ps && ps[k] in ps;
        if Node(b, i, p) == Node(b, i, ps[k]) {
          NodeInjective(b, i, p, i, ps[k]);
        }
      }
    }

    // One edge, and the build platform it may need.
    method LinkOne(i: string, d: string, p: string)
      requires Valid() && graph.state == G.Init && i in b.items && d in b.items && Spellable(p)
      requires i in b.prefixes && d in b.prefixes && Node(b, i, p) in graph.dependencies
      modifies this`platforms, this`errors, graph
      ensures Valid() && graph.state == G.Init
      ensures graph.unknowns == old(graph.unknowns) && graph.cycles == old(graph.cycles)
      ensures var q := Choice(b, i, d, p);
              && platforms == old(platforms)[d := if q != "" && p !in old(platforms)[d] then old(platforms)[d] + {q}
                                                  else old(platforms)[d]]
              && graph.dependencies == old(graph.dependencies)[Node(b, i, p) :=
                   old(graph.dependencies)[Node(b, i, p)] + (if q == "" then [] else [Node(b, d, q)])]
      ensures errors <==> old(errors) || Unmatched(b, i, d, p)
    {
      hide GoodBuild, GoodSet, Named, G.ReverseSound, NodeName, Choice, Declared, Spellable;
      var q := ChoosePlatform(i, d, p);
      if q != "" {
        if p !in platforms[d] {
          ChosenFits(i, d, p);
          platforms := platforms[d := platforms[d] + {q}];
        }
        NodeNamed(d, q);
        graph.AddDependency(Node(b, i, p), Node(b, d, q));
      } else if Declared(b, i, d) || !b.items[i].all {
        errors := true;
      }
      assert old(platforms)[d := old(platforms)[d]] == old(platforms);
      assert old(graph.dependencies)[Node(b, i, p)] + [] == old(graph.dependencies)[Node(b, i, p)];
    }

    lemma ChosenFits(i: string, d: string, p: string)
      requires GoodBuild(b) && GoodPlatforms(b, platforms) && i in b.items && d in b.items && Spellable(p)
      requires Choice(b, i, d, p) != ""
      ensures GoodSet(b.items[d], platforms[d] + {Choice(b, i, d, p)})
    {
      hide GoodBuild, Choice, Buildable;
      ChoiceFits(b, i, d, p);
    }

    // One dependency of i: an edge from every node of i to the node chosen, which may
    // have to be added to the build platforms of the dependency.
    method LinkDependency(i: string, ps: seq<string>, j: nat)
      requires Valid() && graph.state == G.Init && i in b.items && j < |b.items[i].deps| && b.items[i].deps[j] != i
      requires ps != [] && Distinct(ps) && forall p :: p in ps ==> Spellable(p)
      requires (DepsKnown(b, i); Linked(b, i, graph.dependencies, ps, b.items[i].deps, j, 0))
      modifies this`platforms, this`errors, graph
      ensures Valid() && graph.state == G.Init
      ensures graph.unknowns == old(graph.unknowns) && graph.cycles == old(graph.cycles)
      ensures graph.dependencies.Keys == old(graph.dependencies).Keys
      ensures (DepsKnown(b, i); Linked(b, i, graph.dependencies, ps, b.items[i].deps, j + 1, 0))
      ensures (DepsKnown(b, i);
               forall x :: x in old(graph.dependencies) && x !in NamesOn(b, i, ps) ==>
                 graph.dependencies[x] == old(graph.dependencies)[x])
      ensures (DepsKnown(b, i);
               var d := b.items[i].deps[j];
               && d in b.items
               && platforms == old(platforms)[d := Widen(b, i, d, ps, old(platforms)[d])]
               && (!errors <==> !old(errors) && forall p :: p in ps ==> !Unmatched(b, i, d, p)))
    {
      hide GoodBuild, GoodSet, Named, G.ReverseSound, NodeName, Choice, Unmatched, Widen, Targets, Spellable, NamesOn,
           Linked, G.DependencyGraph.Valid;
      DepsKnown(b, i);
      var deps := b.items[i].deps;
      var d := deps[j];
      assert d in deps;
      ghost var have, start := platforms[d], graph.dependencies;
      var k := 0;
      WidenNone(b, i, d, have);
      assert platforms[d := have] == platforms;
      while k < |ps|
        invariant k <= |ps| && Valid() && graph.state == G.Init
        invariant graph.unknowns == old(graph.unknowns) && graph.cycles == old(graph.cycles)
        invariant graph.dependencies.Keys == start.Keys
        invariant Linked(b, i, graph.dependencies, ps, deps, j, k)
        invariant forall x :: x in start && x !in NamesOn(b, i, ps) ==> graph.dependencies[x] == start[x]
        invariant platforms == old(platforms)[d := Widen(b, i, d, ps[..k], have)]
        invariant !errors <==> !old(errors) && forall p :: p in ps[..k] ==> !Unmatched(b, i, d, p)
      {
        var p := ps[k];
        assert p in ps && ps[..k + 1] == ps[..k] + [p];
        LinkedHas(b, i, graph.dependencies, ps, deps, j, k);
        WidenStep(b, i, d, ps, k, have);
        NodesApart(i, ps, k);
        NameOn(b, i, ps, p);
        ghost var g := graph.dependencies;
        LinkOne(i, d, p);
        LinkedStep(b, i, g, graph.dependencies, ps, deps, j, k);
        k := k + 1;
      }
      assert ps[..k] == ps;
      LinkedRow(b, i, graph.dependencies, ps, deps, j);
    }

    lemma NodesApart(i: string, ps: seq<string>, k: nat)
      requires GoodBuild(b) && i in b.items && Distinct(ps) && k < |ps| && forall p :: p in ps ==> Spellable(p)
      ensures i in b.prefixes && forall t :: 0 <= t < |ps| && t != k ==> Node(b, i, ps[t]) != Node(b, i, ps[k])
    {
      hide NodeName, GoodBuild;
      NodeNamed(i, ps[k]);
      forall t | 0 <= t < |ps| && t != k
        ensures Node(b, i, ps[t]) != Node(b, i, ps[k])
      {
        assert ps[t] in ps && ps[k] in ps;
        if Node(b, i, ps[t]) == Node(b, i, ps[k]) {
          NodeInjective(b, i, ps[t], i, ps[k]);
        }
      }
    }

    lemma NodeKeys(i: string, have: set<string>, ps: seq<string>)
      requires GoodBuild(b) && i in b.items && forall p :: p in ps <==> p in have
      ensures i in b.prefixes && Nodes(b, i, have).Keys == NamesOn(b, i, ps)
    {
      hide NodeName, Targets, GoodBuild;
      DepsKnown(b, i);
    }

    // Every dependency of i.
    method LinkDependencies(i: string, ps: seq<string>)
      requires Valid() && graph.state == G.Init && i in b.items && i !in b.items[i].deps
      requires ps != [] && Distinct(ps) && forall p :: p in ps ==> Spellable(p)
      requires (DepsKnown(b, i); Linked(b, i, graph.dependencies, ps, b.items[i].deps, 0, 0))
      modifies this`platforms, this`errors, graph
      ensures Valid() && graph.state == G.Init
      ensures graph.unknowns == old(graph.unknowns) && graph.cycles == old(graph.cycles)
      ensures graph.dependencies.Keys == old(graph.dependencies).Keys
      ensures (DepsKnown(b, i); Linked(b, i, graph.dependencies, ps, b.items[i].deps, |b.items[i].deps|, 0))
      ensures (DepsKnown(b, i);
               forall x :: x in old(graph.dependencies) && x !in NamesOn(b, i, ps) ==>
                 graph.dependencies[x] == old(graph.dependencies)[x])
      ensures (DepsKnown(b, i); platforms == WidenAll(b, i, ps, b.items[i].deps, old(platforms)))
      ensures !errors <==> !old(errors) && forall d, p :: d in b.items[i].deps && p in ps ==>
                d in b.items && !Unmatched(b, i, d, p)
    {
      hide GoodBuild, GoodSet, G.DependencyGraph.Valid, NodeName, Choice, Unmatched, Widen, WidenAll, Targets,
           Spellable, NamesOn, Linked;
      DepsKnown(b, i);
      var deps := b.items[i].deps;
      ghost var before, started := platforms, graph.dependencies;
      NothingLinked(b, i, ps, deps, before);
      var j := 0;
      while j < |deps|
        invariant j <= |deps| && Valid() && graph.state == G.Init
        invariant graph.unknowns == old(graph.unknowns) && graph.cycles == old(graph.cycles)
        invariant graph.dependencies.Keys == started.Keys
        invariant forall x :: x in started && x !in NamesOn(b, i, ps) ==> graph.dependencies[x] == started[x]
        invariant Linked(b, i, graph.dependencies, ps, deps, j, 0)
        invariant platforms == WidenAll(b, i, ps, deps[..j], before)
        invariant !errors <==> !old(errors) && forall d, p :: d in deps[..j] && p in ps ==> !Unmatched(b, i, d, p)
      {
        assert deps[j] in deps && deps[..j + 1] == deps[..j] + [deps[j]];
        WidenAllStep(b, i, ps, deps, j, before);
        LinkDependency(i, ps, j);
        j := j + 1;
      }
      assert deps[..j] == deps;
    }

    lemma Assembled(i: string, have: set<string>, ps: seq<string>, started: Graph, g: Graph)
      requires GoodBuild(b) && i in b.items && GoodSet(b.items[i], have) && forall p :: p in ps <==> p in have
      requires (DepsKnown(b, i);
                && g.Keys == started.Keys + NamesOn(b, i, ps)
                && started.Keys !! NamesOn(b, i, ps)
                && (forall x :: x in started && x !in NamesOn(b, i, ps) ==> g[x] == started[x])
                && Linked(b, i, g, ps, b.items[i].deps, |b.items[i].deps|, 0))
      ensures g == started + Nodes(b, i, have)
    {
      hide GoodBuild, NodeName, Targets, Nodes;
      DepsKnown(b, i);
      NodesExact(b, i, have);
      NodeKeys(i, have, ps);
      assert b.items[i].deps[..|b.items[i].deps|] == b.items[i].deps;
      forall x | x in Nodes(b, i, have)
        ensures g[x] == Nodes(b, i, have)[x]
      {
        var p :| p in have && x == Node(b, i, p);
        var t :| 0 <= t < |ps| && ps[t] == p;
      }
    }

    // addItemToBuildGraph
    method AddItemToBuildGraph(i: string) returns (added: bool)
      requires Valid() && graph.state == G.Init && i in b.items && i !in b.items[i].deps
      requires (DepsKnown(b, i); forall p :: p in platforms[i] ==> Node(b, i, p) !in graph.dependencies)
      modifies this`platforms, this`errors, graph
      ensures Valid() && graph.state == G.Init && (added <==> old(platforms)[i] != {})
      ensures graph.unknowns == old(graph.unknowns) && graph.cycles == old(graph.cycles)
      ensures (DepsKnown(b, i);
               platforms == WidenAll(b, i, SortedKeys(old(platforms)[i]), b.items[i].deps, old(platforms)))
      ensures graph.dependencies == old(graph.dependencies) + Nodes(b, i, old(platforms)[i])
      ensures !errors <==> !old(errors) && AllMatched(b, i, old(platforms)[i])
    {
      hide GoodBuild, GoodSet, Named, G.ReverseSound, NodeName, Choice, Unmatched, Widen, WidenAll, Targets,
           Spellable, SortedKeys, Nodes;
      DepsKnown(b, i);
      KeysSpellable(b, platforms, i);
      var ps := KeysInOrder(platforms[i]);
      SortedKeysDistinct(platforms[i]);
      NodeKeys(i, platforms[i], ps);
      ghost var before, started := platforms, graph.dependencies;
      if platforms[i] == {} {
        NoKeys();
        NothingWidened(b, i, b.items[i].deps, platforms);
        return false;
      }
      added := true;
      AddNodes(i, ps);
      NothingLinked(b, i, ps, b.items[i].deps, before);
      LinkDependencies(i, ps);
      Assembled(i, before[i], ps, started, graph.dependencies);
    }

    // The item loop of buildBuildset.
    method AddItems()
      requires Valid() && graph.state == G.Init && graph.dependencies == map[]
      modifies this`platforms, this`errors, graph
      ensures Valid() && graph.state == G.Init && graph.unknowns == old(graph.unknowns)
                && graph.cycles == old(graph.cycles)
      ensures platforms == Final(b, old(platforms))
      ensures graph.dependencies == BuildGraph(b, old(platforms))
      ensures !errors <==> !old(errors) && forall i :: i in b.items ==> AllMatched(b, i, platforms[i])
    {
      hide GoodSet, Named, G.DependencyGraph.Valid, NodeName, Choice, AllMatched, WidenAll, GraphAt, At, SortedKeys,
           Nodes, DependentsFirst, Distinct;
      ghost var start := platforms;
      StartPlatforms(b, start);
      EmptyGraph(b, start);
      var n := 0;
      while n < |b.order|
        invariant n <= |b.order| && Valid() && graph.state == G.Init
        invariant graph.unknowns == old(graph.unknowns) && graph.cycles == old(graph.cycles)
        invariant platforms == At(b, start, n) && graph.dependencies == GraphAt(b, start, n)
        invariant !errors <==> !old(errors) && forall i :: i in b.order[..n] ==>
                    i in b.items && AllMatched(b, i, Final(b, start)[i])
      {
        var i := b.order[n];
        assert i in b.order && b.order[..n + 1] == b.order[..n] + [i];
        LinkStep(b, start, n);
        GraphStep(b, start, n);
        LinkedAt(b, start, n);
        NotItself(n);
        NodesAreNew(start, n);
        var added := AddItemToBuildGraph(i);
        n := n + 1;
      }
      assert b.order[..n] == b.order;
    }

    // With the check after the loop: the graph is the build graph, and passes the check
    // exactly when the platforms chosen for declared types are there or are supplied.
    method BuildBuildGraph() returns (good: bool)
      requires Valid() && graph.state == G.Init && graph.dependencies == map[] && graph.unknowns == map[]
                 && graph.cycles == []
      modifies this`platforms, this`errors, graph
      ensures Valid() && graph.Checked()
      ensures platforms == Final(b, old(platforms))
      ensures graph.dependencies == BuildGraph(b, old(platforms))
      ensures !errors <==> !old(errors) && forall i, d, p ::
                i in b.items && d in b.items[i].deps && p in platforms[i] ==> d in b.items && !Unmatched(b, i, d, p)
      ensures good <==> DeclaredSupplied(b, old(platforms))
      ensures ServedFromStart(b, old(platforms)) ==> good
    {
      hide GoodSet, GoodBuild, Final, BuildGraph, DeclaredSupplied, ServedFromStart, Named, FirstCheck,
           InOrder, G.ReverseSound;
      AddItems();
      good := graph.Check();
      VerdictExact(graph.dependencies);
      TargetsKnownExact(b, old(platforms));
      if ServedFromStart(b, old(platforms)) {
        ServedFromStartSuffices(b, old(platforms));
      }
      BuildGraphAcyclic(b, old(platforms));
    }

    lemma NotItself(n: nat)
      requires GoodBuild(b) && n < |b.order|
      ensures b.order[n] in b.items && b.order[n] !in b.items[b.order[n]].deps
    {
      hide Distinct, GoodItem, Spellable;
      var i := b.order[n];
      assert i in b.order;
      assert !Evaluation.Earlier(b.order, i, i);
      assert !Needs(b, i, i);
    }

    lemma NodesAreNew(start: Platforms, n: nat)
      requires GoodBuild(b) && GoodPlatforms(b, start) && n < |b.order|
      ensures var i := b.order[n];
              && i in b.items && i in b.prefixes
              && forall p :: p in At(b, start, n)[i] ==> Node(b, i, p) !in GraphAt(b, start, n)
    {
      hide GoodSet, At, GraphAt, NodeName, DependentsFirst, GoodItem, Spellable;
      var i := b.order[n];
      assert i in b.order;
      LinkedAt(b, start, n);
      forall p | p in At(b, start, n)[i]
        ensures Node(b, i, p) !in GraphAt(b, start, n)
      {
        if Node(b, i, p) in GraphAt(b, start, n) {
          IsNode(b, start, n, Node(b, i, p));
          var j, q :| j in b.order[..n] && NodeIs(b, start, j, q, Node(b, i, p));
          SameNode(b, start, i, p, j, q, Node(b, i, p));
        }
      }
    }
  }
}
