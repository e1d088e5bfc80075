// The dependency graph object: items and dependencies are added, the graph is
// checked once, and the sorted lists are then available to everyone else.
module DependencyGraphs {
  import opened Names
  import opened Traversal
  import opened GraphCheck
  import opened Components

  datatype GraphState = Init | InError | Ready

  // The containers that traverse() and topologicalSort() create and pass along by reference.
  class Scratch {
    var visited: set<string>
    var visiting: set<string>
    var path: seq<string>
    var result: seq<string>
    var unknownsSeen: set<string>
    var cyclesSeen: set<string>

    constructor ()
      ensures visited == {} && visiting == {} && path == [] && result == []
      ensures unknownsSeen == {} && cyclesSeen == {}
    {
      visited, visiting, path, result := {}, {}, [], [];
      unknownsSeen, cyclesSeen := {}, {};
    }
  }

  // The list of the items of keys, each repeated as often as it depends on d.
  ghost function Dependents(g: Graph, keys: seq<string>, d: string): seq<string>
    requires forall k :: k in keys ==> k in g
  {
    if keys == [] then []
    else
      var n := |keys| - 1;
      assert keys[n] in keys;
      Dependents(g, keys[..n], d) + Repeated(keys[n], g[keys[n]], d)
  }

  ghost function Repeated(item: string, deps: seq<string>, d: string): seq<string>
  {
    if deps == [] then []
    else
      var n := |deps| - 1;
      Repeated(item, deps[..n], d) + (if deps[n] == d then [item] else [])
  }

  // x occurs among the dependents of d as often as d occurs among the dependencies of x.
  lemma {:induction false} DependentsMultiplicity(g: Graph, keys: seq<string>, d: string, x: string)
    requires forall k :: k in keys ==> k in g
    requires Distinct(keys)
    ensures multiset(Dependents(g, keys, d))[x] == if x in keys then multiset(g[x])[d] else 0
  {
    if keys != [] {
      var n := |keys| - 1;
      assert keys == keys[..n] + [keys[n]];
      DependentsMultiplicity(g, keys[..n], d, x);
      RepeatedMultiplicity(keys[n], g[keys[n]], d, x);
    }
  }

  lemma {:induction false} RepeatedMultiplicity(item: string, deps: seq<string>, d: string, x: string)
    ensures multiset(Repeated(item, deps, d))[x] == if x == item then multiset(deps)[d] else 0
  {
    if deps != [] {
      var n := |deps| - 1;
      assert deps == deps[..n] + [deps[n]];
      RepeatedMultiplicity(item, deps[..n], d, x);
    }
  }

  lemma MembersByMultiplicity(s: seq<string>, x: string)
    ensures x in s <==> multiset(s)[x] > 0
  {
  }

  ghost function Lookup(m: Graph, x: string): seq<string>
  {
    if x in m then m[x] else []
  }

  // Appending item to the reverse dependencies of each of its dependencies.
  function ReverseDeps(item: string, deps: seq<string>, reverse: Graph): Graph
  {
    if deps == [] then reverse
    else
      var n := |deps| - 1;
      var m := ReverseDeps(item, deps[..n], reverse);
      m[deps[n] := (if deps[n] in m then m[deps[n]] else []) + [item]]
  }

  ghost function ReverseItems(g: Graph, keys: seq<string>, reverse: Graph): Graph
    requires forall k :: k in keys ==> k in g
  {
    if keys == [] then reverse
    else
      var n := |keys| - 1;
      assert keys[n] in keys;
      ReverseDeps(keys[n], g[keys[n]], ReverseItems(g, keys[..n], reverse))
  }

  ghost function Reversed(g: Graph, reverse: Graph): Graph
  {
    ReverseItems(g, SortedKeys(g.Keys), reverse)
  }

  lemma {:induction false} ReverseDepsAppends(item: string, deps: seq<string>, reverse: Graph, d: string)
    ensures Lookup(ReverseDeps(item, deps, reverse), d) == Lookup(reverse, d) + Repeated(item, deps, d)
    ensures reverse.Keys <= ReverseDeps(item, deps, reverse).Keys
  {
    if deps != [] {
      var n := |deps| - 1;
      ReverseDepsAppends(item, deps[..n], reverse, d);
    }
  }

  lemma {:induction false} ReverseItemsAppends(g: Graph, keys: seq<string>, reverse: Graph, d: string)
    requires forall k :: k in keys ==> k in g
    ensures Lookup(ReverseItems(g, keys, reverse), d) == Lookup(reverse, d) + Dependents(g, keys, d)
    ensures reverse.Keys <= ReverseItems(g, keys, reverse).Keys
  {
    if keys != [] {
      var n := |keys| - 1;
      ReverseItemsAppends(g, keys[..n], reverse, d);
      ReverseDepsAppends(keys[n], g[keys[n]], ReverseItems(g, keys[..n], reverse), d);
    }
  }

  // reverse_dependencies is the transpose of dependencies, multiplicities included, when
  // the graph is checked for the first time: every list starts empty.
  lemma ReverseIsTranspose(g: Graph, reverse: Graph, d: string, x: string)
    requires forall k :: k in reverse ==> reverse[k] == []
    ensures multiset(Lookup(Reversed(g, reverse), d))[x] == multiset(Lookup(g, x))[d]
    ensures x in Lookup(Reversed(g, reverse), d) <==> Edge(g, x, d)
  {
    var keys := SortedKeys(g.Keys);
    SortedKeysDistinct(g.Keys);
    DependentsMultiplicity(g, keys, d, x);
    ReverseItemsAppends(g, keys, reverse, d);
    var list := Lookup(Reversed(g, reverse), d);
    assert list == Dependents(g, keys, d);
    MembersByMultiplicity(list, x);
    MembersByMultiplicity(Lookup(g, x), d);
  }

  // Nobody is listed as the dependent of an item without being one.
  ghost predicate ReverseSound(g: Graph, reverse: Graph)
  {
    forall x, d :: x in Lookup(reverse, d) ==> Edge(g, x, d)
  }

  lemma ReversedMembers(g: Graph, reverse: Graph)
    requires ReverseSound(g, reverse) && g.Keys <= reverse.Keys
    ensures ReverseSound(g, Reversed(g, reverse))
    ensures ReverseMembers(g, Reversed(g, reverse))
  {
    var after := Reversed(g, reverse);
    var keys := SortedKeys(g.Keys);
    SortedKeysDistinct(g.Keys);
    ReverseItemsAppends(g, keys, reverse, "");
    forall x, d
      ensures x in Lookup(after, d) <==> Edge(g, x, d)
    {
      DependentsMultiplicity(g, keys, d, x);
      ReverseItemsAppends(g, keys, reverse, d);
      MembersByMultiplicity(Dependents(g, keys, d), x);
      MembersByMultiplicity(Lookup(g, x), d);
    }
  }

  class DependencyGraph {
    var state: GraphState
    var dependencies: Graph
    var sortedDependencies: Graph
    var reverseDependencies: Graph
    var inOrder: seq<string>
    var itemOrder: map<string, nat>
    var unknowns: Graph
    var cycles: seq<seq<string>>
    var independentSets: seq<seq<string>>

    ghost predicate Valid()
      reads this
    {
      && Named(dependencies)
      && dependencies.Keys <= reverseDependencies.Keys
      && sortedDependencies.Keys <= dependencies.Keys
      && (state == Ready <==> state != Init && unknowns == map[] && cycles == [])
      && ReverseSound(dependencies, reverseDependencies)
      && (state != Init ==> ReverseMembers(dependencies, reverseDependencies))
    }

    // After a check that started without errors on record, every field is what
    // GraphCheck says about the items and dependencies added so far.
    ghost predicate Checked()
      reads this
    {
      && Valid() && state != Init
      && unknowns == FirstCheck(dependencies).0.unknowns
      && cycles == FirstCheck(dependencies).0.cycles
      && sortedDependencies == FirstCheck(dependencies).1 - {""}
      && inOrder == InOrder(dependencies)
      && (forall i :: 0 <= i < |inOrder| ==> inOrder[i] in itemOrder && itemOrder[inOrder[i]] == i + 1)
    }

    constructor ()
      ensures Valid() && state == Init
      ensures dependencies == map[] && reverseDependencies == map[]
      ensures unknowns == map[] && cycles == [] && independentSets == []
    {
      state := Init;
      dependencies, sortedDependencies, reverseDependencies := map[], map[], map[];
      inOrder, itemOrder := [], map[];
      unknowns, cycles, independentSets := map[], [], [];
    }

    method AddItem(item: string)
      requires Valid() && item !in dependencies && item != ""
      modifies this
      ensures Valid() && state == Init
      ensures dependencies == old(dependencies)[item := []]
      ensures reverseDependencies == old(reverseDependencies)[item := []]
      ensures unknowns == old(unknowns) && cycles == old(cycles) && independentSets == old(independentSets)
    {
      state := Init;
      dependencies := dependencies[item := []];
      reverseDependencies := reverseDependencies[item := []];
      assert forall a, b :: Edge(dependencies, a, b) <==> Edge(old(dependencies), a, b);
      forall x, d | x in Lookup(reverseDependencies, d)
        ensures Edge(dependencies, x, d)
      {
        assert x in Lookup(old(reverseDependencies), d);
      }
    }

    method AddDependency(item: string, dep: string)
      requires Valid() && item in dependencies && dep != ""
      modifies this
      ensures Valid() && state == Init
      ensures dependencies == old(dependencies)[item := old(dependencies)[item] + [dep]]
      ensures reverseDependencies == old(reverseDependencies)
      ensures unknowns == old(unknowns) && cycles == old(cycles) && independentSets == old(independentSets)
    {
      state := Init;
      dependencies := dependencies[item := dependencies[item] + [dep]];
      assert forall a, b :: Edge(dependencies, a, b) && b != dep ==> Edge(old(dependencies), a, b);
    }

    // ---------- The search, in place ----------

    ghost function View(t: Scratch): Search
      reads this, t
    {
      Search(t.visited, t.visiting, t.path, t.result, t.unknownsSeen, t.cyclesSeen, unknowns, cycles)
    }

    // traverseInternal
    method TraverseInternal(item: string, t: Scratch)
      requires VisitingIsPath(View(t)) && (item in dependencies || t.path != [])
      modifies this`unknowns, this`cycles, t
      ensures View(t) == Traverse(dependencies, item, old(View(t)))
      decreases dependencies.Keys - t.visiting, 0
    {
      hide Traverse, TraverseAll, ReportUnknown, ReportCycle, VisitingIsPath;
      ghost var g, s := dependencies, View(t);
      TraverseCases(g, item, s);
      if item !in dependencies {
        NoteUnknown(item, t);
        return;
      }
      if item in t.visited {
        return;
      }
      if item in t.visiting {
        NoteCycle(item, t);
        return;
      }
      t.visiting := t.visiting + {item};
      t.path := t.path + [item];
      s := View(t);
      assert s == Enter(old(View(t)), item);
      ghost var done := TraverseAll(g, g[item], s);
      var neighbors := dependencies[item];
      var i := 0;
      assert neighbors[i..] == neighbors;
      while i < |neighbors|
        invariant i <= |neighbors| && dependencies == g && View(t) == s
        invariant VisitingIsPath(s) && s.path == old(t.path) + [item] && s.visiting == old(t.visiting) + {item}
        invariant TraverseAll(g, neighbors[i..], s) == done
      {
        TraverseAllStep(g, neighbors, i, s);
        TraverseInternal(neighbors[i], t);
        s := View(t);
        SameVisiting(old(View(t)), item, s);
        i := i + 1;
      }
      TraverseAllStep(g, neighbors, i, s);
      t.visiting := t.visiting - {item};
      t.path := t.path[..|t.path| - 1];
      t.visited := t.visited + {item};
      t.result := t.result + [item];
    }

    static lemma SameVisiting(s: Search, item: string, r: Search)
      requires VisitingIsPath(Enter(s, item))
      requires r.path == s.path + [item] && r.visiting == s.visiting + {item}
      ensures VisitingIsPath(r)
    {
    }

    method NoteUnknown(item: string, t: Scratch)
      requires t.path != []
      modifies this`unknowns, t
      ensures View(t) == ReportUnknown(old(View(t)), item)
    {
      var from := t.path[|t.path| - 1];
      var unknown := "(" + from + ") -> (" + item + ")";
      if unknown !in t.unknownsSeen {
        t.unknownsSeen := t.unknownsSeen + {unknown};
        unknowns := unknowns[from := (if from in unknowns then unknowns[from] else []) + [item]];
      }
    }

    method NoteCycle(item: string, t: Scratch)
      requires item in t.path
      modifies this`cycles, t
      ensures View(t) == ReportCycle(old(View(t)), item)
    {
      hide CycleAt, CycleKey;
      var cycle := ExtractCycle(t.path, item);
      var cycleString := DescribeCycle(cycle);
      if cycleString !in t.cyclesSeen {
        t.cyclesSeen := t.cyclesSeen + {cycleString};
        cycles := cycles + [cycle];
      }
    }

    // The part of the path from item on, rotated so that its smallest node comes first.
    static method ExtractCycle(path: seq<string>, item: string) returns (cycle: seq<string>)
      requires item in path
      ensures cycle == CycleAt(path, item)
    {
      cycle := path;
      while cycle[0] != item
        invariant item in cycle
        invariant cycle[IndexOf(cycle, item)..] == path[IndexOf(path, item)..]
        decreases |cycle|
      {
        assert IndexOf(cycle, item) == 1 + IndexOf(cycle[1..], item);
        assert cycle[IndexOf(cycle, item)..] == cycle[1..][IndexOf(cycle[1..], item)..];
        cycle := cycle[1..];
      }
      assert cycle == path[IndexOf(path, item)..];
      cycle := Canonicalize(cycle);
    }

    static method Canonicalize(loop: seq<string>) returns (cycle: seq<string>)
      requires |loop| > 0
      ensures cycle == Turned(loop)
    {
      var min := SmallestOf(loop);
      var n := 0;
      cycle := loop;
      while cycle[0] != min
        invariant n <= IndexOf(loop, min)
        invariant cycle == loop[n..] + loop[..n]
        decreases IndexOf(loop, min) - n
      {
        assert cycle[0] == loop[n];
        cycle := cycle[1..] + [cycle[0]];
        n := n + 1;
      }
      assert loop[n] == min;
    }

    static method SmallestOf(cycle: seq<string>) returns (min: string)
      requires |cycle| > 0
      ensures min in cycle && min == Least(Elements(cycle))
    {
      min := cycle[0];
      var i := 0;
      while i < |cycle|
        invariant i <= |cycle| && min in cycle
        invariant forall k :: 0 <= k < i ==> cycle[k] == min || Less(min, cycle[k])
      {
        LessTotal(cycle[i], min);
        if Less(cycle[i], min) {
          forall k | 0 <= k < i && cycle[k] != cycle[i]
            ensures Less(cycle[i], cycle[k])
          {
            if cycle[k] != min {
              LessTransitive(cycle[i], min, cycle[k]);
            }
          }
          min := cycle[i];
        }
        i := i + 1;
      }
      assert IsLeast(min, Elements(cycle));
      LeastIsLeast(Elements(cycle));
      LeastUnique();
    }

    static method DescribeCycle(cycle: seq<string>) returns (text: string)
      ensures text == CycleKey(cycle)
    {
      text := "";
      var i := 0;
      while i < |cycle|
        invariant i <= |cycle|
        invariant text + CycleKey(cycle[i..]) == CycleKey(cycle)
      {
        assert cycle[i..][1..] == cycle[i + 1..];
        var step := "(" + cycle[i] + ") -> ";
        assert text + CycleKey(cycle[i..]) == (text + step) + CycleKey(cycle[i + 1..]);
        text := text + step;
        i := i + 1;
      }
    }

    // topologicalSort: traverse separately from each node.
    method TopologicalSort() returns (ghost r: (Search, Graph))
      modifies this`unknowns, this`cycles, this`sortedDependencies
      ensures r == SortAll(dependencies, SortedKeys(dependencies.Keys),
                           Start(old(unknowns), old(cycles)), old(sortedDependencies))
      ensures unknowns == r.0.unknowns && cycles == r.0.cycles && sortedDependencies == r.1
    {
      hide TraverseFrom;
      ghost var g, s, lists := dependencies, Start(unknowns, cycles), sortedDependencies;
      var t := new Scratch();
      var keys := KeysInOrder(dependencies.Keys);
      r := SortAll(g, keys, s, lists);
      var i := 0;
      assert keys[i..] == keys;
      while i < |keys|
        invariant i <= |keys|
        invariant forall k :: k in keys[i..] ==> k in g
        invariant dependencies == g && View(t) == s && sortedDependencies == lists
        invariant SortAll(g, keys[i..], s, lists) == r
      {
        SortAllStep(g, keys, i, s, lists);
        SortOne(keys[i], t);
        s := TraverseFrom(g, keys[i], s);
        lists := lists[keys[i] := s.result];
        i := i + 1;
      }
      assert keys[i..] == [];
    }

    // traverse
    method SortOne(item: string, t: Scratch)
      requires item in dependencies
      modifies this`unknowns, this`cycles, this`sortedDependencies, t
      ensures View(t) == TraverseFrom(dependencies, item, old(View(t)))
      ensures sortedDependencies == old(sortedDependencies)[item := t.result]
    {
      ghost var before := View(t);
      t.visited, t.visiting, t.path, t.result := {}, {}, [], [];
      assert View(t) == Fresh(before);
      TraverseInternal(item, t);
      sortedDependencies := sortedDependencies[item := t.result];
    }

    // check
    method Check() returns (good: bool)
      requires Valid()
      modifies this
      ensures Valid() && state != Init && dependencies == old(dependencies)
      ensures good <==> state == Ready
      ensures old(state) != Init ==> unchanged(this)
      ensures old(state) == Init && old(unknowns) == map[] && old(cycles) == [] ==> Checked()
      ensures old(state) == Init ==> sortedDependencies.Keys == dependencies.Keys
      ensures old(state) == Init && (old(unknowns) != map[] || old(cycles) != []) ==> !good
      ensures old(state) == Init ==> reverseDependencies == Reversed(dependencies, old(reverseDependencies))
    {
      hide Traversals, FirstCheck, RootList, Reversed, Distinct, ReverseSound, ReverseMembers;
      if state != Init {
        return state == Ready;
      }
      ghost var r := SortGraph();
      ghost var before := Start(old(unknowns), old(cycles));
      RootListDistinct(dependencies, before, old(sortedDependencies));
      TraversalsKeys(dependencies, before, old(sortedDependencies));
      RecheckIsFirstCheck(dependencies, old(sortedDependencies));
      if old(unknowns) != map[] || old(cycles) != [] {
        StaleErrorsPersist(dependencies, old(unknowns), old(cycles), old(sortedDependencies));
      }
      NumberItems();
      ReversedMembers(dependencies, reverseDependencies);
      ReverseGraph();
      if !(unknowns == map[] && cycles == []) {
        state := InError;
      } else {
        state := Ready;
      }
      return state == Ready;
    }

    // Sort from a temporary root that depends on every item.
    method SortGraph() returns (ghost r: (Search, Graph))
      requires Valid()
      modifies this`dependencies, this`unknowns, this`cycles, this`sortedDependencies, this`inOrder
      ensures dependencies == old(dependencies)
      ensures r == Traversals(dependencies, Start(old(unknowns), old(cycles)), old(sortedDependencies))
      ensures unknowns == r.0.unknowns && cycles == r.0.cycles
      ensures sortedDependencies == r.1 - {""} && inOrder == RootList(r.1)
    {
      hide SortAll, RootList;
      ghost var g := dependencies;
      ghost var before := Start(unknowns, cycles);
      ghost var lists := sortedDependencies;
      AddRoot();
      r := TopologicalSort();
      assert r == Traversals(g, before, lists);
      RootSorted(g, before, lists);
      TakeRootList();
      RemoveRoot(g);
    }

    method AddRoot()
      modifies this`dependencies
      ensures dependencies == Rooted(old(dependencies))
    {
      var keys := KeysInOrder(dependencies.Keys);
      dependencies := dependencies["" := keys];
    }

    method TakeRootList()
      requires "" in sortedDependencies && sortedDependencies[""] != []
      modifies this`inOrder
      ensures inOrder == RootList(sortedDependencies)
    {
      inOrder := sortedDependencies[""];
      inOrder := inOrder[..|inOrder| - 1];
    }

    method RemoveRoot(ghost g: Graph)
      requires "" !in g && dependencies == Rooted(g)
      modifies this`dependencies, this`sortedDependencies
      ensures dependencies == g && sortedDependencies == old(sortedDependencies) - {""}
    {
      dependencies := dependencies - {""};
      sortedDependencies := sortedDependencies - {""};
      assert dependencies == g;
    }

    // Positions in the sorted graph, counted from 1.
    method NumberItems()
      requires Distinct(inOrder)
      modifies this`itemOrder
      ensures forall i :: 0 <= i < |inOrder| ==> inOrder[i] in itemOrder && itemOrder[inOrder[i]] == i + 1
    {
      var pos := 0;
      while pos < |inOrder|
        invariant 0 <= pos <= |inOrder|
        invariant forall i :: 0 <= i < pos ==> inOrder[i] in itemOrder && itemOrder[inOrder[i]] == i + 1
      {
        pos := pos + 1;
        itemOrder := itemOrder[inOrder[pos - 1] := pos];
      }
    }

    // Append every item to the reverse dependencies of whatever it depends on.
    method ReverseGraph()
      modifies this`reverseDependencies
      ensures reverseDependencies == Reversed(dependencies, old(reverseDependencies))
      ensures old(reverseDependencies).Keys <= reverseDependencies.Keys
    {
      ghost var before := reverseDependencies;
      var keys := KeysInOrder(dependencies.Keys);
      var i := 0;
      while i < |keys|
        invariant i <= |keys|
        invariant reverseDependencies == ReverseItems(dependencies, keys[..i], before)
      {
        ReverseItem(keys[i]);
        assert keys[..i + 1][..i] == keys[..i];
        i := i + 1;
      }
      assert keys[..i] == keys;
      ReverseItemsAppends(dependencies, keys, before, "");
    }

    method ReverseItem(item: string)
      requires item in dependencies
      modifies this`reverseDependencies
      ensures reverseDependencies == ReverseDeps(item, dependencies[item], old(reverseDependencies))
    {
      var deps := dependencies[item];
      var j := 0;
      while j < |deps|
        invariant j <= |deps|
        invariant reverseDependencies == ReverseDeps(item, deps[..j], old(reverseDependencies))
      {
        var dep := deps[j];
        assert deps[..j + 1][..j] == deps[..j];
        reverseDependencies :=
          reverseDependencies[dep := (if dep in reverseDependencies then reverseDependencies[dep] else []) + [item]];
        j := j + 1;
      }
      assert deps[..j] == deps;
    }

    method GetSortedDependencies(item: string) returns (order: seq<string>)
      requires Checked() && item in dependencies
      ensures SortedFor(dependencies, item, order)
      ensures state == Ready ==> Topological(dependencies, order)
    {
      hide FirstCheck, SortedFor, Topological;
      SortedDependencies(dependencies, item);
      VerdictExact(dependencies);
      return sortedDependencies[item];
    }

    // compareItems: -1, 0 or 1 by position in the sorted graph.
    method CompareItems(i1: string, i2: string) returns (r: int)
      requires Checked() && i1 in dependencies && i2 in dependencies
      ensures r == 0 <==> i1 == i2
      ensures r < 0 <==> i1 in inOrder && i2 in inOrder && IndexOf(inOrder, i1) < IndexOf(inOrder, i2)
      ensures r in {-1, 0, 1}
      ensures state == Ready && Edge(dependencies, i2, i1) ==> r == -1
    {
      InOrderExact(dependencies);
      var a, b := IndexOf(inOrder, i1), IndexOf(inOrder, i2);
      assert itemOrder[inOrder[a]] == a + 1 && itemOrder[inOrder[b]] == b + 1;
      var n1, n2 := itemOrder[i1], itemOrder[i2];
      if n1 < n2 {
        r := -1;
      } else if n1 > n2 {
        r := 1;
      } else {
        r := 0;
      }
      if state == Ready && Edge(dependencies, i2, i1) {
        VerdictExact(dependencies);
        assert i1 in inOrder[..b];
        assert a < b by {
          var k :| 0 <= k < b && inOrder[k] == i1;
        }
      }
    }

    // getIndependentSets: computed once, on an error-free graph.
    method GetIndependentSets() returns (sets: seq<seq<string>>)
      requires Checked() && state == Ready
      modifies this`independentSets
      ensures sets == independentSets
      ensures old(independentSets) == [] ==> AreIndependentSets(dependencies, inOrder, sets)
      ensures old(independentSets) != [] ==> sets == old(independentSets)
    {
      if independentSets != [] {
        return independentSets;
      }
      InOrderExact(dependencies);
      VerdictExact(dependencies);
      var numbers, count := NumberSets(dependencies, reverseDependencies, inOrder);
      sets := GatherSets(dependencies, inOrder, numbers, count);
      independentSets := sets;
    }
  }
}
