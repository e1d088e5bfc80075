// The depth-first search behind DependencyGraph, as a function of its state, and what it finds.
module Traversal {
  import opened Names

  type Graph = map<string, seq<string>>

  // ---------- What the search is supposed to discover ----------

  ghost predicate Edge(g: Graph, a: string, b: string)
  {
    a in g && b in g[a]
  }

  // Known nodes, each depending on the next.
  ghost predicate Chain(g: Graph, p: seq<string>)
  {
    && (forall i :: 0 <= i < |p| ==> p[i] in g)
    && (forall i, j :: 0 <= i && j == i + 1 && j < |p| ==> p[j] in g[p[i]])
  }

  // A walk of known nodes from a to b (a one-node walk when a == b).
  ghost predicate Walk(g: Graph, p: seq<string>, a: string, b: string)
  {
    |p| > 0 && p[0] == a && p[|p| - 1] == b && Chain(g, p)
  }

  ghost predicate Reaches(g: Graph, a: string, b: string)
  {
    exists p :: Walk(g, p, a, b)
  }

  // Some dependency chain leads from x back to x.
  ghost predicate OnCycle(g: Graph, x: string)
  {
    exists y :: y in g && x in g[y] && Reaches(g, x, y)
  }

  // A reported cycle: a simple closed path whose first node is its smallest.
  ghost predicate CanonicalCycle(g: Graph, c: seq<string>)
  {
    && |c| > 0
    && Distinct(c)
    && Chain(g, c)
    && c[0] in g[c[|c| - 1]]
    && (forall x :: x in c ==> x == c[0] || Less(c[0], x))
  }

  // a depends on b, and b does not exist.
  ghost predicate Missing(g: Graph, a: string, b: string)
  {
    Edge(g, a, b) && b !in g
  }

  ghost predicate NoUnknowns(g: Graph)
  {
    forall a, b :: !Missing(g, a, b)
  }

  ghost predicate Acyclic(g: Graph)
  {
    forall x :: x in g ==> !OnCycle(g, x)
  }

  // Every dependency of an element of the list precedes it.
  ghost predicate Topological(g: Graph, order: seq<string>)
  {
    forall i, w :: 0 <= i < |order| && order[i] in g && w in g[order[i]] && w in g ==> w in order[..i]
  }

  // ---------- The search ----------

  // unknownsSeen, cyclesSeen, unknowns and cycles live for a whole check; the
  // other fields start afresh for every node from which the graph is traversed.
  datatype Search = Search(
    visited: set<string>, visiting: set<string>, path: seq<string>, result: seq<string>,
    unknownsSeen: set<string>, cyclesSeen: set<string>,
    unknowns: Graph, cycles: seq<seq<string>>)

  function UnknownKey(from: string, to: string): string
  {
    "(" + from + ") -> (" + to + ")"
  }

  function CycleKey(c: seq<string>): string
  {
    if c == [] then "" else "(" + c[0] + ") -> " + CycleKey(c[1..])
  }

  function IndexOf(s: seq<string>, x: string): (i: nat)
    requires x in s
    ensures i < |s| && s[i] == x && x !in s[..i]
  {
    if s[0] == x then 0 else 1 + IndexOf(s[1..], x)
  }

  // The part of the path that closes a cycle at item, turned so that its smallest node is first.
  ghost function CycleAt(path: seq<string>, item: string): (c: seq<string>)
    requires item in path
    ensures |c| > 0
  {
    Turned(path[IndexOf(path, item)..])
  }

  function Elements(c: seq<string>): (s: set<string>)
    requires |c| > 0
    ensures s != {}
  {
    var s := set x | x in c;
    assert c[0] in s;
    s
  }

  ghost function Turned(c: seq<string>): (r: seq<string>)
    requires |c| > 0
    ensures |r| == |c|
  {
    var m := Least(Elements(c));
    var i := IndexOf(c, m);
    c[i..] + c[..i]
  }

  function AddUnknown(unknowns: Graph, from: string, to: string): Graph
  {
    unknowns[from := (if from in unknowns then unknowns[from] else []) + [to]]
  }

  ghost function ReportUnknown(s: Search, item: string): Search
    requires s.path != []
  {
    var from := s.path[|s.path| - 1];
    var key := UnknownKey(from, item);
    if key in s.unknownsSeen then s
    else s.(unknownsSeen := s.unknownsSeen + {key}, unknowns := AddUnknown(s.unknowns, from, item))
  }

  ghost function ReportCycle(s: Search, item: string): Search
    requires item in s.path
  {
    var c := CycleAt(s.path, item);
    var key := CycleKey(c);
    if key in s.cyclesSeen then s
    else s.(cyclesSeen := s.cyclesSeen + {key}, cycles := s.cycles + [c])
  }

  ghost function Enter(s: Search, item: string): Search
  {
    s.(visiting := s.visiting + {item}, path := s.path + [item])
  }

  ghost function Leave(s: Search, item: string): Search
    requires s.path != []
  {
    s.(visiting := s.visiting - {item}, path := s.path[..|s.path| - 1],
       visited := s.visited + {item}, result := s.result + [item])
  }

  ghost predicate VisitingIsPath(s: Search)
  {
    forall x :: x in s.visiting <==> x in s.path
  }

  // traverseInternal
  ghost function Traverse(g: Graph, item: string, s: Search): (r: Search)
    requires VisitingIsPath(s)
    requires item in g || s.path != []
    ensures r.visiting == s.visiting && r.path == s.path
    decreases g.Keys - s.visiting, 0, 0
  {
    if item !in g then ReportUnknown(s, item)
    else if item in s.visited then s
    else if item in s.visiting then ReportCycle(s, item)
    else
      var e := Enter(s, item);
      assert g.Keys - e.visiting < g.Keys - s.visiting by { assert item in g.Keys - s.visiting; }
      var r := Leave(TraverseAll(g, g[item], e), item);
      assert r.visiting == s.visiting;
      r
  }

  // The loop over the neighbors of the item at the end of the path.
  ghost function TraverseAll(g: Graph, neighbors: seq<string>, s: Search): (r: Search)
    requires VisitingIsPath(s) && s.path != []
    ensures r.visiting == s.visiting && r.path == s.path
    decreases g.Keys - s.visiting, 1, |neighbors|
  {
    if neighbors == [] then s
    else TraverseAll(g, neighbors[1..], Traverse(g, neighbors[0], s))
  }

  lemma TraverseCases(g: Graph, item: string, s: Search)
    requires VisitingIsPath(s) && (item in g || s.path != [])
    ensures item in s.visiting ==> item in s.path
    ensures item !in g ==> Traverse(g, item, s) == ReportUnknown(s, item)
    ensures item in g && item in s.visited ==> Traverse(g, item, s) == s
    ensures item in g && item !in s.visited && item in s.visiting ==> Traverse(g, item, s) == ReportCycle(s, item)
    ensures item in g && item !in s.visited && item !in s.visiting ==>
              && VisitingIsPath(Enter(s, item))
              && g.Keys - Enter(s, item).visiting < g.Keys - s.visiting
              && Traverse(g, item, s) == Leave(TraverseAll(g, g[item], Enter(s, item)), item)
  {
    if item in g && item !in s.visiting {
      assert item in g.Keys - s.visiting;
    }
  }

  lemma TraverseAllStep(g: Graph, neighbors: seq<string>, i: nat, s: Search)
    requires VisitingIsPath(s) && s.path != [] && i <= |neighbors|
    ensures i < |neighbors| ==>
              TraverseAll(g, neighbors[i..], s) == TraverseAll(g, neighbors[i + 1..], Traverse(g, neighbors[i], s))
    ensures i == |neighbors| ==> TraverseAll(g, neighbors[i..], s) == s
  {
    if i < |neighbors| {
      assert neighbors[i..][1..] == neighbors[i + 1..];
    }
  }

  // A traversal from a node that is on nobody's path, with nothing visited.
  ghost function Fresh(s: Search): Search
  {
    s.(visited := {}, visiting := {}, path := [], result := [])
  }

  ghost function TraverseFrom(g: Graph, root: string, s: Search): Search
    requires root in g
  {
    Traverse(g, root, Fresh(s))
  }

  // ---------- Walks ----------

  lemma ChainTail(g: Graph, p: seq<string>)
    requires Chain(g, p) && |p| > 0
    ensures Chain(g, p[1..])
  {
    var q := p[1..];
    forall i, j | 0 <= i && j == i + 1 && j < |q|
      ensures q[j] in g[q[i]]
    {
      assert q[i] == p[i + 1] && q[j] == p[j + 1];
    }
  }

  lemma ExtendWalk(g: Graph, a: string, b: string, c: string)
    requires Reaches(g, a, b) && c in g && c in g[b]
    ensures Reaches(g, a, c)
  {
    var p :| Walk(g, p, a, b);
    assert Walk(g, p + [c], a, c);
  }

  lemma ReachesSelf(g: Graph, a: string)
    requires a in g
    ensures Reaches(g, a, a)
  {
    assert Walk(g, [a], a, a);
  }

  lemma ReachesTransitive(g: Graph, a: string, b: string, c: string)
    requires Reaches(g, a, b) && Reaches(g, b, c)
    ensures Reaches(g, a, c)
  {
    var p :| Walk(g, p, a, b);
    var q :| Walk(g, q, b, c);
    var r := p + q[1..];
    forall i, j | 0 <= i && j == i + 1 && j < |r|
      ensures r[j] in g[r[i]]
    {
      if i >= |p| - 1 {
        assert r[i] == q[i - |p| + 1] && r[i + 1] == q[i - |p| + 2];
      }
    }
    assert Walk(g, r, a, c);
  }

  // A set of known nodes closed under known dependencies holds all that its members reach.
  lemma {:induction false} ClosedHoldsWalk(g: Graph, s: set<string>, p: seq<string>, a: string, b: string)
    requires forall v, w :: v in s && v in g && w in g[v] && w in g ==> w in s
    requires a in s && Walk(g, p, a, b)
    ensures b in s
  {
    if |p| > 1 {
      assert p[1] in g[p[0]];
      ChainTail(g, p);
      assert Walk(g, p[1..], p[1], b);
      ClosedHoldsWalk(g, s, p[1..], p[1], b);
    }
  }

  // ---------- Shape: what is visited, and where the path lies ----------

  // Path and visited set during a traversal from root.
  ghost predicate Shape(g: Graph, root: string, s: Search)
  {
    && VisitingIsPath(s)
    && Distinct(s.path)
    && (s.path != [] ==> s.path[0] == root)
    && Chain(g, s.path)
    && s.visited !! s.visiting
    && (forall x :: x in s.visited <==> x in s.result)
    && Distinct(s.result)
    && s.visited <= g.Keys
    && (forall x :: x in s.visited ==> Reaches(g, root, x))
    && (forall v, w :: v in s.visited && w in g[v] && w in g ==> w in s.visited + s.visiting)
  }

  // item is next after the last node of the path (or is the root of the traversal).
  ghost predicate Next(g: Graph, root: string, s: Search, item: string)
  {
    if s.path == [] then item == root && item in g
    else s.path[|s.path| - 1] in g && item in g[s.path[|s.path| - 1]]
  }

  lemma ShapeBasics(g: Graph, root: string, s: Search, item: string)
    requires Shape(g, root, s)
    ensures VisitingIsPath(s) && s.visited !! s.visiting && s.visiting <= g.Keys
    ensures Next(g, root, s, item) && item !in g ==> s.path != []
  {
  }

  lemma {:induction false} PathIsReached(g: Graph, root: string, s: Search)
    requires Shape(g, root, s) && s.path != []
    ensures Reaches(g, root, s.path[|s.path| - 1])
  {
    assert Walk(g, s.path, root, s.path[|s.path| - 1]);
  }

  lemma EnterKeepsShape(g: Graph, root: string, s: Search, item: string)
    requires Shape(g, root, s) && Next(g, root, s, item)
    requires item in g && item !in s.visited && item !in s.visiting
    ensures var e := Enter(s, item);
            && Shape(g, root, e) && e.path != []
            && g.Keys - e.visiting < g.Keys - s.visiting
            && (forall n :: n in g[item] ==> Next(g, root, e, n))
  {
    assert item in g.Keys - s.visiting;
  }

  lemma LeavePath(s: Search, item: string)
    requires VisitingIsPath(s) && Distinct(s.path) && s.path != [] && s.path[|s.path| - 1] == item
    ensures VisitingIsPath(Leave(s, item))
  {
    var r := Leave(s, item);
    assert s.path == r.path + [item];
  }

  lemma LeaveKeepsShape(g: Graph, root: string, s: Search, item: string)
    requires Shape(g, root, s) && s.path != [] && s.path[|s.path| - 1] == item
    requires forall w :: w in g[item] && w in g ==> w in s.visited + s.visiting
    ensures Shape(g, root, Leave(s, item))
  {
    PathIsReached(g, root, s);
    LeavePath(s, item);
    var r := Leave(s, item);
    assert item in s.visiting;
    forall v, w | v in r.visited && w in g[v] && w in g
      ensures w in r.visited + r.visiting
    {
      assert w in s.visited + s.visiting;
    }
  }

  ghost predicate Grows(s: Search, r: Search)
  {
    && r.path == s.path && r.visiting == s.visiting
    && s.visited <= r.visited
    && s.result <= r.result
    && s.unknownsSeen <= r.unknownsSeen
    && s.cyclesSeen <= r.cyclesSeen
    && s.cycles <= r.cycles
    && s.unknowns.Keys <= r.unknowns.Keys
  }

  lemma ReportKeepsShape(g: Graph, root: string, s: Search, item: string)
    requires Shape(g, root, s)
    ensures s.path != [] ==> Shape(g, root, ReportUnknown(s, item)) && Grows(s, ReportUnknown(s, item))
    ensures item in s.path ==> Shape(g, root, ReportCycle(s, item)) && Grows(s, ReportCycle(s, item))
  {
    hide CycleAt, CycleKey, UnknownKey, Reaches;
  }

  lemma GrowsThrough(s: Search, m: Search, item: string)
    requires Grows(Enter(s, item), m) && item !in s.visiting
    ensures m.path != [] && m.path[|m.path| - 1] == item
    ensures Grows(s, Leave(m, item)) && item in Leave(m, item).visited
  {
    assert m.path == s.path + [item];
    assert m.path[..|m.path| - 1] == s.path;
    assert m.visiting - {item} == s.visiting;
  }

  lemma GrowsTransitive(s: Search, m: Search, r: Search)
    requires Grows(s, m) && Grows(m, r)
    ensures Grows(s, r)
    ensures forall n :: n in m.visited + m.visiting ==> n in r.visited + r.visiting
  {
  }

  lemma {:induction false} TraverseShape(g: Graph, root: string, item: string, s: Search)
    requires Shape(g, root, s) && Next(g, root, s, item)
    ensures var r := Traverse(g, item, s);
            Shape(g, root, r) && Grows(s, r) && (item in g ==> item in r.visited + r.visiting)
    decreases g.Keys - s.visiting, 0, 0
  {
    hide Shape, Next, Enter, Leave, ReportUnknown, ReportCycle;
    ShapeBasics(g, root, s, item);
    if item !in g {
      ReportKeepsShape(g, root, s, item);
    } else if item in s.visited {
    } else if item in s.visiting {
      ReportKeepsShape(g, root, s, item);
    } else {
      var e := Enter(s, item);
      EnterKeepsShape(g, root, s, item);
      TraverseAllShape(g, root, g[item], e);
      var m := TraverseAll(g, g[item], e);
      GrowsThrough(s, m, item);
      LeaveKeepsShape(g, root, m, item);
    }
  }

  lemma SameNext(g: Graph, root: string, s: Search, m: Search, neighbors: seq<string>)
    requires neighbors != [] && m.path == s.path && (forall n :: n in neighbors ==> Next(g, root, s, n))
    ensures Next(g, root, s, neighbors[0])
    ensures forall n :: n in neighbors[1..] ==> Next(g, root, m, n)
  {
    assert neighbors[0] in neighbors;
    forall n | n in neighbors[1..]
      ensures Next(g, root, m, n)
    {
      assert n in neighbors;
    }
  }

  lemma HeadOrTail(neighbors: seq<string>)
    requires neighbors != []
    ensures forall n :: n in neighbors ==> n == neighbors[0] || n in neighbors[1..]
  {
  }

  lemma {:induction false} TraverseAllShape(g: Graph, root: string, neighbors: seq<string>, s: Search)
    requires Shape(g, root, s) && s.path != []
    requires forall n :: n in neighbors ==> Next(g, root, s, n)
    ensures var r := TraverseAll(g, neighbors, s);
            Shape(g, root, r) && Grows(s, r)
            && (forall n :: n in neighbors && n in g ==> n in r.visited + r.visiting)
    decreases g.Keys - s.visiting, 1, |neighbors|
  {
    hide Shape, Next;
    ShapeBasics(g, root, s, "");
    if neighbors != [] {
      var m := Traverse(g, neighbors[0], s);
      SameNext(g, root, s, m, neighbors);
      TraverseShape(g, root, neighbors[0], s);
      TraverseAllShape(g, root, neighbors[1..], m);
      GrowsTransitive(s, m, TraverseAll(g, neighbors, s));
      HeadOrTail(neighbors);
    }
  }

  // sorted_dependencies: exactly the known nodes the root reaches, once each, the root last.
  lemma {:induction false} SortedDependenciesExact(g: Graph, root: string, s: Search)
    requires root in g
    ensures var order := TraverseFrom(g, root, s).result;
            && Distinct(order)
            && (forall x :: x in order <==> Reaches(g, root, x))
            && |order| > 0 && order[|order| - 1] == root
  {
    var f := Fresh(s);
    assert Shape(g, root, f);
    TraverseShape(g, root, root, f);
    var r := TraverseFrom(g, root, s);
    forall x | Reaches(g, root, x)
      ensures x in r.result
    {
      var p :| Walk(g, p, root, x);
      ClosedHoldsWalk(g, r.visited, p, root, x);
    }
  }

  // ---------- Cycle reports ----------

  ghost predicate Reported(s: Search, key: string)
  {
    exists c :: c in s.cycles && CycleKey(c) == key
  }

  // Every report is a canonical cycle of g, reported once, and the keys seen are those of the reports.
  ghost predicate CyclesSound(g: Graph, s: Search)
  {
    && (forall i :: 0 <= i < |s.cycles| ==> CanonicalCycle(g, s.cycles[i]) && CycleKey(s.cycles[i]) in s.cyclesSeen)
    && (forall i, j :: 0 <= i < j < |s.cycles| ==> CycleKey(s.cycles[i]) != CycleKey(s.cycles[j]))
    && (forall k :: k in s.cyclesSeen ==> Reported(s, k))
  }

  lemma CycleAtIsCanonical(g: Graph, root: string, s: Search, item: string)
    requires Shape(g, root, s) && item in s.visiting && Next(g, root, s, item)
    ensures CanonicalCycle(g, CycleAt(s.path, item))
    ensures forall x :: x in s.path[IndexOf(s.path, item)..] ==> x in CycleAt(s.path, item)
  {
    var c := s.path[IndexOf(s.path, item)..];
    assert c[|c| - 1] == s.path[|s.path| - 1];
    assert c[0] == item;
    TurnedIsCanonical(g, c);
  }

  lemma SameMembers(c: seq<string>, i: nat)
    requires i <= |c|
    ensures forall x :: x in c <==> x in c[i..] + c[..i]
  {
    assert c == c[..i] + c[i..];
  }

  lemma TurnedIsCanonical(g: Graph, c: seq<string>)
    requires |c| > 0 && Distinct(c)
    requires Chain(g, c)
    requires c[0] in g[c[|c| - 1]]
    ensures CanonicalCycle(g, Turned(c))
    ensures forall x :: x in c <==> x in Turned(c)
  {
    LeastIsLeast(Elements(c));
    var i := IndexOf(c, Least(Elements(c)));
    SameMembers(c, i);
    RotationIsClosed(g, c, i);
    RotationIsDistinct(c, i);
  }

  lemma RotationIsDistinct(c: seq<string>, i: nat)
    requires Distinct(c) && i < |c|
    ensures Distinct(c[i..] + c[..i])
  {
    var r := c[i..] + c[..i];
    forall j, k | 0 <= j < k < |r|
      ensures r[j] != r[k]
    {
      assert r[j] == c[if j < |c| - i then i + j else i + j - |c|];
      assert r[k] == c[if k < |c| - i then i + k else i + k - |c|];
    }
  }

  lemma RotationIsClosed(g: Graph, c: seq<string>, i: nat)
    requires i < |c| && Chain(g, c) && c[0] in g[c[|c| - 1]]
    ensures var r := c[i..] + c[..i]; Chain(g, r) && r[0] in g[r[|r| - 1]]
  {
    var r := c[i..] + c[..i];
    forall k, n | 0 <= k && n == k + 1 && n < |r|
      ensures r[n] in g[r[k]]
    {
      if k + i == |c| - 1 {
        assert r[k] == c[|c| - 1] && r[k + 1] == c[0];
      } else if k + i < |c| - 1 {
        assert r[k] == c[k + i] && r[k + 1] == c[k + i + 1];
      } else {
        assert r[k] == c[k + i - |c|] && r[k + 1] == c[k + i - |c| + 1];
      }
    }
    if i > 0 {
      assert r[|r| - 1] == c[i - 1] && r[0] == c[i];
    }
  }

  lemma ReportCycleSound(g: Graph, root: string, s: Search, item: string)
    requires Shape(g, root, s) && item in s.visiting && Next(g, root, s, item)
    requires CyclesSound(g, s)
    ensures CyclesSound(g, ReportCycle(s, item))
    ensures CycleKey(CycleAt(s.path, item)) in ReportCycle(s, item).cyclesSeen
  {
    CycleAtIsCanonical(g, root, s, item);
    if CycleKey(CycleAt(s.path, item)) !in s.cyclesSeen {
      AddCycleSound(g, s, CycleAt(s.path, item));
    }
  }

  lemma AddCycleSound(g: Graph, s: Search, c: seq<string>)
    requires CyclesSound(g, s) && CanonicalCycle(g, c) && CycleKey(c) !in s.cyclesSeen
    ensures CyclesSound(g, s.(cyclesSeen := s.cyclesSeen + {CycleKey(c)}, cycles := s.cycles + [c]))
  {
    var key := CycleKey(c);
    var r := s.(cyclesSeen := s.cyclesSeen + {key}, cycles := s.cycles + [c]);
    forall k | k in r.cyclesSeen
      ensures Reported(r, k)
    {
      if k == key {
        assert r.cycles[|s.cycles|] == c;
      } else {
        var d :| d in s.cycles && CycleKey(d) == k;
        assert d in r.cycles;
      }
    }
  }

  // A cycle through x has been detected (it is reported, or another one with the same key is).
  ghost predicate Detected(g: Graph, s: Search, x: string)
  {
    exists c :: CanonicalCycle(g, c) && x in c && CycleKey(c) in s.cyclesSeen
  }

  lemma DetectedStays(g: Graph, s: Search, r: Search, x: string)
    requires Detected(g, s, x) && s.cyclesSeen <= r.cyclesSeen
    ensures Detected(g, r, x)
  {
    var c :| CanonicalCycle(g, c) && x in c && CycleKey(c) in s.cyclesSeen;
    assert CycleKey(c) in r.cyclesSeen;
  }

  // While the root is on the path, whoever depends on it and is done has exposed a cycle.
  ghost predicate RootExposed(g: Graph, root: string, s: Search)
  {
    forall v :: v in s.visited && v in g && root in g[v] ==> Detected(g, s, root)
  }

  // As long as no cycle was found, what is done lies after all it depends on.
  ghost predicate Sorted(g: Graph, s: Search)
  {
    s.cycles == [] ==> Topological(g, s.result)
  }

  ghost predicate CycleInvariant(g: Graph, root: string, s: Search)
  {
    Shape(g, root, s) && CyclesSound(g, s) && RootExposed(g, root, s) && Sorted(g, s)
  }

  lemma CycleShape(g: Graph, root: string, s: Search)
    requires CycleInvariant(g, root, s)
    ensures Shape(g, root, s) && VisitingIsPath(s) && s.visited !! s.visiting
  {
  }

  lemma {:induction false} TraverseCycles(g: Graph, root: string, item: string, s: Search)
    requires CycleInvariant(g, root, s) && Next(g, root, s, item)
    ensures var r := Traverse(g, item, s);
            && CycleInvariant(g, root, r)
            && (item in g && r.cycles == [] ==> item in r.visited)
            && (item == root && s.path != [] && root in s.visiting ==> Detected(g, r, root))
    decreases g.Keys - s.visiting, 0, 0
  {
    hide CycleInvariant, Detected, ReportUnknown, ReportCycle, Shape, Next;
    CycleShape(g, root, s);
    ShapeBasics(g, root, s, item);
    TraverseShape(g, root, item, s);
    if item !in g {
      UnknownKeepsCycles(g, root, s, item);
    } else if item in s.visited {
    } else if item in s.visiting {
      ReportKeepsCycles(g, root, s, item);
    } else {
      var e := Enter(s, item);
      EnterKeepsCycles(g, root, s, item);
      TraverseAllShape(g, root, g[item], e);
      TraverseAllCycles(g, root, g[item], e);
      LeaveKeepsCycles(g, root, TraverseAll(g, g[item], e), item);
    }
  }

  lemma UnknownKeepsCycles(g: Graph, root: string, s: Search, item: string)
    requires CycleInvariant(g, root, s) && s.path != []
    ensures CycleInvariant(g, root, ReportUnknown(s, item))
  {
    var r := ReportUnknown(s, item);
    assert Shape(g, root, r);
    assert forall k :: Reported(s, k) ==> Reported(r, k);
    if Detected(g, s, root) {
      DetectedStays(g, s, r, root);
    }
  }

  lemma ReportKeepsCycles(g: Graph, root: string, s: Search, item: string)
    requires CycleInvariant(g, root, s) && item in s.visiting && Next(g, root, s, item)
    ensures var r := ReportCycle(s, item);
            CycleInvariant(g, root, r) && r.cycles != [] && (item == root ==> Detected(g, r, root))
  {
    var r := ReportCycle(s, item);
    ReportCycleSound(g, root, s, item);
    assert Shape(g, root, r);
    CycleAtIsCanonical(g, root, s, item);
    assert item in s.path[IndexOf(s.path, item)..];
    if Detected(g, s, root) {
      DetectedStays(g, s, r, root);
    }
    assert Reported(r, CycleKey(CycleAt(s.path, item)));
  }

  lemma EnterKeepsCycles(g: Graph, root: string, s: Search, item: string)
    requires CycleInvariant(g, root, s) && Next(g, root, s, item)
    requires item in g && item !in s.visited && item !in s.visiting
    ensures var e := Enter(s, item);
            && CycleInvariant(g, root, e) && Shape(g, root, e) && e.path != [] && e.path[|e.path| - 1] == item
            && (root in s.visiting || root == item ==> root in e.visiting)
            && g.Keys - e.visiting < g.Keys - s.visiting
            && (forall n :: n in g[item] ==> Next(g, root, e, n))
  {
    var r := Enter(s, item);
    EnterKeepsShape(g, root, s, item);
    assert forall k :: Reported(s, k) ==> Reported(r, k);
    if Detected(g, s, root) {
      DetectedStays(g, s, r, root);
    }
  }

  lemma LeaveKeepsCycles(g: Graph, root: string, s: Search, item: string)
    requires CycleInvariant(g, root, s) && s.path != [] && s.path[|s.path| - 1] == item
    requires forall w :: w in g[item] && w in g ==> w in s.visited + s.visiting
    requires s.cycles == [] ==> forall w :: w in g[item] && w in g ==> w in s.visited
    requires root in g[item] ==> Detected(g, s, root)
    ensures CycleInvariant(g, root, Leave(s, item))
  {
    var r := Leave(s, item);
    LeaveKeepsShape(g, root, s, item);
    if Detected(g, s, root) {
      DetectedStays(g, s, r, root);
    }
    assert CyclesSound(g, r) by {
      assert forall k :: Reported(s, k) ==> Reported(r, k);
    }
    if s.cycles == [] {
      AppendTopological(g, s.result, item);
    }
  }

  lemma AppendTopological(g: Graph, order: seq<string>, item: string)
    requires Topological(g, order) && item in g
    requires forall w :: w in g[item] && w in g ==> w in order
    ensures Topological(g, order + [item])
  {
    var r := order + [item];
    forall i, w | 0 <= i < |r| && r[i] in g && w in g[r[i]] && w in g
      ensures w in r[..i]
    {
      if i < |order| {
        assert r[..i] == order[..i];
      } else {
        assert r[..i] == order;
      }
    }
  }

  lemma {:induction false} TraverseAllCycles(g: Graph, root: string, neighbors: seq<string>, s: Search)
    requires CycleInvariant(g, root, s) && s.path != []
    requires forall n :: n in neighbors ==> Next(g, root, s, n)
    ensures var r := TraverseAll(g, neighbors, s);
            && CycleInvariant(g, root, r)
            && (r.cycles == [] ==> forall n :: n in neighbors && n in g ==> n in r.visited)
            && (root in neighbors && root in s.visiting ==> Detected(g, r, root))
    decreases g.Keys - s.visiting, 1, |neighbors|
  {
    hide CycleInvariant, Detected, Shape, Next;
    CycleShape(g, root, s);
    if neighbors != [] {
      var m := Traverse(g, neighbors[0], s);
      SameNext(g, root, s, m, neighbors);
      TraverseShape(g, root, neighbors[0], s);
      TraverseCycles(g, root, neighbors[0], s);
      TraverseAllShape(g, root, neighbors[1..], m);
      TraverseAllCycles(g, root, neighbors[1..], m);
      HeadOrTail(neighbors);
      var r := TraverseAll(g, neighbors, s);
      if root == neighbors[0] && root in s.visiting {
        DetectedStays(g, m, r, root);
      }
    }
  }

  // Traversing from a node of a cycle detects a cycle through it.
  lemma {:induction false} RootCycleDetected(g: Graph, root: string, s: Search)
    requires root in g && CyclesSound(g, s)
    ensures CyclesSound(g, TraverseFrom(g, root, s))
    ensures TraverseFrom(g, root, s).cycles == [] ==> Topological(g, TraverseFrom(g, root, s).result)
    ensures OnCycle(g, root) ==> Detected(g, TraverseFrom(g, root, s), root)
  {
    var f := Fresh(s);
    TraverseCycles(g, root, root, f);
    if OnCycle(g, root) {
      var y :| y in g && root in g[y] && Reaches(g, root, y);
      SortedDependenciesExact(g, root, s);
      TraverseShape(g, root, root, f);
      assert y in TraverseFrom(g, root, s).visited;
    }
  }

  // ---------- Unknown dependencies ----------

  ghost predicate MissingKnown(s: Search, key: string)
  {
    exists a, b :: a in s.unknowns && b in s.unknowns[a] && UnknownKey(a, b) == key
  }

  ghost predicate UnknownsSound(g: Graph, s: Search)
  {
    && (forall a :: a in s.unknowns ==> s.unknowns[a] != [] && Distinct(s.unknowns[a]))
    && (forall a, b :: a in s.unknowns && b in s.unknowns[a] ==>
          Missing(g, a, b) && UnknownKey(a, b) in s.unknownsSeen)
    && (forall k :: k in s.unknownsSeen ==> MissingKnown(s, k))
    && UnknownKeysDistinct(s.unknowns)
  }

  // No two entries share a key.
  ghost predicate UnknownKeysDistinct(u: Graph)
  {
    forall a, b, c, d :: a in u && b in u[a] && c in u && d in u[c] && UnknownKey(a, b) == UnknownKey(c, d) ==>
      a == c && b == d
  }

  // Whoever is done has had its unknown dependencies noticed.
  ghost predicate MissingNoticed(g: Graph, s: Search)
  {
    forall v, w :: v in s.visited && Missing(g, v, w) ==> UnknownKey(v, w) in s.unknownsSeen
  }

  ghost predicate UnknownInvariant(g: Graph, root: string, s: Search)
  {
    Shape(g, root, s) && UnknownsSound(g, s) && MissingNoticed(g, s)
  }

  lemma AddUnknownSound(g: Graph, s: Search, from: string, to: string)
    requires UnknownsSound(g, s) && Missing(g, from, to)
    requires UnknownKey(from, to) !in s.unknownsSeen
    ensures UnknownsSound(g, s.(unknownsSeen := s.unknownsSeen + {UnknownKey(from, to)},
                                unknowns := AddUnknown(s.unknowns, from, to)))
  {
    var key := UnknownKey(from, to);
    var r := s.(unknownsSeen := s.unknownsSeen + {key}, unknowns := AddUnknown(s.unknowns, from, to));
    assert from in s.unknowns ==> to !in s.unknowns[from];
    forall a, b, c, d | a in r.unknowns && b in r.unknowns[a] && c in r.unknowns && d in r.unknowns[c]
                        && UnknownKey(a, b) == UnknownKey(c, d)
      ensures a == c && b == d
    {
      assert (a == from && b == to) || (a in s.unknowns && b in s.unknowns[a]);
      assert (c == from && d == to) || (c in s.unknowns && d in s.unknowns[c]);
    }
    forall k | k in r.unknownsSeen
      ensures MissingKnown(r, k)
    {
      if k == key {
        assert to in r.unknowns[from];
      } else {
        var a, b :| a in s.unknowns && b in s.unknowns[a] && UnknownKey(a, b) == k;
        assert b in r.unknowns[a];
      }
    }
  }

  lemma SameUnknowns(g: Graph, s: Search, r: Search)
    requires UnknownsSound(g, s) && r.unknowns == s.unknowns && r.unknownsSeen == s.unknownsSeen
    ensures UnknownsSound(g, r)
  {
    forall k | k in r.unknownsSeen
      ensures MissingKnown(r, k)
    {
      var a, b :| a in s.unknowns && b in s.unknowns[a] && UnknownKey(a, b) == k;
    }
  }

  lemma ReportKeepsUnknowns(g: Graph, root: string, s: Search, item: string)
    requires UnknownInvariant(g, root, s) && Next(g, root, s, item) && item !in g && s.path != []
    requires Shape(g, root, ReportUnknown(s, item))
    ensures UnknownInvariant(g, root, ReportUnknown(s, item))
    ensures UnknownKey(s.path[|s.path| - 1], item) in ReportUnknown(s, item).unknownsSeen
  {
    var from := s.path[|s.path| - 1];
    if UnknownKey(from, item) !in s.unknownsSeen {
      AddUnknownSound(g, s, from, item);
    }
  }

  lemma EnterKeepsUnknowns(g: Graph, root: string, s: Search, item: string)
    requires UnknownInvariant(g, root, s) && Next(g, root, s, item)
    requires item in g && item !in s.visited && item !in s.visiting
    ensures var e := Enter(s, item);
            && UnknownInvariant(g, root, e) && e.path != [] && e.path[|e.path| - 1] == item
            && g.Keys - e.visiting < g.Keys - s.visiting
            && (forall n :: n in g[item] ==> Next(g, root, e, n))
  {
    EnterKeepsShape(g, root, s, item);
    SameUnknowns(g, s, Enter(s, item));
  }

  lemma LeaveKeepsUnknowns(g: Graph, root: string, s: Search, item: string)
    requires UnknownInvariant(g, root, s) && s.path != [] && item in g
    requires forall n :: Missing(g, item, n) ==> UnknownKey(item, n) in s.unknownsSeen
    requires Shape(g, root, Leave(s, item))
    ensures UnknownInvariant(g, root, Leave(s, item))
  {
    SameUnknowns(g, s, Leave(s, item));
  }

  lemma CycleKeepsUnknowns(g: Graph, root: string, s: Search, item: string)
    requires UnknownInvariant(g, root, s) && item in s.path
    requires Shape(g, root, ReportCycle(s, item))
    ensures UnknownInvariant(g, root, ReportCycle(s, item))
  {
    SameUnknowns(g, s, ReportCycle(s, item));
  }

  lemma UnknownShape(g: Graph, root: string, s: Search)
    requires UnknownInvariant(g, root, s)
    ensures Shape(g, root, s) && VisitingIsPath(s) && s.visited !! s.visiting
  {
  }

  lemma {:induction false} TraverseUnknowns(g: Graph, root: string, item: string, s: Search)
    requires UnknownInvariant(g, root, s) && Next(g, root, s, item)
    ensures var r := Traverse(g, item, s);
            && UnknownInvariant(g, root, r)
            && (s.path != [] && Missing(g, s.path[|s.path| - 1], item) ==>
                 UnknownKey(s.path[|s.path| - 1], item) in r.unknownsSeen)
    decreases g.Keys - s.visiting, 0, 0
  {
    hide UnknownInvariant, Shape, Next, ReportUnknown, ReportCycle, UnknownKey;
    UnknownShape(g, root, s);
    ShapeBasics(g, root, s, item);
    TraverseShape(g, root, item, s);
    if item !in g {
      ReportKeepsUnknowns(g, root, s, item);
    } else if item in s.visited {
    } else if item in s.visiting {
      CycleKeepsUnknowns(g, root, s, item);
    } else {
      var e := Enter(s, item);
      EnterKeepsUnknowns(g, root, s, item);
      TraverseAllUnknowns(g, root, g[item], e);
      LeaveKeepsUnknowns(g, root, TraverseAll(g, g[item], e), item);
    }
  }

  lemma {:induction false} TraverseAllUnknowns(g: Graph, root: string, neighbors: seq<string>, s: Search)
    requires UnknownInvariant(g, root, s) && s.path != []
    requires forall n :: n in neighbors ==> Next(g, root, s, n)
    ensures var r := TraverseAll(g, neighbors, s);
            && UnknownInvariant(g, root, r)
            && (forall n :: n in neighbors && Missing(g, s.path[|s.path| - 1], n) ==>
                  UnknownKey(s.path[|s.path| - 1], n) in r.unknownsSeen)
    decreases g.Keys - s.visiting, 1, |neighbors|
  {
    hide UnknownInvariant, Shape, Next, UnknownKey;
    UnknownShape(g, root, s);
    if neighbors != [] {
      var m := Traverse(g, neighbors[0], s);
      SameNext(g, root, s, m, neighbors);
      TraverseShape(g, root, neighbors[0], s);
      TraverseUnknowns(g, root, neighbors[0], s);
      TraverseAllShape(g, root, neighbors[1..], m);
      TraverseAllUnknowns(g, root, neighbors[1..], m);
      HeadOrTail(neighbors);
    }
  }

  lemma {:induction false} RootUnknownsNoticed(g: Graph, root: string, s: Search)
    requires root in g && UnknownsSound(g, s)
    ensures var r := TraverseFrom(g, root, s);
            && UnknownsSound(g, r)
            && (forall w :: Missing(g, root, w) ==> UnknownKey(root, w) in r.unknownsSeen)
  {
    var f := Fresh(s);
    SameUnknowns(g, s, f);
    TraverseUnknowns(g, root, root, f);
    TraverseShape(g, root, root, f);
  }

  // ---------- Error keys ----------

  ghost predicate NoCloseParen(name: string)
  {
    ')' !in name
  }

  lemma KeyPrefix(a: string, s: string, b: string, t: string)
    requires NoCloseParen(a) && NoCloseParen(b)
    requires "(" + a + ")" + s == "(" + b + ")" + t
    ensures a == b && s == t
  {
    var x := "(" + a + ")" + s;
    assert x[|a| + 1] == ')' && x[|b| + 1] == ')';
    assert forall i :: 0 <= i < |a| ==> x[i + 1] == a[i] != ')';
    assert forall i :: 0 <= i < |b| ==> x[i + 1] == b[i] != ')';
    assert |a| == |b|;
    assert a == x[1..|a| + 1] && b == x[1..|b| + 1];
    assert s == x[|a| + 2..] && t == x[|b| + 2..];
  }

  lemma UnknownKeyInjective(a: string, x: string, b: string, y: string)
    requires NoCloseParen(a) && NoCloseParen(b)
    requires UnknownKey(a, x) == UnknownKey(b, y)
    ensures a == b && x == y
  {
    var s, t := " -> (" + x + ")", " -> (" + y + ")";
    assert UnknownKey(a, x) == "(" + a + ")" + s;
    assert UnknownKey(b, y) == "(" + b + ")" + t;
    KeyPrefix(a, s, b, t);
    assert x == s[5..|s| - 1] && y == t[5..|t| - 1];
  }

  lemma {:induction false} CycleKeyInjective(c: seq<string>, d: seq<string>)
    requires forall x :: x in c || x in d ==> NoCloseParen(x)
    requires CycleKey(c) == CycleKey(d)
    ensures c == d
  {
    assert c != [] ==> |CycleKey(c)| > 0;
    assert d != [] ==> |CycleKey(d)| > 0;
    if c != [] && d != [] {
      var s, t := " -> " + CycleKey(c[1..]), " -> " + CycleKey(d[1..]);
      assert CycleKey(c) == "(" + c[0] + ")" + s;
      assert CycleKey(d) == "(" + d[0] + ")" + t;
      KeyPrefix(c[0], s, d[0], t);
      assert CycleKey(c[1..]) == s[4..] && CycleKey(d[1..]) == t[4..];
      CycleKeyInjective(c[1..], d[1..]);
      assert c == [c[0]] + c[1..] && d == [d[0]] + d[1..];
    }
  }
}
