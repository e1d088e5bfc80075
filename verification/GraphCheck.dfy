// What DependencyGraph::check concludes from its traversals.
module GraphCheck {
  import opened Names
  import opened Traversal

  // addItem and addDependency refuse the empty name, so it is free for the synthetic root.
  ghost predicate Named(g: Graph)
  {
    "" !in g && forall a, b :: Edge(g, a, b) ==> b != ""
  }

  // The graph with the synthetic root, which depends on every item.
  ghost function Rooted(g: Graph): Graph
  {
    g["" := SortedKeys(g.Keys)]
  }

  // topologicalSort: one traversal per node, errors accumulating across them.
  ghost function SortAll(g: Graph, keys: seq<string>, s: Search, sorted: Graph): (Search, Graph)
    requires forall k :: k in keys ==> k in g
  {
    if keys == [] then (s, sorted)
    else
      assert keys[0] in keys;
      var r := TraverseFrom(g, keys[0], s);
      SortAll(g, keys[1..], r, sorted[keys[0] := r.result])
  }

  ghost function Start(unknowns: Graph, cycles: seq<seq<string>>): Search
  {
    Search({}, {}, [], [], {}, {}, unknowns, cycles)
  }

  // The traversals of a check, given the errors and lists already recorded.
  ghost function Traversals(g: Graph, s: Search, sorted: Graph): (Search, Graph)
  {
    SortAll(Rooted(g), SortedKeys(Rooted(g).Keys), s, sorted)
  }

  // A check of a graph with no errors on record.
  ghost function FirstCheck(g: Graph): (Search, Graph)
  {
    Traversals(g, Start(map[], []), map[])
  }

  // in_order: the list of the synthetic root without the root itself.
  ghost function RootList(lists: Graph): seq<string>
  {
    if "" in lists && lists[""] != [] then lists[""][..|lists[""]| - 1] else []
  }

  ghost function InOrder(g: Graph): seq<string>
  {
    RootList(FirstCheck(g).1)
  }

  // The lists built for a node: exactly the known nodes it reaches, itself last.
  ghost predicate SortedFor(g: Graph, root: string, order: seq<string>)
  {
    && Distinct(order)
    && (forall x :: x in order <==> Reaches(g, root, x))
    && |order| > 0 && order[|order| - 1] == root
  }

  lemma {:induction false} TraverseFromGrows(g: Graph, root: string, s: Search)
    requires root in g
    ensures var r := TraverseFrom(g, root, s);
            && s.unknownsSeen <= r.unknownsSeen && s.cyclesSeen <= r.cyclesSeen
            && s.cycles <= r.cycles && s.unknowns.Keys <= r.unknowns.Keys
  {
    TraverseShape(g, root, root, Fresh(s));
  }

  lemma {:induction false} SortAllGrows(g: Graph, keys: seq<string>, s: Search, sorted: Graph)
    requires forall k :: k in keys ==> k in g
    ensures var (r, lists) := SortAll(g, keys, s, sorted);
            && s.unknownsSeen <= r.unknownsSeen && s.cyclesSeen <= r.cyclesSeen
            && s.cycles <= r.cycles && s.unknowns.Keys <= r.unknowns.Keys
            && (forall k :: k !in keys && k in sorted ==> k in lists && lists[k] == sorted[k])
  {
    if keys != [] {
      assert keys[0] in keys;
      TraverseFromGrows(g, keys[0], s);
      var r := TraverseFrom(g, keys[0], s);
      SortAllGrows(g, keys[1..], r, sorted[keys[0] := r.result]);
    }
  }

  lemma {:induction false} SortAllExact(g: Graph, keys: seq<string>, s: Search, sorted: Graph)
    requires forall k :: k in keys ==> k in g
    ensures var (r, lists) := SortAll(g, keys, s, sorted);
            && lists.Keys == sorted.Keys + (set k | k in keys)
            && (forall k :: k in keys ==> SortedFor(g, k, lists[k]))
  {
    if keys != [] {
      assert keys[0] in keys;
      var r := TraverseFrom(g, keys[0], s);
      SortedDependenciesExact(g, keys[0], s);
      SortAllExact(g, keys[1..], r, sorted[keys[0] := r.result]);
      SortAllGrows(g, keys[1..], r, sorted[keys[0] := r.result]);
      var lists := SortAll(g, keys, s, sorted).1;
      forall k | k in keys
        ensures k in lists && SortedFor(g, k, lists[k])
      {
        if k !in keys[1..] {
          assert k == keys[0];
        }
      }
    }
  }

  lemma {:induction false} SortAllSound(g: Graph, keys: seq<string>, s: Search, sorted: Graph)
    requires forall k :: k in keys ==> k in g
    requires CyclesSound(g, s) && UnknownsSound(g, s)
    ensures var r := SortAll(g, keys, s, sorted).0;
            CyclesSound(g, r) && UnknownsSound(g, r)
  {
    if keys != [] {
      assert keys[0] in keys;
      var m := TraverseFrom(g, keys[0], s);
      RootCycleDetected(g, keys[0], s);
      RootUnknownsNoticed(g, keys[0], s);
      SortAllSound(g, keys[1..], m, sorted[keys[0] := m.result]);
    }
  }

  // The lists recorded before a check do not influence it.
  lemma {:induction false} SortAllFrame(g: Graph, keys: seq<string>, s: Search, sorted: Graph, other: Graph)
    requires forall k :: k in keys ==> k in g
    requires forall k :: k in sorted || k in other ==>
               k in keys || (k in sorted && k in other && sorted[k] == other[k])
    ensures SortAll(g, keys, s, sorted) == SortAll(g, keys, s, other)
  {
    if keys == [] {
      assert sorted == other;
    } else {
      assert keys[0] in keys;
      var m := TraverseFrom(g, keys[0], s);
      SortAllFrame(g, keys[1..], m, sorted[keys[0] := m.result], other[keys[0] := m.result]);
    }
  }

  // A check of a graph that was checked before, still without errors on record, ends
  // as a check of a newly built graph would.
  lemma RecheckIsFirstCheck(g: Graph, sorted: Graph)
    requires sorted.Keys <= g.Keys
    ensures Traversals(g, Start(map[], []), sorted) == FirstCheck(g)
  {
    var keys := SortedKeys(Rooted(g).Keys);
    forall k | k in sorted
      ensures k in keys
    {
      assert k in Rooted(g).Keys;
    }
    SortAllFrame(Rooted(g), keys, Start(map[], []), sorted, map[]);
  }

  lemma SortAllStep(g: Graph, keys: seq<string>, i: nat, s: Search, sorted: Graph)
    requires i < |keys| && (forall k :: k in keys[i..] ==> k in g)
    ensures keys[i] in g && (forall k :: k in keys[i + 1..] ==> k in g)
    ensures var m := TraverseFrom(g, keys[i], s);
            SortAll(g, keys[i..], s, sorted) == SortAll(g, keys[i + 1..], m, sorted[keys[i] := m.result])
  {
    assert keys[i..][0] == keys[i] && keys[i] in keys[i..];
    assert keys[i..][1..] == keys[i + 1..];
  }

  // Errors on record are never dropped, so such a graph stays bad whatever is added to it.
  lemma StaleErrorsPersist(g: Graph, unknowns: Graph, cycles: seq<seq<string>>, sorted: Graph)
    requires unknowns != map[] || cycles != []
    ensures var r := Traversals(g, Start(unknowns, cycles), sorted).0;
            r.unknowns != map[] || r.cycles != []
  {
    SortAllGrows(Rooted(g), SortedKeys(Rooted(g).Keys), Start(unknowns, cycles), sorted);
    if a :| a in unknowns {
      assert a in Traversals(g, Start(unknowns, cycles), sorted).0.unknowns.Keys;
    }
  }

  // The root's list is there whatever errors were on record.
  lemma RootSorted(g: Graph, s: Search, sorted: Graph)
    ensures var lists := Traversals(g, s, sorted).1; "" in lists && SortedFor(Rooted(g), "", lists[""])
  {
    var keys := SortedKeys(Rooted(g).Keys);
    assert "" in keys;
    SortAllExact(Rooted(g), keys, s, sorted);
  }

  lemma TraversalsKeys(g: Graph, s: Search, sorted: Graph)
    requires sorted.Keys <= g.Keys
    ensures Traversals(g, s, sorted).1.Keys == g.Keys + {""}
  {
    var keys := SortedKeys(Rooted(g).Keys);
    SortAllExact(Rooted(g), keys, s, sorted);
    assert (set k | k in keys) == Rooted(g).Keys;
  }

  lemma RootListDistinct(g: Graph, s: Search, sorted: Graph)
    requires Named(g)
    ensures Distinct(RootList(Traversals(g, s, sorted).1))
  {
    RootSorted(g, s, sorted);
    RootListExact(g, Traversals(g, s, sorted).1[""]);
  }

  // What a node's own traversal contributes to the verdict.
  ghost predicate Settled(g: Graph, r: Search, lists: Graph, k: string)
  {
    && k in g && k in lists
    && (OnCycle(g, k) ==> Detected(g, r, k))
    && (forall w :: Missing(g, k, w) ==> UnknownKey(k, w) in r.unknownsSeen)
    && (r.cycles == [] ==> Topological(g, lists[k]))
  }

  lemma {:induction false} TraverseFromSettles(g: Graph, k: string, s: Search, lists: Graph)
    requires k in g && CyclesSound(g, s) && UnknownsSound(g, s)
    requires k in lists && lists[k] == TraverseFrom(g, k, s).result
    ensures Settled(g, TraverseFrom(g, k, s), lists, k)
  {
    RootCycleDetected(g, k, s);
    RootUnknownsNoticed(g, k, s);
  }

  lemma SettledStays(g: Graph, m: Search, r: Search, lists: Graph, k: string)
    requires Settled(g, m, lists, k)
    requires m.unknownsSeen <= r.unknownsSeen && m.cyclesSeen <= r.cyclesSeen && m.cycles <= r.cycles
    ensures Settled(g, r, lists, k)
  {
    if OnCycle(g, k) {
      DetectedStays(g, m, r, k);
    }
  }

  lemma {:induction false} SortAllSettles(g: Graph, keys: seq<string>, s: Search, sorted: Graph, k: string)
    requires forall k :: k in keys ==> k in g
    requires CyclesSound(g, s) && UnknownsSound(g, s) && k in keys
    ensures var (r, lists) := SortAll(g, keys, s, sorted); Settled(g, r, lists, k)
  {
    assert keys[0] in keys;
    var m := TraverseFrom(g, keys[0], s);
    var next := sorted[keys[0] := m.result];
    if k in keys[1..] {
      RootCycleDetected(g, keys[0], s);
      RootUnknownsNoticed(g, keys[0], s);
      SortAllSettles(g, keys[1..], m, next, k);
    } else {
      SortAllGrows(g, keys[1..], m, next);
      var (r, lists) := SortAll(g, keys, s, sorted);
      TraverseFromSettles(g, k, s, lists);
      SettledStays(g, m, r, lists, k);
    }
  }

  // ---------- The synthetic root changes nothing ----------

  lemma RootedWalk(g: Graph, p: seq<string>, a: string, b: string)
    requires Named(g) && a != ""
    ensures Walk(Rooted(g), p, a, b) <==> Walk(g, p, a, b)
  {
    var r := Rooted(g);
    if Walk(r, p, a, b) {
      WalkAvoidsRoot(g, p, a, b);
    }
  }

  lemma {:induction false} WalkAvoidsRoot(g: Graph, p: seq<string>, a: string, b: string)
    requires Named(g) && a != "" && Walk(Rooted(g), p, a, b)
    ensures forall i :: 0 <= i < |p| ==> p[i] != ""
  {
    if |p| > 1 {
      assert p[1] in Rooted(g)[p[0]];
      assert Edge(g, p[0], p[1]);
      ChainTail(Rooted(g), p);
      assert Walk(Rooted(g), p[1..], p[1], b);
      WalkAvoidsRoot(g, p[1..], p[1], b);
      assert forall i :: 1 <= i < |p| ==> p[i] == p[1..][i - 1];
    }
  }

  lemma RootedReaches(g: Graph, a: string, b: string)
    requires Named(g) && a != ""
    ensures Reaches(Rooted(g), a, b) <==> Reaches(g, a, b)
  {
    if Reaches(Rooted(g), a, b) {
      var p :| Walk(Rooted(g), p, a, b);
      RootedWalk(g, p, a, b);
    }
    if Reaches(g, a, b) {
      var p :| Walk(g, p, a, b);
      RootedWalk(g, p, a, b);
    }
  }

  lemma RootedOnCycle(g: Graph, x: string)
    requires Named(g) && OnCycle(g, x) && x in g
    ensures OnCycle(Rooted(g), x)
  {
    var y :| y in g && x in g[y] && Reaches(g, x, y);
    RootedReaches(g, x, y);
    assert y in Rooted(g) && x in Rooted(g)[y];
  }

  lemma RootedCanonical(g: Graph, c: seq<string>)
    requires Named(g) && CanonicalCycle(Rooted(g), c)
    ensures CanonicalCycle(g, c)
  {
    var r := Rooted(g);
    forall i | 0 <= i < |c|
      ensures c[i] != ""
    {
      var before := if i == 0 then c[|c| - 1] else c[i - 1];
      assert c[i] in r[before];
      if before == "" {
        assert c[i] in g;
      } else {
        assert Edge(g, before, c[i]);
      }
    }
  }

  lemma CanonicalMembersOnCycle(g: Graph, c: seq<string>, k: nat)
    requires CanonicalCycle(g, c) && k < |c|
    ensures OnCycle(g, c[k])
  {
    var r := c[k..] + c[..k];
    RotationIsClosed(g, c, k);
    assert Walk(g, r, c[k], r[|r| - 1]);
  }

  lemma FirstCheckSound(g: Graph)
    ensures CyclesSound(Rooted(g), FirstCheck(g).0)
    ensures UnknownsSound(Rooted(g), FirstCheck(g).0)
  {
    SortAllSound(Rooted(g), SortedKeys(Rooted(g).Keys), Start(map[], []), map[]);
  }

  lemma FirstCheckSettles(g: Graph, k: string)
    requires k in g || k == ""
    ensures Settled(Rooted(g), FirstCheck(g).0, FirstCheck(g).1, k)
  {
    SortAllSettles(Rooted(g), SortedKeys(Rooted(g).Keys), Start(map[], []), map[], k);
  }

  lemma FirstCheckLists(g: Graph, k: string)
    requires k in g || k == ""
    ensures k in FirstCheck(g).1
    ensures SortedFor(Rooted(g), k, FirstCheck(g).1[k])
  {
    SortAllExact(Rooted(g), SortedKeys(Rooted(g).Keys), Start(map[], []), map[]);
    assert k in SortedKeys(Rooted(g).Keys);
  }

  lemma RootedMissing(g: Graph, a: string, b: string)
    requires Named(g)
    ensures Missing(Rooted(g), a, b) <==> Missing(g, a, b)
  {
    assert b in Rooted(g)[""] ==> b in g;
    assert Edge(g, a, b) ==> b != "";
  }

  lemma RootedUnknown(g: Graph, r: Search, a: string)
    requires Named(g) && UnknownsSound(Rooted(g), r) && a in r.unknowns
    ensures r.unknowns[a] != [] && Distinct(r.unknowns[a])
    ensures forall b :: b in r.unknowns[a] ==> Missing(g, a, b)
  {
    forall b | b in r.unknowns[a]
      ensures Missing(g, a, b)
    {
      RootedMissing(g, a, b);
    }
  }

  // A recorded error points at an unknown dependency or a cycle of the caller's graph.
  lemma ErrorsAreReal(g: Graph, r: Search)
    requires Named(g) && CyclesSound(Rooted(g), r) && UnknownsSound(Rooted(g), r)
    ensures r.unknowns != map[] ==> !NoUnknowns(g)
    ensures r.cycles != [] ==> !Acyclic(g)
  {
    if r.cycles != [] {
      RootedCanonical(g, r.cycles[0]);
      CanonicalMembersOnCycle(g, r.cycles[0], 0);
    }
    if a :| a in r.unknowns {
      RootedUnknown(g, r, a);
      assert r.unknowns[a][0] in r.unknowns[a];
    }
  }

  lemma UnknownIsRecorded(g: Graph, a: string, b: string)
    requires Named(g) && Missing(g, a, b)
    ensures MissingKnown(FirstCheck(g).0, UnknownKey(a, b))
  {
    FirstCheckSound(g);
    FirstCheckSettles(g, a);
    RootedMissing(g, a, b);
  }

  lemma CycleIsRecorded(g: Graph, x: string)
    requires Named(g) && x in g && OnCycle(g, x)
    ensures exists c :: CanonicalCycle(Rooted(g), c) && x in c && Reported(FirstCheck(g).0, CycleKey(c))
  {
    FirstCheckSound(g);
    FirstCheckSettles(g, x);
    RootedOnCycle(g, x);
    var r := FirstCheck(g).0;
    assert Detected(Rooted(g), r, x);
    var c :| CanonicalCycle(Rooted(g), c) && x in c && CycleKey(c) in r.cyclesSeen;
    assert Reported(r, CycleKey(c));
  }

  // ---------- Results about the caller's graph ----------

  // No errors are recorded exactly when there is no unknown dependency and no cycle.
  lemma VerdictExact(g: Graph)
    requires Named(g)
    ensures FirstCheck(g).0.unknowns == map[] <==> NoUnknowns(g)
    ensures FirstCheck(g).0.cycles == [] <==> Acyclic(g)
  {
    FirstCheckSound(g);
    ErrorsAreReal(g, FirstCheck(g).0);
    if a, b :| Missing(g, a, b) {
      UnknownIsRecorded(g, a, b);
    }
    if x :| x in g && OnCycle(g, x) {
      CycleIsRecorded(g, x);
    }
  }

  // sorted_dependencies: for every node, erroneous graphs included.
  lemma SortedDependencies(g: Graph, x: string)
    requires Named(g) && x in g
    ensures x in FirstCheck(g).1 && SortedFor(g, x, FirstCheck(g).1[x])
    ensures NoUnknowns(g) && Acyclic(g) ==> Topological(g, FirstCheck(g).1[x])
  {
    FirstCheckLists(g, x);
    var lists := FirstCheck(g).1;
    forall y
      ensures y in lists[x] <==> Reaches(g, x, y)
    {
      RootedReaches(g, x, y);
    }
    if NoUnknowns(g) && Acyclic(g) {
      VerdictExact(g);
      FirstCheckSettles(g, x);
      RootedTopological(g, lists[x]);
    }
  }

  lemma RootedTopological(g: Graph, order: seq<string>)
    requires Named(g) && Topological(Rooted(g), order)
    ensures Topological(g, order)
  {
    forall i, w | 0 <= i < |order| && order[i] in g && w in g[order[i]] && w in g
      ensures w in order[..i]
    {
      assert order[i] in Rooted(g) && w in Rooted(g)[order[i]] && w in Rooted(g);
    }
  }

  // in_order: every item once, and on a good graph after everything it depends on.
  lemma InOrderExact(g: Graph)
    requires Named(g)
    ensures Distinct(InOrder(g))
    ensures forall x :: x in InOrder(g) <==> x in g
    ensures "" in FirstCheck(g).1 && FirstCheck(g).1[""] == InOrder(g) + [""]
    ensures NoUnknowns(g) && Acyclic(g) ==> Topological(g, InOrder(g))
  {
    FirstCheckLists(g, "");
    var full := FirstCheck(g).1[""];
    RootListExact(g, full);
    if NoUnknowns(g) && Acyclic(g) {
      VerdictExact(g);
      FirstCheckSettles(g, "");
      RootedTopological(g, full);
      TopologicalPrefix(g, full, InOrder(g));
    }
  }

  lemma RootListExact(g: Graph, full: seq<string>)
    requires Named(g) && SortedFor(Rooted(g), "", full)
    ensures var order := full[..|full| - 1];
            full == order + [""] && Distinct(order) && (forall x :: x in order <==> x in g)
  {
    var order := full[..|full| - 1];
    forall x
      ensures x in order <==> x in g
    {
      if x in g {
        RootReachesAll(g, x);
        assert x in full;
      }
      if x in order {
        var i :| 0 <= i < |order| && order[i] == x;
        assert full[i] == x && full[|order|] == "";
        assert x in full;
      }
    }
  }

  lemma RootReachesAll(g: Graph, x: string)
    requires x in g
    ensures Reaches(Rooted(g), "", x)
  {
    var root := Rooted(g);
    ReachesSelf(root, "");
    assert x in root[""];
    ExtendWalk(root, "", "", x);
  }

  lemma TopologicalPrefix(g: Graph, full: seq<string>, order: seq<string>)
    requires Topological(g, full) && order <= full
    ensures Topological(g, order)
  {
    forall i, w | 0 <= i < |order| && order[i] in g && w in g[order[i]] && w in g
      ensures w in order[..i]
    {
      assert full[..i] == order[..i];
    }
  }

  // Every report is a canonical cycle of the graph, and no two reports are equal.
  lemma CycleReportsSound(g: Graph)
    requires Named(g)
    ensures forall c :: c in FirstCheck(g).0.cycles ==> CanonicalCycle(g, c)
    ensures Distinct(FirstCheck(g).0.cycles)
  {
    FirstCheckSound(g);
    var r := FirstCheck(g).0;
    forall c | c in r.cycles
      ensures CanonicalCycle(g, c)
    {
      RootedCanonical(g, c);
    }
    forall i, j | 0 <= i < j < |r.cycles|
      ensures r.cycles[i] != r.cycles[j]
    {
      assert CycleKey(r.cycles[i]) != CycleKey(r.cycles[j]);
    }
  }

  // unknowns: every entry is a missing dependency, listed once.
  lemma UnknownReportsSound(g: Graph, a: string)
    requires Named(g) && a in FirstCheck(g).0.unknowns
    ensures var u := FirstCheck(g).0.unknowns;
            u[a] != [] && Distinct(u[a]) && (forall b :: b in u[a] ==> Missing(g, a, b))
  {
    FirstCheckSound(g);
    RootedUnknown(g, FirstCheck(g).0, a);
  }

  // ---------- Which errors are reported: a report is suppressed when its key was seen ----------

  // Every missing dependency is reported.
  ghost predicate UnknownsComplete(g: Graph)
  {
    forall a, b :: Missing(g, a, b) ==> a in FirstCheck(g).0.unknowns && b in FirstCheck(g).0.unknowns[a]
  }

  // No two missing dependencies share a key.
  ghost predicate UnknownKeysApart(g: Graph)
  {
    forall a, b, c, d :: Missing(g, a, b) && Missing(g, c, d) && UnknownKey(a, b) == UnknownKey(c, d) ==>
      a == c && b == d
  }

  lemma UnknownReportsExact(g: Graph)
    requires Named(g)
    ensures UnknownsComplete(g) <==> UnknownKeysApart(g)
  {
    hide FirstCheck, Missing, UnknownKey, CyclesSound;
    FirstCheckSound(g);
    var u := FirstCheck(g).0.unknowns;
    if UnknownKeysApart(g) {
      forall a, b | Missing(g, a, b)
        ensures a in u && b in u[a]
      {
        UnknownIsRecorded(g, a, b);
        var x, y :| x in u && y in u[x] && UnknownKey(x, y) == UnknownKey(a, b);
        UnknownReportsSound(g, x);
      }
    }
  }

  // It is so whenever item names have no closing parenthesis.
  lemma UnknownReportsComplete(g: Graph, a: string, b: string)
    requires Named(g) && Missing(g, a, b)
    requires forall k :: k in g ==> NoCloseParen(k)
    ensures var u := FirstCheck(g).0.unknowns; a in u && b in u[a]
  {
    hide FirstCheck, UnknownKey;
    forall a, b, c, d | Missing(g, a, b) && Missing(g, c, d) && UnknownKey(a, b) == UnknownKey(c, d)
      ensures a == c && b == d
    {
      UnknownKeyInjective(a, b, c, d);
    }
    UnknownReportsExact(g);
  }

  // Every node that lies on any cycle appears in some report.
  ghost predicate CyclesComplete(g: Graph)
  {
    forall x :: x in g && OnCycle(g, x) ==> CycleReported(g, x)
  }

  ghost predicate CycleReported(g: Graph, x: string)
  {
    exists c :: c in FirstCheck(g).0.cycles && x in c
  }

  // Whatever shares its key with a cycle through x passes through x, too.
  ghost predicate KeysLeadTo(g: Graph, x: string)
  {
    forall c, d :: CanonicalCycle(g, c) && CanonicalCycle(g, d) && CycleKey(c) == CycleKey(d) && x in c ==> x in d
  }

  // No two cycles share a key.
  ghost predicate CycleKeysApart(g: Graph)
  {
    forall c, d :: CanonicalCycle(g, c) && CanonicalCycle(g, d) && CycleKey(c) == CycleKey(d) ==> c == d
  }

  // No two cycles share a node.
  ghost predicate CyclesDisjoint(g: Graph)
  {
    forall c, d, x :: CanonicalCycle(g, c) && CanonicalCycle(g, d) && x in c && x in d ==> c == d
  }

  lemma CycleIsReported(g: Graph, x: string)
    requires Named(g) && x in g && OnCycle(g, x) && KeysLeadTo(g, x)
    ensures CycleReported(g, x)
  {
    hide CycleKey, CanonicalCycle, FirstCheck, Named, OnCycle;
    FirstCheckSound(g);
    CycleIsRecorded(g, x);
    var r := FirstCheck(g).0;
    var c :| CanonicalCycle(Rooted(g), c) && x in c && Reported(r, CycleKey(c));
    var d :| d in r.cycles && CycleKey(d) == CycleKey(c);
    RootedCanonical(g, c);
    RootedCanonical(g, d);
  }

  // Different keys are enough for the reports to be complete, and where no two cycles
  // share a node they are needed, too.
  lemma CycleReportsExact(g: Graph)
    requires Named(g)
    ensures CycleKeysApart(g) ==> CyclesComplete(g)
    ensures CyclesDisjoint(g) && CyclesComplete(g) ==> CycleKeysApart(g)
  {
    hide CycleKey, CanonicalCycle, OnCycle, FirstCheck, Named;
    if CycleKeysApart(g) {
      forall x | x in g && OnCycle(g, x)
        ensures CycleReported(g, x)
      {
        CycleIsReported(g, x);
      }
    }
    if CyclesDisjoint(g) && CyclesComplete(g) {
      forall c, d | CanonicalCycle(g, c) && CanonicalCycle(g, d) && CycleKey(c) == CycleKey(d)
        ensures c == d
      {
        OnlyCycleIsReport(g, c);
        OnlyCycleIsReport(g, d);
        FirstCheckSound(g);
        OneReportPerKey(Rooted(g), FirstCheck(g).0, c, d);
      }
    }
  }

  lemma OnlyCycleIsReport(g: Graph, c: seq<string>)
    requires Named(g) && CyclesDisjoint(g) && CyclesComplete(g) && CanonicalCycle(g, c)
    ensures c in FirstCheck(g).0.cycles
  {
    hide CycleKey, OnCycle, FirstCheck, Named;
    CanonicalMembersOnCycle(g, c, 0);
    assert CycleReported(g, c[0]);
    var d :| d in FirstCheck(g).0.cycles && c[0] in d;
    CycleReportsSound(g);
    assert c[0] in c;
  }

  lemma OneReportPerKey(g: Graph, r: Search, c: seq<string>, d: seq<string>)
    requires CyclesSound(g, r) && c in r.cycles && d in r.cycles && CycleKey(c) == CycleKey(d)
    ensures c == d
  {
    var i :| 0 <= i < |r.cycles| && r.cycles[i] == c;
    var j :| 0 <= j < |r.cycles| && r.cycles[j] == d;
  }

  // Names without closing parentheses keep the keys of cycles apart.
  lemma CycleReportsComplete(g: Graph, x: string)
    requires Named(g) && x in g && OnCycle(g, x)
    requires forall k :: k in g ==> NoCloseParen(k)
    ensures exists c :: c in FirstCheck(g).0.cycles && x in c
  {
    hide CycleKey, OnCycle, FirstCheck, Named, NoCloseParen;
    forall c, d | CanonicalCycle(g, c) && CanonicalCycle(g, d) && CycleKey(c) == CycleKey(d)
      ensures c == d
    {
      CycleKeyInjective(c, d);
    }
    CycleReportsExact(g);
    assert CycleReported(g, x);
  }

  // ---------- Names with parentheses ----------

  // The key of an error does not determine the error.
  lemma CycleKeysCollide(a: string, b: string)
    ensures CycleKey([a, b]) == CycleKey([a + ") -> (" + b])
  {
    KeyOfTwo(a, b);
    KeyOfOne(a + ") -> (" + b);
    assert "(" + (a + ") -> (" + b) + ") -> " == "(" + a + ") -> (" + b + ") -> ";
  }

  lemma UnknownKeysCollide(a: string, b: string, c: string)
    ensures UnknownKey(a, b + ") -> (" + c) == UnknownKey(a + ") -> (" + b, c)
  {
    assert "(" + a + ") -> (" + (b + ") -> (" + c) + ")" == "(" + (a + ") -> (" + b) + ") -> (" + c + ")";
  }

  lemma KeyOfOne(x: string)
    ensures CycleKey([x]) == "(" + x + ") -> "
  {
    assert [x][1..] == [];
  }

  lemma KeyOfTwo(x: string, y: string)
    ensures CycleKey([x, y]) == "(" + x + ") -> (" + y + ") -> "
  {
    KeyOfOne(y);
    assert [x, y][1..] == [y];
    assert ") -> (" == ") -> " + "(";
  }

  lemma KeysCollide()
    ensures CycleKey(["a", "b"]) == CycleKey(["a) -> (b"])
    ensures UnknownKey("a", "b) -> (c") == UnknownKey("a) -> (b", "c")
  {
    hide CycleKey, UnknownKey;
    assert "a" + ") -> (" + "b" == "a) -> (b" && "b" + ") -> (" + "c" == "b) -> (c";
    CycleKeysCollide("a", "b");
    UnknownKeysCollide("a", "b", "c");
  }

  ghost const TANGLED: Graph := map["a" := ["b"], "b" := ["a"], "a) -> (b" := ["a) -> (b"]]

  lemma CyclesOfTangled(c: seq<string>)
    requires CanonicalCycle(TANGLED, c)
    ensures "a) -> (b" in c ==> c == ["a) -> (b"]
    ensures "a" in c ==> c == ["a", "b"]
  {
    var x := "a) -> (b";
    assert |x| == 8;
    var n := |c|;
    assert !Less("b", "a") && !Less(x, "a") by {
      assert x[0] == 'a' && !Less(x[1..], "");
    }
    if i :| 0 <= i < n && c[i] == x {
      var next := if i + 1 < n then i + 1 else 0;
      assert c[next] in TANGLED[c[i]];
      assert c[next] == x;
    }
    if i :| 0 <= i < n && c[i] == "a" {
      assert c[0] == "a";
      assert n > 1;
      assert c[1] in TANGLED[c[0]];
      assert c[1] == "b";
      assert n == 2;
    }
  }

  lemma TangledHasCycles()
    ensures Named(TANGLED)
    ensures OnCycle(TANGLED, "a") && OnCycle(TANGLED, "a) -> (b")
  {
    var x := "a) -> (b";
    assert Walk(TANGLED, ["a", "b"], "a", "b");
    assert "b" in TANGLED && "a" in TANGLED["b"] && Reaches(TANGLED, "a", "b");
    ReachesSelf(TANGLED, x);
    assert x in TANGLED[x];
  }

  // In this graph, not every node that lies on a cycle is in a reported cycle.
  lemma CycleReportsCanMiss()
    ensures Named(TANGLED)
    ensures !(forall x :: x in TANGLED && OnCycle(TANGLED, x) ==>
                exists c :: c in FirstCheck(TANGLED).0.cycles && x in c)
  {
    hide FirstCheck, OnCycle, CanonicalCycle;
    TangledHasCycles();
    FirstCheckSound(TANGLED);
    CycleReportsSound(TANGLED);
    var r := FirstCheck(TANGLED).0;
    if c, d :| c in r.cycles && d in r.cycles && "a) -> (b" in c && "a" in d {
      CyclesOfTangled(c);
      CyclesOfTangled(d);
      KeysCollide();
      OneReportPerKey(Rooted(TANGLED), r, c, d);
      assert false;
    }
  }

  // Two cycles share a key here, but each of their nodes lies on another cycle as well.
  ghost const SHARED: Graph :=
    map["a" := ["b", "y"], "b" := ["a", "w"], "y" := ["a"], "w" := ["b"],
        "a) -> (b" := ["a) -> (b", "z"], "z" := ["a) -> (b"]]

  // A node whose one neighbor is also the one node that depends on it lies on one cycle.
  lemma PendantCycle(g: Graph, c: seq<string>, a: string, y: string)
    requires CanonicalCycle(g, c) && y in c && a != y
    requires forall v :: v in g && y in g[v] ==> v == a
    requires y in g && g[y] == [a] && Less(a, y)
    ensures c == [a, y]
  {
    var i :| 0 <= i < |c| && c[i] == y;
    var n := |c|;
    var next, before := if i + 1 < n then i + 1 else 0, if i > 0 then i - 1 else n - 1;
    assert c[next] in g[c[i]] && c[i] in g[c[before]];
    assert c[next] == a && c[before] == a;
    LessIsStrict(a, y);
  }

  lemma SharedOrder()
    ensures Less("a", "b") && Less("a", "y") && Less("b", "w") && Less("a", "a) -> (b") && Less("a) -> (b", "z")
    ensures Less("a) -> (b", "b")
  {
    assert "a) -> (b"[0] == 'a' && "a) -> (b"[1..] != "";
  }

  lemma CyclesOfShared(c: seq<string>)
    requires CanonicalCycle(SHARED, c)
    ensures c in {["a", "y"], ["b", "w"], ["a) -> (b", "z"], ["a", "b"], ["a) -> (b"]}
  {
    var x := "a) -> (b";
    assert |x| == 8;
    SharedOrder();
    var n := |c|;
    if "y" in c {
      PendantCycle(SHARED, c, "a", "y");
    } else if "w" in c {
      PendantCycle(SHARED, c, "b", "w");
    } else if "z" in c {
      PendantCycle(SHARED, c, x, "z");
    } else {
      var next := if n > 1 then 1 else 0;
      assert c[next] in SHARED[c[0]] && c[next] in c;
      if c[0] == x {
        assert n == 1 && c == [x];
      } else {
        LessIsStrict("a", "b");
        assert c[0] != c[next] && n > 1;
        assert c[0] == "a" && c[1] == "b";
        assert c == ["a", "b"];
      }
    }
  }

  lemma KeysOfShared()
    ensures CycleKey(["a", "b"]) == CycleKey(["a) -> (b"])
    ensures var (ay, bw, xz) := (CycleKey(["a", "y"]), CycleKey(["b", "w"]), CycleKey(["a) -> (b", "z"]));
            ay != bw && ay != xz && bw != xz && CycleKey(["a", "b"]) !in {ay, bw, xz}
  {
    hide CycleKey;
    KeysCollide();
    KeyOfTwo("a", "y");
    KeyOfTwo("b", "w");
    KeyOfTwo("a) -> (b", "z");
    KeyOfTwo("a", "b");
    var (ay, bw, ab) := (CycleKey(["a", "y"]), CycleKey(["b", "w"]), CycleKey(["a", "b"]));
    assert ay[1] == 'a' && bw[1] == 'b' && ab[1] == 'a' && ay[8] == 'y' && ab[8] == 'b';
    assert |ay| == |bw| == |ab| == 14;
  }

  lemma PendantOnCycle(g: Graph, a: string, y: string)
    requires a in g && y in g && y in g[a] && a in g[y]
    ensures OnCycle(g, y)
  {
    assert Walk(g, [y, a], y, a);
  }

  // A key that a cycle with a pendant node has is the key of no other cycle.
  lemma PendantKeys(y: string)
    requires y in {"y", "w", "z"}
    ensures KeysLeadTo(SHARED, y)
  {
    hide CycleKey, CanonicalCycle;
    KeysOfShared();
    forall c, d | CanonicalCycle(SHARED, c) && CanonicalCycle(SHARED, d) && CycleKey(c) == CycleKey(d) && y in c
      ensures y in d
    {
      CyclesOfShared(c);
      CyclesOfShared(d);
    }
  }

  // The end of a pendant edge is in a report, and so is the node it hangs on.
  lemma PendantReported(a: string, y: string)
    requires (a, y) in {("a", "y"), ("b", "w"), ("a) -> (b", "z")}
    requires Named(SHARED)
    ensures CycleReported(SHARED, a) && CycleReported(SHARED, y)
  {
    hide FirstCheck, CycleKey, CanonicalCycle, KeysLeadTo, OnCycle, Named;
    PendantKeys(y);
    PendantOnCycle(SHARED, a, y);
    CycleIsReported(SHARED, y);
    var c :| c in FirstCheck(SHARED).0.cycles && y in c;
    CycleReportsSound(SHARED);
    CyclesOfShared(c);
    assert |"a) -> (b"| == 8;
    assert c == [a, y];
    assert a in c;
  }

  // So different keys are not needed where cycles share nodes.
  lemma SharedKeyHarmless()
    ensures Named(SHARED) && CyclesComplete(SHARED) && !CycleKeysApart(SHARED)
  {
    hide FirstCheck, CycleKey, CycleReported;
    SharedOrder();
    PendantReported("a", "y");
    PendantReported("b", "w");
    PendantReported("a) -> (b", "z");
    KeysOfShared();
    assert CanonicalCycle(SHARED, ["a", "b"]) && CanonicalCycle(SHARED, ["a) -> (b"]);
    assert |["a", "b"]| != |["a) -> (b"]|;
  }

  ghost const DANGLING: Graph := map["a" := ["b) -> (c"], "a) -> (b" := ["c"]]

  lemma DanglingHasMissing()
    ensures Named(DANGLING)
    ensures Missing(DANGLING, "a", "b) -> (c") && Missing(DANGLING, "a) -> (b", "c")
    ensures "a" != "a) -> (b"
  {
    assert |"a"| == 1 && |"a) -> (b"| == 8;
    assert forall a, b :: Edge(DANGLING, a, b) ==> b == "b) -> (c" || b == "c";
  }

  // In this graph, not every missing dependency is reported.
  lemma UnknownReportsCanMiss()
    ensures Named(DANGLING)
    ensures var u := FirstCheck(DANGLING).0.unknowns;
            !(forall a, b :: Missing(DANGLING, a, b) ==> a in u && b in u[a])
  {
    hide FirstCheck, Missing, Named, UnknownKey, CyclesSound;
    DanglingHasMissing();
    FirstCheckSound(DANGLING);
    KeysCollide();
    NotBoth(FirstCheck(DANGLING).0.unknowns, "a", "b) -> (c", "a) -> (b", "c");
  }

  lemma NotBoth(u: Graph, a: string, b: string, c: string, d: string)
    requires UnknownKeysDistinct(u) && UnknownKey(a, b) == UnknownKey(c, d) && a != c
    ensures !(a in u && b in u[a]) || !(c in u && d in u[c])
  {
  }
}
