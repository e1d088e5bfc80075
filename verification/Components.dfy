// The independent sets of a graph: its weakly connected components.
module Components {
  import opened Names
  import opened Traversal

  ghost predicate Linked(g: Graph, a: string, b: string)
  {
    Edge(g, a, b) || Edge(g, b, a)
  }

  ghost predicate LinkedWalk(g: Graph, p: seq<string>, a: string, b: string)
  {
    && |p| > 0 && p[0] == a && p[|p| - 1] == b
    && (forall i, j :: 0 <= i && j == i + 1 && j < |p| ==> Linked(g, p[i], p[j]))
  }

  // Some chain of dependencies, followed in either direction, joins a and b.
  ghost predicate Connected(g: Graph, a: string, b: string)
  {
    exists p :: LinkedWalk(g, p, a, b)
  }

  lemma ConnectedSelf(g: Graph, a: string)
    ensures Connected(g, a, a)
  {
    assert LinkedWalk(g, [a], a, a);
  }

  lemma ConnectedStep(g: Graph, a: string, b: string, c: string)
    requires Connected(g, a, b) && Linked(g, b, c)
    ensures Connected(g, a, c)
  {
    var p :| LinkedWalk(g, p, a, b);
    assert LinkedWalk(g, p + [c], a, c);
  }

  lemma {:induction false} ReverseWalk(g: Graph, p: seq<string>, a: string, b: string)
    requires LinkedWalk(g, p, a, b)
    ensures Connected(g, b, a)
    decreases |p|
  {
    if |p| == 1 {
      ConnectedSelf(g, a);
    } else {
      assert Linked(g, p[0], p[1]);
      assert LinkedWalk(g, p[1..], p[1], b);
      ReverseWalk(g, p[1..], p[1], b);
      ConnectedStep(g, b, p[1], a);
    }
  }

  lemma {:induction false} ConnectedTransitive(g: Graph, a: string, b: string, c: string)
    requires Connected(g, a, b) && Connected(g, b, c)
    ensures Connected(g, a, c)
  {
    var q :| LinkedWalk(g, q, b, c);
    ConnectedAlong(g, a, q, b, c);
  }

  lemma {:induction false} ConnectedAlong(g: Graph, a: string, q: seq<string>, b: string, c: string)
    requires Connected(g, a, b) && LinkedWalk(g, q, b, c)
    ensures Connected(g, a, c)
    decreases |q|
  {
    if |q| > 1 {
      assert Linked(g, q[0], q[1]);
      ConnectedStep(g, a, b, q[1]);
      assert LinkedWalk(g, q[1..], q[1], c);
      ConnectedAlong(g, a, q[1..], q[1], c);
    }
  }

  // Numbers never separate linked items.
  ghost predicate NumbersClosed(g: Graph, numbers: map<string, nat>)
  {
    forall a, b :: a in numbers && Linked(g, a, b) ==> b in numbers && numbers[b] == numbers[a]
  }

  // Items with the same number are connected.
  ghost predicate NumbersConnect(g: Graph, numbers: map<string, nat>)
  {
    forall a, b :: a in numbers && b in numbers && numbers[a] == numbers[b] ==> Connected(g, a, b)
  }

  lemma {:induction false} ConnectedSameNumber(
      g: Graph, numbers: map<string, nat>, p: seq<string>, a: string, b: string)
    requires NumbersClosed(g, numbers) && a in numbers && LinkedWalk(g, p, a, b)
    ensures b in numbers && numbers[b] == numbers[a]
    decreases |p|
  {
    if |p| > 1 {
      assert Linked(g, p[0], p[1]);
      assert LinkedWalk(g, p[1..], p[1], b);
      ConnectedSameNumber(g, numbers, p[1..], p[1], b);
    }
  }

  // The numbering that gives two items the same number exactly when they are connected.
  ghost predicate IsComponentNumbering(g: Graph, numbers: map<string, nat>)
  {
    && numbers.Keys == g.Keys
    && (forall a, b :: a in g && b in g ==> (numbers[a] == numbers[b] <==> Connected(g, a, b)))
  }

  lemma ClosedAndConnectedIsExact(g: Graph, numbers: map<string, nat>)
    requires numbers.Keys == g.Keys && NumbersClosed(g, numbers) && NumbersConnect(g, numbers)
    ensures IsComponentNumbering(g, numbers)
  {
    forall a, b | a in g && b in g
      ensures numbers[a] == numbers[b] <==> Connected(g, a, b)
    {
      if Connected(g, a, b) {
        var p :| LinkedWalk(g, p, a, b);
        ConnectedSameNumber(g, numbers, p, a, b);
      }
    }
  }

  ghost predicate Used(numbers: map<string, nat>, k: nat)
  {
    exists x :: x in numbers && numbers[x] == k
  }

  // The lists partition the items; two items share a list exactly when they are
  // connected; each list is in dependency order.
  ghost predicate AreIndependentSets(g: Graph, order: seq<string>, sets: seq<seq<string>>)
  {
    && (forall x :: x in g <==> exists k :: 0 <= k < |sets| && x in sets[k])
    && (forall j, k, a, b :: 0 <= j < |sets| && 0 <= k < |sets| && a in sets[j] && b in sets[k] ==>
          (j == k <==> Connected(g, a, b)))
    && (forall k :: 0 <= k < |sets| ==> sets[k] != [] && sets[k] == Restricted(order, Members(sets[k])))
  }

  ghost function Members(s: seq<string>): set<string>
  {
    set x | x in s
  }

  // The elements of order that belong to s, in that order.
  function Restricted(order: seq<string>, s: set<string>): (r: seq<string>)
  {
    if order == [] then []
    else
      var n := |order| - 1;
      Restricted(order[..n], s) + (if order[n] in s then [order[n]] else [])
  }

  lemma {:induction false} RestrictedMembers(order: seq<string>, s: set<string>, x: string)
    ensures x in Restricted(order, s) <==> x in order && x in s
  {
    if order != [] {
      var n := |order| - 1;
      RestrictedMembers(order[..n], s, x);
      assert order == order[..n] + [order[n]];
    }
  }

  // ---------- The worklist ----------

  ghost predicate ReverseMembers(g: Graph, reverse: Graph)
  {
    g.Keys <= reverse.Keys && forall x, d :: d in g ==> (x in reverse[d] <==> Edge(g, x, d))
  }

  // What holds while the set numbered `current`, grown from seed, is being discovered.
  ghost predicate Growing(g: Graph, numbers: map<string, nat>, nodes: seq<string>, seed: string, current: nat)
  {
    && numbers.Keys <= g.Keys
    && (forall a :: a in numbers ==> numbers[a] <= current)
    && (forall a, b :: a in numbers && numbers[a] < current && Linked(g, a, b) ==>
          b in numbers && numbers[b] == numbers[a])
    && (forall a, b :: a in numbers && numbers[a] == current && Linked(g, a, b) ==>
          (b in numbers && numbers[b] == current) || b in nodes)
    && (forall x :: x in nodes ==> x in g && Connected(g, seed, x) && (x in numbers ==> numbers[x] == current))
    && (forall x :: x in numbers && numbers[x] == current ==> Connected(g, seed, x))
  }

  // Two-way traversal from a node that has no number yet.
  method GrowSet(g: Graph, reverse: Graph, numbers0: map<string, nat>, seed: string, current: nat)
    returns (numbers: map<string, nat>)
    requires NoUnknowns(g) && ReverseMembers(g, reverse)
    requires seed in g && seed !in numbers0 && numbers0.Keys <= g.Keys
    requires forall a :: a in numbers0 ==> numbers0[a] < current
    requires NumbersClosed(g, numbers0)
    ensures numbers0.Keys <= numbers.Keys <= g.Keys && seed in numbers
    ensures forall a :: a in numbers0 ==> numbers[a] == numbers0[a]
    ensures forall a :: a in numbers && a !in numbers0 ==> numbers[a] == current && Connected(g, seed, a)
    ensures NumbersClosed(g, numbers)
  {
    numbers := numbers0;
    var nodes := [seed];
    ConnectedSelf(g, seed);
    while nodes != []
      invariant Growing(g, numbers, nodes, seed, current)
      invariant numbers0.Keys <= numbers.Keys
      invariant forall a :: a in numbers0 ==> numbers[a] == numbers0[a]
      invariant forall a :: a in numbers && a !in numbers0 ==> numbers[a] == current
      invariant seed in nodes || seed in numbers
      decreases g.Keys - numbers.Keys, |nodes|
    {
      var node := nodes[0];
      assert node in nodes;
      if node !in numbers {
        assert g.Keys - numbers.Keys > g.Keys - (numbers.Keys + {node}) by {
          assert node in g.Keys - numbers.Keys;
        }
        AddNode(g, reverse, numbers, nodes, seed, current);
        numbers := numbers[node := current];
        nodes := nodes + g[node] + reverse[node];
      } else {
        SkipNode(g, numbers, nodes, seed, current);
      }
      nodes := nodes[1..];
    }
  }

  lemma SkipNode(g: Graph, numbers: map<string, nat>, nodes: seq<string>, seed: string, current: nat)
    requires nodes != [] && nodes[0] in numbers && Growing(g, numbers, nodes, seed, current)
    ensures Growing(g, numbers, nodes[1..], seed, current)
    ensures seed in nodes ==> seed in nodes[1..] || seed in numbers
  {
    assert nodes == [nodes[0]] + nodes[1..];
    assert nodes[0] in nodes;
  }

  lemma AddNode(g: Graph, reverse: Graph, numbers: map<string, nat>, nodes: seq<string>, seed: string, current: nat)
    requires NoUnknowns(g) && ReverseMembers(g, reverse)
    requires nodes != [] && nodes[0] !in numbers && nodes[0] in g && Growing(g, numbers, nodes, seed, current)
    ensures Growing(g, numbers[nodes[0] := current], (nodes + g[nodes[0]] + reverse[nodes[0]])[1..], seed, current)
    ensures seed in nodes ==> seed in (nodes + g[nodes[0]] + reverse[nodes[0]])[1..] || seed == nodes[0]
  {
    var node := nodes[0];
    var after := numbers[node := current];
    var added := g[node] + reverse[node];
    var rest := (nodes + g[node] + reverse[node])[1..];
    assert rest == nodes[1..] + added;
    assert nodes == [node] + nodes[1..];
    assert node in nodes;
    forall x | x in added
      ensures x in g && Connected(g, seed, x) && (x in after ==> after[x] == current)
    {
      assert Linked(g, node, x) && Linked(g, x, node);
      assert x in g by {
        assert !Missing(g, node, x);
      }
      ConnectedStep(g, seed, node, x);
    }
    forall b | Linked(g, node, b)
      ensures b in added
    {
    }
    forall a, b | a in after && after[a] < current && Linked(g, a, b)
      ensures b in after && after[b] == after[a]
    {
      assert a in numbers;
    }
  }

  // One set after another, in dependency order of their first items.
  method NumberSets(g: Graph, reverse: Graph, order: seq<string>) returns (numbers: map<string, nat>, count: nat)
    requires NoUnknowns(g) && ReverseMembers(g, reverse)
    requires forall x :: x in order <==> x in g
    ensures IsComponentNumbering(g, numbers)
    ensures forall x :: x in numbers ==> numbers[x] < count
    ensures forall k :: 0 <= k < count ==> Used(numbers, k)
  {
    numbers := map[];
    count := 0;
    var i := 0;
    while i < |order|
      invariant i <= |order|
      invariant numbers.Keys <= g.Keys && NumbersClosed(g, numbers) && NumbersConnect(g, numbers)
      invariant forall x :: x in numbers ==> numbers[x] < count
      invariant forall k :: 0 <= k < count ==> Used(numbers, k)
      invariant forall x :: x in order[..i] ==> x in numbers
    {
      var node := order[i];
      assert node in order;
      if node !in numbers {
        ghost var before := numbers;
        numbers := GrowSet(g, reverse, numbers, node, count);
        KeepConnected(g, before, numbers, node, count);
        forall k | 0 <= k < count + 1
          ensures Used(numbers, k)
        {
          if k < count {
            assert Used(before, k);
            var x :| x in before && before[x] == k;
            assert numbers[x] == k;
          } else {
            assert numbers[node] == k;
          }
        }
        count := count + 1;
      }
      assert order[..i + 1] == order[..i] + [node];
      i := i + 1;
    }
    assert order[..i] == order;
    ClosedAndConnectedIsExact(g, numbers);
  }

  lemma KeepConnected(g: Graph, before: map<string, nat>, numbers: map<string, nat>, seed: string, current: nat)
    requires NumbersConnect(g, before) && before.Keys <= numbers.Keys
    requires forall a :: a in before ==> before[a] < current && numbers[a] == before[a]
    requires forall a :: a in numbers && a !in before ==> numbers[a] == current && Connected(g, seed, a)
    ensures NumbersConnect(g, numbers)
  {
    forall a, b | a in numbers && b in numbers && numbers[a] == numbers[b]
      ensures Connected(g, a, b)
    {
      if a !in before {
        assert b !in before;
        var p :| LinkedWalk(g, p, seed, a);
        ReverseWalk(g, p, seed, a);
        ConnectedTransitive(g, a, seed, b);
      }
    }
  }

  // Gather the items by number, each group sorted by position in the sorted graph.
  method GatherSets(g: Graph, order: seq<string>, numbers: map<string, nat>, count: nat)
    returns (sets: seq<seq<string>>)
    requires IsComponentNumbering(g, numbers)
    requires forall x :: x in order <==> x in g
    requires forall x :: x in numbers ==> numbers[x] < count
    requires forall k :: 0 <= k < count ==> Used(numbers, k)
    ensures AreIndependentSets(g, order, sets)
  {
    sets := [];
    while |sets| < count
      invariant |sets| <= count
      invariant forall k :: 0 <= k < |sets| ==> sets[k] == Restricted(order, Numbered(numbers, k))
    {
      var k := |sets|;
      var nodes := set x | x in numbers && numbers[x] == k;
      var sorted := SortByOrder(order, nodes);
      sets := sets + [sorted];
    }
    GatheredAreSets(g, order, numbers, sets);
  }

  ghost function Numbered(numbers: map<string, nat>, k: nat): set<string>
  {
    set x | x in numbers && numbers[x] == k
  }

  lemma GatheredAreSets(g: Graph, order: seq<string>, numbers: map<string, nat>, sets: seq<seq<string>>)
    requires IsComponentNumbering(g, numbers)
    requires forall x :: x in order <==> x in g
    requires forall x :: x in numbers ==> numbers[x] < |sets|
    requires forall k :: 0 <= k < |sets| ==> Used(numbers, k)
    requires forall k :: 0 <= k < |sets| ==> sets[k] == Restricted(order, Numbered(numbers, k))
    ensures AreIndependentSets(g, order, sets)
  {
    forall k | 0 <= k < |sets|
      ensures Members(sets[k]) == Numbered(numbers, k) && sets[k] != []
    {
      forall x
        ensures x in sets[k] <==> x in Numbered(numbers, k)
      {
        RestrictedMembers(order, Numbered(numbers, k), x);
      }
      assert Used(numbers, k);
      var x :| x in numbers && numbers[x] == k;
      assert x in Numbered(numbers, k);
    }
    forall x, k | 0 <= k < |sets|
      ensures x in sets[k] <==> x in g && numbers[x] == k
    {
      assert x in Members(sets[k]) <==> x in Numbered(numbers, k);
    }
    forall x
      ensures x in g <==> exists k :: 0 <= k < |sets| && x in sets[k]
    {
      if x in g {
        assert x in sets[numbers[x]];
      }
    }
  }

  method SortByOrder(order: seq<string>, nodes: set<string>) returns (sorted: seq<string>)
    ensures sorted == Restricted(order, nodes)
  {
    sorted := [];
    var i := 0;
    while i < |order|
      invariant i <= |order| && sorted == Restricted(order[..i], nodes)
    {
      assert order[..i + 1][..i] == order[..i];
      if order[i] in nodes {
        sorted := sorted + [order[i]];
      }
      i := i + 1;
    }
    assert order[..i] == order;
  }
}
