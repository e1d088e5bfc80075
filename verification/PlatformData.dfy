// Platform types and the types compatible with a platform (src/PlatformData.cc).
module PlatformRegistry {
  import opened Names
  import opened Options
  import opened Text
  import opened Traversal
  import opened GraphCheck
  import opened Evaluation
  import BuildItems
  import G = DependencyGraphs

  const PLATFORM_PREFIX := "platform "
  const PLATFORM_TYPE_PREFIX := "platform type "
  const INDEP := "indep"

  // What (\S+) accepts.
  predicate IsName(s: string)
  {
    s != "" && forall i :: 0 <= i < |s| ==> !IsSpace(s[i])
  }

  function TypeNode(t: string): string
  {
    PLATFORM_TYPE_PREFIX + t
  }

  function PlatformNode(p: string): string
  {
    PLATFORM_PREFIX + p
  }

  // platform_type_re
  function TypeOf(node: string): Option<string>
  {
    if |node| > 14 && node[..14] == PLATFORM_TYPE_PREFIX && IsName(node[14..]) then Some(node[14..]) else None
  }

  lemma NodesApart(t: string, p: string)
    requires IsName(p)
    ensures TypeOf(TypeNode(t)) == (if IsName(t) then Some(t) else None)
    ensures TypeOf(PlatformNode(p)) == None
    ensures TypeNode(t) != PlatformNode(p) && TypeNode(t) != "" && PlatformNode(p) != ""
  {
    assert |PLATFORM_TYPE_PREFIX| == 14 && |PLATFORM_PREFIX| == 9;
    assert TypeNode(t)[..14] == PLATFORM_TYPE_PREFIX && TypeNode(t)[14..] == t;
    assert PLATFORM_TYPE_PREFIX[13] == ' ';
    var node := PlatformNode(p);
    if |node| > 13 {
      assert node[13] == p[4];
      assert !IsSpace(p[4]);
      if |node| > 14 {
        assert node[..14][13] == node[13];
      }
      assert TypeNode(t)[13] == PLATFORM_TYPE_PREFIX[13];
    }
  }

  // ---------- Ancestors ----------

  datatype Types = Types(order: seq<string>, parents: map<string, string>)

  // Types are registered after their parents; a type may name itself.
  ghost predicate GoodTypes(ty: Types)
  {
    && Distinct(ty.order)
    && (forall t :: t in ty.order <==> t in ty.parents)
    && (forall t :: t in ty.order ==> IsName(t))
    && (forall t :: t in ty.parents && ty.parents[t] != "" && ty.parents[t] != t ==>
         Earlier(ty.order, ty.parents[t], t))
  }

  ghost predicate NoSelfParent(ty: Types)
  {
    forall t :: t in ty.parents ==> ty.parents[t] != t
  }

  // The parent, its parent and so on.
  ghost function Ancestors(ty: Types, t: string): seq<string>
    requires GoodTypes(ty) && t in ty.order
    decreases IndexOf(ty.order, t)
  {
    var p := ty.parents[t];
    if p == "" || p == t then []
    else
      assert Earlier(ty.order, p, t);
      [p] + Ancestors(ty, p)
  }

  // The graph has a node for each type, which depends on its parent and on platforms,
  // which depend on nothing.
  ghost predicate GraphOf(ty: Types, g: Graph)
  {
    && (forall x :: x in g ==> g[x] == [] || IsTypeNode(ty, x))
    && (forall t :: t in ty.order ==> TypeNode(t) in g)
    && (forall x :: x in g && TypeOf(x).Some? ==> TypeOf(x).value in ty.order)
    && (forall t, a :: t in ty.order && IsName(a) ==> HasParent(ty, g, t, a))
  }

  ghost predicate IsTypeNode(ty: Types, x: string)
  {
    exists t :: t in ty.order && x == TypeNode(t)
  }

  ghost predicate HasParent(ty: Types, g: Graph, t: string, a: string)
  {
    TypeNode(t) in g && t in ty.parents && (TypeNode(a) in g[TypeNode(t)] <==> ty.parents[t] == a)
  }

  lemma {:induction false} AncestorsKnown(ty: Types, t: string, a: string)
    requires GoodTypes(ty) && t in ty.order && a in Ancestors(ty, t)
    ensures a in ty.order && IsName(a) && Earlier(ty.order, a, t)
    decreases IndexOf(ty.order, t)
  {
    var p := ty.parents[t];
    assert Earlier(ty.order, p, t);
    if a != p {
      AncestorsKnown(ty, p, a);
    }
  }

  lemma {:induction false} AncestorsReached(ty: Types, g: Graph, t: string, a: string)
    requires GoodTypes(ty) && GraphOf(ty, g) && t in ty.order && (a == t || a in Ancestors(ty, t))
    ensures Reaches(g, TypeNode(t), TypeNode(a))
    decreases IndexOf(ty.order, t)
  {
    hide IsName;
    if a == t {
      ReachesSelf(g, TypeNode(t));
    } else {
      var p := ty.parents[t];
      assert Earlier(ty.order, p, t);
      AncestorsReached(ty, g, p, a);
      assert HasParent(ty, g, t, p);
      ReachesSelf(g, TypeNode(t));
      ExtendWalk(g, TypeNode(t), TypeNode(t), TypeNode(p));
      ReachesTransitive(g, TypeNode(t), TypeNode(p), TypeNode(a));
    }
  }

  lemma {:induction false} ReachedAreAncestors(ty: Types, g: Graph, t: string, w: seq<string>, a: string)
    requires GoodTypes(ty) && NoSelfParent(ty) && GraphOf(ty, g) && t in ty.order && IsName(a)
    requires Walk(g, w, TypeNode(t), TypeNode(a))
    ensures a == t || a in Ancestors(ty, t)
    decreases |w|
  {
    hide IsSpace;
    if |w| == 1 {
      SameType(t, a);
    } else {
      assert w[1] in g[w[0]] && w[1] in g;
      ChainTail(g, w);
      if |w| == 2 {
        assert HasParent(ty, g, t, a);
        assert Ancestors(ty, t)[0] == a;
      } else {
        assert w[2] in g[w[1]];
        var p :| p in ty.order && w[1] == TypeNode(p);
        assert HasParent(ty, g, t, p);
        ReachedAreAncestors(ty, g, p, w[1..], a);
      }
    }
  }

  lemma SameType(t: string, a: string)
    requires TypeNode(t) == TypeNode(a)
    ensures t == a
  {
    assert TypeNode(t)[14..] == t && TypeNode(a)[14..] == a by {
      assert |PLATFORM_TYPE_PREFIX| == 14;
    }
  }

  // ---------- The types among sorted dependencies ----------

  function TypesIn(nodes: seq<string>): seq<string>
  {
    if nodes == [] then []
    else
      var n := |nodes| - 1;
      TypesIn(nodes[..n]) + (if TypeOf(nodes[n]).Some? then [TypeOf(nodes[n]).value] else [])
  }

  lemma TypeOfNode(node: string, a: string)
    requires IsName(a)
    ensures TypeOf(node) == Some(a) <==> node == TypeNode(a)
  {
    assert |PLATFORM_TYPE_PREFIX| == 14;
    assert TypeNode(a)[..14] == PLATFORM_TYPE_PREFIX && TypeNode(a)[14..] == a;
    if TypeOf(node) == Some(a) {
      assert node == node[..14] + node[14..];
    }
  }

  lemma TypeOfIsName(node: string)
    requires TypeOf(node).Some?
    ensures IsName(TypeOf(node).value) && node == TypeNode(TypeOf(node).value)
  {
    TypeOfNode(node, TypeOf(node).value);
  }

  lemma {:induction false} TypesInMembers(nodes: seq<string>, a: string)
    requires IsName(a)
    ensures a in TypesIn(nodes) <==> TypeNode(a) in nodes
  {
    hide TypeOf, IsName, TypeNode;
    if nodes != [] {
      var n := |nodes| - 1;
      TypesInMembers(nodes[..n], a);
      TypeOfNode(nodes[n], a);
      assert nodes == nodes[..n] + [nodes[n]];
    }
  }

  lemma {:induction false} TypesAreNames(nodes: seq<string>, a: string)
    requires a in TypesIn(nodes)
    ensures IsName(a)
  {
    hide TypeOf, IsName, TypeNode;
    var n := |nodes| - 1;
    if a in TypesIn(nodes[..n]) {
      TypesAreNames(nodes[..n], a);
    } else {
      TypeOfIsName(nodes[n]);
    }
  }

  // Each type once, after its parent.
  ghost predicate ParentsFirst(ty: Types, s: seq<string>)
  {
    forall i :: 0 <= i < |s| ==>
      s[i] in ty.parents && s[i] !in s[..i] && (ty.parents[s[i]] != "" ==> ty.parents[s[i]] in s[..i])
  }

  lemma {:induction false} TypesInOrder(ty: Types, g: Graph, nodes: seq<string>)
    requires GoodTypes(ty) && GraphOf(ty, g) && NoUnknowns(g)
    requires Distinct(nodes) && (forall x :: x in nodes ==> x in g) && Topological(g, nodes)
    ensures ParentsFirst(ty, TypesIn(nodes))
  {
    hide IsName, TypeOf, TypeNode, Topological, GraphOf, NoUnknowns, ParentsFirst;
    NoParents(ty);
    if nodes != [] {
      var n := |nodes| - 1;
      var before := nodes[..n];
      assert nodes == before + [nodes[n]];
      PrefixTopological(g, nodes, n);
      TypesInOrder(ty, g, before);
      if TypeOf(nodes[n]).Some? {
        TypeOfIsName(nodes[n]);
        TypeIsRegistered(ty, g, nodes[n]);
        var t := TypeOf(nodes[n]).value;
        TypesInMembers(before, t);
        assert nodes[n] !in before;
        if ty.parents[t] != "" {
          ParentIsBefore(ty, g, nodes, n, t);
        }
        PushType(ty, TypesIn(before), t);
      } else {
        assert TypesIn(nodes) == TypesIn(before);
      }
    }
  }

  lemma NoParents(ty: Types)
    ensures ParentsFirst(ty, [])
  {
  }

  lemma PushType(ty: Types, s: seq<string>, t: string)
    requires ParentsFirst(ty, s) && t in ty.parents && t !in s && (ty.parents[t] != "" ==> ty.parents[t] in s)
    ensures ParentsFirst(ty, s + [t])
  {
    var r := s + [t];
    forall i | 0 <= i < |r|
      ensures r[i] in ty.parents && r[i] !in r[..i] && (ty.parents[r[i]] != "" ==> ty.parents[r[i]] in r[..i])
    {
      assert r[..i] == s[..i];
    }
  }

  lemma PrefixTopological(g: Graph, nodes: seq<string>, n: nat)
    requires n <= |nodes| && Distinct(nodes) && Topological(g, nodes)
    ensures Distinct(nodes[..n]) && Topological(g, nodes[..n])
  {
    assert forall i :: 0 <= i < n ==> nodes[..n][..i] == nodes[..i];
  }

  lemma TypeIsRegistered(ty: Types, g: Graph, node: string)
    requires GoodTypes(ty) && GraphOf(ty, g) && node in g && TypeOf(node).Some?
    ensures TypeOf(node).value in ty.parents
  {
    hide TypeOf;
  }

  lemma ParentIsBefore(ty: Types, g: Graph, nodes: seq<string>, n: nat, t: string)
    requires GoodTypes(ty) && GraphOf(ty, g) && NoUnknowns(g) && Topological(g, nodes) && n < |nodes| && nodes[n] in g
    requires nodes[n] == TypeNode(t) && t in ty.order && ty.parents[t] != ""
    ensures ty.parents[t] in TypesIn(nodes[..n])
  {
    hide TypeOf, TypeNode, IsName;
    var p := ty.parents[t];
    ParentIsName(ty, t);
    assert HasParent(ty, g, t, p);
    assert !Missing(g, nodes[n], TypeNode(p));
    assert TypeNode(p) in nodes[..n];
    TypesInMembers(nodes[..n], p);
  }

  lemma ParentIsName(ty: Types, t: string)
    requires GoodTypes(ty) && t in ty.order && ty.parents[t] != ""
    ensures IsName(ty.parents[t])
  {
    hide IsName;
    if ty.parents[t] != t {
      assert Earlier(ty.order, ty.parents[t], t);
    }
  }

  function Reversed(s: seq<string>): seq<string>
  {
    if s == [] then [] else Reversed(s[1..]) + [s[0]]
  }

  lemma {:induction false} ReversedTwice(s: seq<string>)
    ensures Reversed(Reversed(s)) == s
  {
    if s != [] {
      ReversedTwice(s[1..]);
      PushReversed(Reversed(s[1..]), s[0]);
    }
  }

  lemma {:induction false} PushReversed(s: seq<string>, x: string)
    ensures Reversed(s + [x]) == [x] + Reversed(s)
  {
    if s == [] {
      assert s + [x] == [x] && [x][1..] == [];
    } else {
      assert (s + [x])[1..] == s[1..] + [x];
      PushReversed(s[1..], x);
    }
  }

  // t and its ancestors, each once and after its parent: there is only one such list.
  lemma {:induction false} OnlyOrder(ty: Types, s: seq<string>, t: string)
    requires GoodTypes(ty) && NoSelfParent(ty) && t in ty.order && ParentsFirst(ty, s)
    requires forall a :: a in s <==> a == t || a in Ancestors(ty, t)
    ensures s == Reversed(Ancestors(ty, t)) + [t]
    decreases IndexOf(ty.order, t)
  {
    hide IsName, GoodTypes, NoSelfParent, Ancestors, Earlier, ParentsFirst;
    assert t in s;
    var n := |s| - 1;
    assert s == s[..n] + [s[n]];
    LastIsYoungest(ty, s, t);
    ParentFacts(ty, t);
    var p := ty.parents[t];
    WithoutLast(ty, s);
    if p == "" {
      NoOneElse(s, t);
    } else {
      NotOwnAncestor(ty, t);
      EarlierIndex(ty, p, t);
      assert forall a :: a in s <==> a in s[..n] || a == t;
      OnlyOrder(ty, s[..n], p);
    }
  }

  lemma EarlierIndex(ty: Types, p: string, t: string)
    requires Earlier(ty.order, p, t)
    ensures p in ty.order && t in ty.order && IndexOf(ty.order, p) < IndexOf(ty.order, t)
  {
  }

  lemma WithoutLast(ty: Types, s: seq<string>)
    requires ParentsFirst(ty, s) && s != []
    ensures ParentsFirst(ty, s[..|s| - 1]) && s[|s| - 1] !in s[..|s| - 1]
  {
    var before := s[..|s| - 1];
    assert forall i :: 0 <= i < |before| ==> before[..i] == s[..i];
  }

  lemma NoOneElse(s: seq<string>, t: string)
    requires s != [] && s[|s| - 1] == t && (forall a :: a in s <==> a == t) && t !in s[..|s| - 1]
    ensures s == [t]
  {
    var before := s[..|s| - 1];
    assert s == before + [t];
    assert forall x :: x in before ==> x in s;
    FirstIsIn(before);
  }

  lemma FirstIsIn(s: seq<string>)
    ensures s == [] || s[0] in s
  {
  }

  lemma ParentFacts(ty: Types, t: string)
    requires GoodTypes(ty) && NoSelfParent(ty) && t in ty.order
    ensures t in ty.parents
    ensures ty.parents[t] == "" ==> Ancestors(ty, t) == []
    ensures ty.parents[t] != "" ==>
              ty.parents[t] in ty.order && Earlier(ty.order, ty.parents[t], t)
              && Ancestors(ty, t) == [ty.parents[t]] + Ancestors(ty, ty.parents[t])
  {
    hide IsName;
    if ty.parents[t] != "" {
      assert Earlier(ty.order, ty.parents[t], t);
    }
  }

  lemma NotOwnAncestor(ty: Types, t: string)
    requires GoodTypes(ty) && t in ty.order
    ensures t !in Ancestors(ty, t)
  {
    if t in Ancestors(ty, t) {
      AncestorsKnown(ty, t, t);
    }
  }

  // Every ancestor has a child among t and its ancestors, so it cannot be last.
  lemma LastIsYoungest(ty: Types, s: seq<string>, t: string)
    requires GoodTypes(ty) && NoSelfParent(ty) && t in ty.order && ParentsFirst(ty, s) && s != []
    requires forall a :: a in s <==> a == t || a in Ancestors(ty, t)
    ensures s[|s| - 1] == t
  {
    hide IsName;
    var a := s[|s| - 1];
    if a != t {
      var c := ChildOf(ty, t, a);
      ParentNotEmpty(ty, t, a);
      ParentIsNotLast(ty, s, c, a);
    }
  }

  lemma ParentIsNotLast(ty: Types, s: seq<string>, c: string, a: string)
    requires ParentsFirst(ty, s) && c in s && c in ty.parents && ty.parents[c] == a && a != ""
    ensures a != s[|s| - 1]
  {
    var i :| 0 <= i < |s| && s[i] == c;
    WithoutLast(ty, s);
    assert a in s[..i];
    assert forall x :: x in s[..i] ==> x in s[..|s| - 1];
  }

  lemma ParentNotEmpty(ty: Types, t: string, a: string)
    requires GoodTypes(ty) && t in ty.order && a in Ancestors(ty, t)
    ensures a != ""
  {
    AncestorsKnown(ty, t, a);
  }

  lemma {:induction false} ChildOf(ty: Types, t: string, a: string) returns (c: string)
    requires GoodTypes(ty) && t in ty.order && a in Ancestors(ty, t)
    ensures (c == t || c in Ancestors(ty, t)) && c in ty.parents && ty.parents[c] == a
    decreases IndexOf(ty.order, t)
  {
    var p := ty.parents[t];
    assert Earlier(ty.order, p, t);
    if a == p {
      c := t;
    } else {
      c := ChildOf(ty, p, a);
    }
  }

  // The types among the sorted dependencies of a type, last first and itself left out,
  // are its ancestors, nearest first.
  lemma SortedTypesAreAncestors(ty: Types, g: Graph, t: string, sorted: seq<string>)
    requires GoodTypes(ty) && GraphOf(ty, g) && NoUnknowns(g) && Acyclic(g) && t in ty.order
    requires SortedFor(g, TypeNode(t), sorted) && Topological(g, sorted)
    ensures sorted != [] && Reversed(TypesIn(sorted[..|sorted| - 1])) == Ancestors(ty, t)
  {
    hide TypeOf, TypeNode, IsName, Topological, GraphOf, GoodTypes, Distinct;
    var n := |sorted| - 1;
    NoTypeIsItsParent(ty, g);
    TypeIsName(ty, t);
    SortedAreKnown(g, TypeNode(t), sorted);
    TypesInOrder(ty, g, sorted);
    forall a
      ensures a in TypesIn(sorted) <==> a == t || a in Ancestors(ty, t)
    {
      TypeReached(ty, g, t, sorted, a);
    }
    OnlyOrder(ty, TypesIn(sorted), t);
    TypeOfNode(sorted[n], t);
    assert TypesIn(sorted) == TypesIn(sorted[..n]) + [t];
    SameBeginning(TypesIn(sorted[..n]), Reversed(Ancestors(ty, t)), t);
    ReversedTwice(Ancestors(ty, t));
  }

  lemma SameBeginning(a: seq<string>, b: seq<string>, t: string)
    requires a + [t] == b + [t]
    ensures a == b
  {
    assert (a + [t])[..|a + [t]| - 1] == a && (b + [t])[..|b + [t]| - 1] == b;
  }

  lemma SortedAreKnown(g: Graph, root: string, sorted: seq<string>)
    requires SortedFor(g, root, sorted)
    ensures Distinct(sorted) && forall x :: x in sorted ==> x in g
  {
    forall x | x in sorted
      ensures x in g
    {
      var w :| Walk(g, w, root, x);
      assert w[|w| - 1] in g;
    }
  }

  lemma TypeReached(ty: Types, g: Graph, t: string, sorted: seq<string>, a: string)
    requires GoodTypes(ty) && NoSelfParent(ty) && GraphOf(ty, g) && t in ty.order && SortedFor(g, TypeNode(t), sorted)
    ensures a in TypesIn(sorted) <==> a == t || a in Ancestors(ty, t)
  {
    hide TypeOf, TypeNode, IsName, GraphOf, Distinct;
    TypeIsName(ty, t);
    if a in TypesIn(sorted) {
      TypesAreNames(sorted, a);
      TypesInMembers(sorted, a);
      var w :| Walk(g, w, TypeNode(t), TypeNode(a));
      ReachedAreAncestors(ty, g, t, w, a);
    }
    if a == t || a in Ancestors(ty, t) {
      if a != t {
        AncestorsKnown(ty, t, a);
      }
      AncestorsReached(ty, g, t, a);
      TypesInMembers(sorted, a);
    }
  }

  lemma TypeIsName(ty: Types, t: string)
    requires GoodTypes(ty) && t in ty.order
    ensures IsName(t)
  {
  }

  lemma NoTypeIsItsParent(ty: Types, g: Graph)
    requires GoodTypes(ty) && GraphOf(ty, g) && Acyclic(g)
    ensures NoSelfParent(ty)
  {
    hide IsName, TypeOf, TypeNode;
    forall t | t in ty.parents
      ensures ty.parents[t] != t
    {
      TypeIsName(ty, t);
      assert HasParent(ty, g, t, t);
      ReachesSelf(g, TypeNode(t));
      assert ty.parents[t] == t ==> OnCycle(g, TypeNode(t));
    }
  }

  // ---------- Repeated checks ----------

  function Times(s: seq<string>, n: nat): seq<string>
  {
    if n == 0 then [] else Times(s, n - 1) + s
  }

  lemma {:induction false} FirstOfTwo(d: BuildItems.Item, a: seq<string>, b: seq<string>)
    ensures BuildItems.FirstDeclared(d, a + b) ==
            (if BuildItems.FirstDeclared(d, a).Some? then BuildItems.FirstDeclared(d, a)
              else BuildItems.FirstDeclared(d, b))
  {
    if a == [] {
      assert a + b == b;
    } else {
      assert (a + b)[1..] == a[1..] + b;
      FirstOfTwo(d, a[1..], b);
    }
  }

  // Repeats after the first round do not change what a search finds first.
  lemma {:induction false} FirstOfTimes(d: BuildItems.Item, s: seq<string>, n: nat, more: seq<string>)
    requires n >= 1
    ensures BuildItems.FirstDeclared(d, Times(s, n) + more) == BuildItems.FirstDeclared(d, s + more)
  {
    FirstOfTwo(d, Times(s, n), more);
    FirstOfTwo(d, s, more);
    FirstOfTwo(d, Times(s, n - 1), s);
    if n == 1 {
      assert Times(s, 0) + s == s;
    } else {
      FirstOfTimes(d, s, n - 1, []);
      assert Times(s, n - 1) + [] == Times(s, n - 1) && s + [] == s;
    }
  }

  // ---------- Registration ----------

  function Registered(ty: Types, t: string, parent: string): Types
  {
    Types(ty.order + [t], ty.parents[t := parent])
  }

  lemma EarlierStays(ty: Types, t: string, d: string, x: string)
    requires Earlier(ty.order, d, x)
    ensures Earlier(ty.order + [t], d, x)
  {
    IndexOfAppend(ty.order, t, d);
    IndexOfAppend(ty.order, t, x);
  }

  lemma EarlierThanLast(ty: Types, t: string, d: string)
    requires d in ty.order && t !in ty.order
    ensures Earlier(ty.order + [t], d, t)
  {
    IndexOfAppend(ty.order, t, d);
    IndexOfLast(ty.order, t);
  }

  lemma RegisteredIsGood(ty: Types, t: string, parent: string)
    requires GoodTypes(ty) && IsName(t) && t !in ty.order && (parent == "" || parent == t || parent in ty.order)
    ensures GoodTypes(Registered(ty, t, parent))
  {
    hide IsName, Earlier;
    var r := Registered(ty, t, parent);
    forall x | x in r.parents && r.parents[x] != "" && r.parents[x] != x
      ensures Earlier(r.order, r.parents[x], x)
    {
      if x == t {
        EarlierThanLast(ty, t, parent);
      } else {
        EarlierStays(ty, t, ty.parents[x], x);
      }
    }
  }

  lemma {:induction false} AncestorsStay(ty: Types, t: string, parent: string, x: string)
    requires GoodTypes(ty) && t !in ty.order && GoodTypes(Registered(ty, t, parent)) && x in ty.order
    ensures x in Registered(ty, t, parent).order && Ancestors(Registered(ty, t, parent), x) == Ancestors(ty, x)
    decreases IndexOf(ty.order, x)
  {
    var p := ty.parents[x];
    if p != "" && p != x {
      assert Earlier(ty.order, p, x);
      AncestorsStay(ty, t, parent, p);
    }
  }

  lemma RegisteredGraph(ty: Types, t: string, parent: string, g: Graph)
    requires GoodTypes(ty) && GraphOf(ty, g) && IsName(t) && t !in ty.order
               && (parent == "" || parent == t || parent in ty.order)
    ensures TypeNode(t) !in g && TypeNode(t) != ""
    ensures GraphOf(Registered(ty, t, parent), g[TypeNode(t) := if parent == "" then [] else [TypeNode(parent)]])
  {
    hide IsName, TypeOf, TypeNode;
    var r := Registered(ty, t, parent);
    var h := g[TypeNode(t) := if parent == "" then [] else [TypeNode(parent)]];
    TypeOfNode(TypeNode(t), t);
    TypeNodeNamed(t);
    forall x | x in h
      ensures h[x] == [] || IsTypeNode(r, x)
    {
      if x == TypeNode(t) {
        assert t in r.order;
      } else if g[x] != [] {
        var y :| y in ty.order && x == TypeNode(y);
        assert y in r.order;
      }
    }
    forall x, a | x in r.order && IsName(a)
      ensures HasParent(r, h, x, a)
    {
      if x == t {
        EmptyIsNoName();
        if parent != "" && TypeNode(parent) == TypeNode(a) {
          SameType(parent, a);
        }
      } else {
        assert HasParent(ty, g, x, a);
        if TypeNode(x) == TypeNode(t) {
          SameType(x, t);
        }
      }
    }
  }

  lemma EmptyIsNoName()
    ensures !IsName("")
  {
  }

  lemma TypeNodeNamed(t: string)
    ensures TypeNode(t) != ""
  {
    assert |PLATFORM_TYPE_PREFIX| == 14;
  }

  lemma PlatformGraph(ty: Types, t: string, p: string, g: Graph)
    requires GoodTypes(ty) && GraphOf(ty, g) && t in ty.order && IsName(p) && PlatformNode(p) !in g
    ensures PlatformNode(p) != "" && TypeNode(t) != PlatformNode(p) && TypeNode(t) in g
    ensures var h := g[PlatformNode(p) := []];
            GraphOf(ty, h[TypeNode(t) := h[TypeNode(t)] + [PlatformNode(p)]])
  {
    hide IsName, TypeOf, TypeNode, PlatformNode;
    NodesApart(t, p);
    var h := g[PlatformNode(p) := []];
    var k := h[TypeNode(t) := h[TypeNode(t)] + [PlatformNode(p)]];
    assert IsTypeNode(ty, TypeNode(t));
    forall x, a | x in ty.order && IsName(a)
      ensures HasParent(ty, k, x, a)
    {
      assert HasParent(ty, g, x, a);
      NodesApart(x, p);
      NodesApart(a, p);
    }
  }

  datatype TargetType = PlatformIndependent | ObjectCode | Java

  // The ancestors of t, at least `least` times over.
  ghost predicate Rounds(ty: Types, t: string, s: seq<string>, least: nat)
    requires GoodTypes(ty) && t in ty.order
  {
    exists n: nat :: n >= least && s == Times(Ancestors(ty, t), n)
  }

  ghost predicate RoundsOf(ty: Types, compatible: map<string, seq<string>>)
    requires GoodTypes(ty)
  {
    forall t :: t in compatible ==> t in ty.order && Rounds(ty, t, compatible[t], 0)
  }

  lemma RoundsStay(ty: Types, t: string, parent: string, compatible: map<string, seq<string>>)
    requires GoodTypes(ty) && t !in ty.order && GoodTypes(Registered(ty, t, parent)) && RoundsOf(ty, compatible)
    ensures RoundsOf(Registered(ty, t, parent), compatible)
  {
    hide GoodTypes, Ancestors, Times;
    forall x | x in compatible
      ensures x in Registered(ty, t, parent).order && Rounds(Registered(ty, t, parent), x, compatible[x], 0)
    {
      AncestorsStay(ty, t, parent, x);
      assert Rounds(ty, x, compatible[x], 0);
    }
  }

  lemma OneMoreRound(ty: Types, t: string, s: seq<string>)
    requires GoodTypes(ty) && t in ty.order && Rounds(ty, t, s, 0)
    ensures Rounds(ty, t, s + Ancestors(ty, t), 1)
  {
    hide GoodTypes, Ancestors;
    var n: nat :| s == Times(Ancestors(ty, t), n);
    assert s + Ancestors(ty, t) == Times(Ancestors(ty, t), n + 1);
  }

  lemma NoRound(ty: Types, t: string)
    requires GoodTypes(ty) && t in ty.order
    ensures Rounds(ty, t, [], 0)
  {
    hide GoodTypes, Ancestors;
    assert [] == Times(Ancestors(ty, t), 0);
  }

  ghost predicate PlatformsKnown(platformTypes: map<string, string>, parents: map<string, string>, g: Graph)
  {
    && (forall p :: p in platformTypes ==> IsName(p) && platformTypes[p] in parents)
    && (forall p :: IsName(p) && PlatformNode(p) in g ==> p in platformTypes)
  }

  ghost predicate Sound(ty: Types, platformTypes: map<string, string>, compatible: map<string, seq<string>>, g: Graph)
  {
    GoodTypes(ty) && GraphOf(ty, g) && PlatformsKnown(platformTypes, ty.parents, g) && RoundsOf(ty, compatible)
  }

  lemma NothingIsSound()
    ensures Sound(Types([], map[]), map[], map[], map[])
  {
  }

  lemma NotPlatform(t: string, p: string)
    requires IsName(p)
    ensures TypeNode(t) != PlatformNode(p)
  {
    NodesApart(t, p);
  }

  lemma RegisterIsSound(
      ty: Types, platformTypes: map<string, string>, compatible: map<string, seq<string>>, g: Graph, t: string,
        parent: string)
    requires Sound(ty, platformTypes, compatible, g) && IsName(t) && t !in ty.parents
    requires parent == "" || parent == t || parent in ty.parents
    ensures TypeNode(t) !in g && TypeNode(t) != "" && TypeNode(parent) != ""
    ensures Sound(Registered(ty, t, parent), platformTypes, compatible,
                  g[TypeNode(t) := if parent == "" then [] else [TypeNode(parent)]])
  {
    hide IsName, TypeNode, PlatformNode, GoodTypes, GraphOf, RoundsOf;
    OrderIsParents(ty);
    RegisteredIsGood(ty, t, parent);
    RegisteredGraph(ty, t, parent, g);
    RoundsStay(ty, t, parent, compatible);
    TypeNodeNamed(parent);
    forall p | IsName(p)
      ensures TypeNode(t) != PlatformNode(p)
    {
      NotPlatform(t, p);
    }
  }

  lemma OrderIsParents(ty: Types)
    requires GoodTypes(ty)
    ensures forall t :: t in ty.order <==> t in ty.parents
  {
  }

  lemma PlatformIsSound(
      ty: Types, platformTypes: map<string, string>, compatible: map<string, seq<string>>, g: Graph, p: string,
        t: string)
    requires Sound(ty, platformTypes, compatible, g) && IsName(p) && p !in platformTypes && t in ty.parents
    ensures PlatformNode(p) !in g && PlatformNode(p) != "" && TypeNode(t) != PlatformNode(p) && TypeNode(t) in g
    ensures var h := g[PlatformNode(p) := []];
            Sound(ty, platformTypes[p := t], compatible, h[TypeNode(t) := h[TypeNode(t)] + [PlatformNode(p)]])
  {
    hide IsName, TypeNode, PlatformNode, GoodTypes, GraphOf, RoundsOf;
    OrderIsParents(ty);
    PlatformGraph(ty, t, p, g);
    forall q | IsName(q)
      ensures TypeNode(t) != PlatformNode(q) && (PlatformNode(q) == PlatformNode(p) ==> q == p)
    {
      NotPlatform(t, q);
      SamePlatform(q, p);
    }
  }

  lemma SamePlatform(q: string, p: string)
    ensures PlatformNode(q) == PlatformNode(p) ==> q == p
  {
    assert |PLATFORM_PREFIX| == 9;
    assert PlatformNode(q)[9..] == q && PlatformNode(p)[9..] == p;
  }

  // One type after a good check.
  lemma CompatibleOf(ty: Types, g: Graph, t: string)
    requires GoodTypes(ty) && GraphOf(ty, g) && Named(g) && NoUnknowns(g) && Acyclic(g) && t in ty.order
    ensures TypeNode(t) in g && TypeNode(t) in FirstCheck(g).1 && FirstCheck(g).1[TypeNode(t)] != []
    ensures var sorted := FirstCheck(g).1[TypeNode(t)];
            Reversed(TypesIn(sorted[..|sorted| - 1])) == Ancestors(ty, t)
  {
    hide IsName, TypeNode, TypeOf, FirstCheck, Topological;
    SortedDependencies(g, TypeNode(t));
    SortedTypesAreAncestors(ty, g, t, FirstCheck(g).1[TypeNode(t)]);
  }

  // The ancestors of t, perhaps repeated as a whole, and then more: a search finds in it
  // what it finds when they are not repeated.
  ghost predicate ChainThen(ty: Types, t: string, more: seq<string>, result: seq<string>)
    requires GoodTypes(ty) && t in ty.order
  {
    && (exists n: nat :: n >= 1 && result == Times(Ancestors(ty, t), n) + more)
    && (forall d: BuildItems.Item ::
         BuildItems.FirstDeclared(d, result) == BuildItems.FirstDeclared(d, Ancestors(ty, t) + more))
  }

  // What a check puts on record for t: its ancestors after what is there already.
  ghost function Extended(ty: Types, before: map<string, seq<string>>, t: string): seq<string>
    requires GoodTypes(ty) && t in ty.order
  {
    (if t in before then before[t] else []) + Ancestors(ty, t)
  }

  // The sorted dependencies of every type list its ancestors, the nearest last but itself.
  ghost predicate Matching(ty: Types, sorted: Graph)
    requires GoodTypes(ty)
  {
    forall t :: t in ty.order ==> MatchesAt(ty, sorted, t)
  }

  ghost predicate MatchesAt(ty: Types, sorted: Graph, t: string)
    requires GoodTypes(ty) && t in ty.order
  {
    && TypeNode(t) in sorted && sorted[TypeNode(t)] != []
    && (var sdeps := sorted[TypeNode(t)]; Reversed(TypesIn(sdeps[..|sdeps| - 1])) == Ancestors(ty, t))
  }

  lemma MatchingAt(ty: Types, sorted: Graph, t: string)
    requires GoodTypes(ty) && Matching(ty, sorted) && t in ty.parents
    ensures t in ty.order && TypeNode(t) in sorted && sorted[TypeNode(t)] != []
    ensures var sdeps := sorted[TypeNode(t)]; Reversed(TypesIn(sdeps[..|sdeps| - 1])) == Ancestors(ty, t)
  {
    OrderIsParents(ty);
    hide GoodTypes, Ancestors, TypesIn, Reversed, TypeNode;
    assert MatchesAt(ty, sorted, t);
  }

  lemma ExtendedIs(ty: Types, before: map<string, seq<string>>, t: string)
    requires GoodTypes(ty) && t in ty.order
    ensures Extended(ty, before, t) == (if t in before then before[t] else []) + Ancestors(ty, t)
  {
  }

  lemma GoodGraphMatches(ty: Types, g: Graph)
    requires GoodTypes(ty) && GraphOf(ty, g) && Named(g) && NoUnknowns(g) && Acyclic(g)
    ensures Matching(ty, FirstCheck(g).1 - {""})
  {
    hide GoodTypes, GraphOf, Named, NoUnknowns, Acyclic, FirstCheck, Ancestors, TypesIn, Reversed, TypeNode;
    forall t | t in ty.order
      ensures MatchesAt(ty, FirstCheck(g).1 - {""}, t)
    {
      CompatibleOf(ty, g, t);
      TypeNodeNamed(t);
    }
  }

  lemma MoreRounds(ty: Types, before: map<string, seq<string>>, after: map<string, seq<string>>)
    requires GoodTypes(ty) && RoundsOf(ty, before) && after.Keys == before.Keys + ty.parents.Keys
    requires forall t :: t in ty.order ==> t in after && after[t] == Extended(ty, before, t)
    ensures RoundsOf(ty, after) && after.Keys == ty.parents.Keys
    ensures forall t :: t in ty.order ==> t in after && Rounds(ty, t, after[t], 1)
  {
    hide GoodTypes, Rounds, Ancestors;
    OrderIsParents(ty);
    forall t | t in ty.order
      ensures Rounds(ty, t, after[t], 1) && Rounds(ty, t, after[t], 0)
    {
      NoRound(ty, t);
      OneMoreRound(ty, t, if t in before then before[t] else []);
      FewerRounds(ty, t, after[t]);
    }
  }

  lemma FewerRounds(ty: Types, t: string, s: seq<string>)
    requires GoodTypes(ty) && t in ty.order && Rounds(ty, t, s, 1)
    ensures Rounds(ty, t, s, 0)
  {
    hide GoodTypes, Ancestors, Times;
  }

  type Targets = map<string, TargetType>

  // A selector given for a type by name may only skip the type unless it is of object code.
  predicate Misused(selectors: BuildItems.Selectors, targets: Targets, t: string)
  {
    t in targets && t in selectors && !selectors[t].skip && targets[t] != ObjectCode
  }

  ghost predicate SelectorsFit(selectors: BuildItems.Selectors, targets: Targets)
  {
    forall t :: t in targets ==> !Misused(selectors, targets, t)
  }

  lemma FitExact(selectors: BuildItems.Selectors, targets: Targets)
    ensures SelectorsFit(selectors, targets) <==>
            forall t :: t in targets && t in selectors && !selectors[t].skip ==> targets[t] == ObjectCode
  {
    assert forall t :: t in targets ==>
        (Misused(selectors, targets, t) <==> t in selectors && !selectors[t].skip && targets[t] != ObjectCode);
  }

  class PlatformData {
    const graph: G.DependencyGraph
    var targetTypes: Targets
    var parents: map<string, string>
    var platformTypes: map<string, string>
    var compatible: map<string, seq<string>>
    ghost var order: seq<string>

    ghost function Registry(): Types
      reads this
    {
      Types(order, parents)
    }

    ghost predicate Valid()
      reads this, graph
    {
      && graph.Valid() && graph.unknowns == map[] && graph.cycles == []
      && (graph.state != G.Init ==> graph.Checked())
      && targetTypes.Keys == parents.Keys
      && Sound(Registry(), platformTypes, compatible, graph.dependencies)
    }

    // The built-in types and platforms.
    constructor ()
      ensures Valid() && order == ["indep", "native", "java"] && compatible == map[]
      ensures parents == map["indep" := "", "native" := "", "java" := ""]
      ensures platformTypes == map["indep" := "indep", "java" := "java"]
      ensures fresh(graph)
    {
      hide Sound, IsName, G.DependencyGraph.Valid, G.DependencyGraph.Checked;
      graph := new G.DependencyGraph();
      targetTypes, parents, platformTypes, compatible, order := map[], map[], map[], map[], [];
      new;
      BuiltInNames();
      NothingIsSound();
      Register("indep", PlatformIndependent, "");
      Register("native", ObjectCode, "");
      Register("java", Java, "");
      var first := AddPlatform("indep", "indep");
      var second := AddPlatform("java", "java");
    }

    static lemma BuiltInNames()
      ensures IsName("indep") && IsName("native") && IsName("java")
    {
    }

    // A type that is new, with a parent that is known or missing.
    method Register(t: string, target: TargetType, parent: string)
      requires Valid() && IsName(t) && t !in targetTypes && (parent == "" || parent == t || parent in targetTypes)
      modifies this, graph
      ensures Valid()
      ensures order == old(order) + [t] && parents == old(parents)[t := parent]
                && targetTypes == old(targetTypes)[t := target]
      ensures platformTypes == old(platformTypes) && compatible == old(compatible)
    {
      hide IsName, TypeNode, Sound, G.DependencyGraph.Valid, G.DependencyGraph.Checked;
      RegisterIsSound(Registry(), platformTypes, compatible, graph.dependencies, t, parent);
      targetTypes := targetTypes[t := target];
      parents := parents[t := parent];
      order := order + [t];
      ghost var g := graph.dependencies;
      graph.AddItem(TypeNode(t));
      if parent != "" {
        graph.AddDependency(TypeNode(t), TypeNode(parent));
        assert [] + [TypeNode(parent)] == [TypeNode(parent)];
        assert graph.dependencies == g[TypeNode(t) := [TypeNode(parent)]];
      }
    }

    // addPlatformType; false stands for its exceptions.
    method AddPlatformType(t: string, target: TargetType, parent: string) returns (ok: bool)
      requires Valid() && IsName(t)
      modifies this, graph
      ensures ok <==> target == ObjectCode && t !in old(targetTypes)
                      && (parent == "" || parent == t
                           || (parent in old(targetTypes) && old(targetTypes)[parent] == ObjectCode))
      ensures ok ==> Valid() && order == old(order) + [t] && parents == old(parents)[t := parent]
      ensures ok ==> platformTypes == old(platformTypes) && compatible == old(compatible)
    {
      if target != ObjectCode || t in targetTypes {
        return false;
      }
      if parent != "" && parent != t && (parent !in targetTypes || targetTypes[parent] != ObjectCode) {
        // The exception leaves the type half registered.
        targetTypes := targetTypes[t := target];
        parents := parents[t := parent];
        return false;
      }
      Register(t, target, parent);
      ok := true;
    }

    method AddPlatform(p: string, t: string) returns (ok: bool)
      requires Valid() && IsName(p)
      modifies this, graph
      ensures ok <==> p !in old(platformTypes) && t in targetTypes
      ensures targetTypes == old(targetTypes) && parents == old(parents) && order == old(order)
                && compatible == old(compatible)
      ensures ok ==> Valid() && platformTypes == old(platformTypes)[p := t]
    {
      hide IsName, TypeNode, PlatformNode, Sound, G.DependencyGraph.Valid, G.DependencyGraph.Checked;
      if p in platformTypes || t !in targetTypes {
        return false;
      }
      PlatformIsSound(Registry(), platformTypes, compatible, graph.dependencies, p, t);
      graph.AddItem(PlatformNode(p));
      graph.AddDependency(TypeNode(t), PlatformNode(p));
      platformTypes := platformTypes[p := t];
      ok := true;
    }

    // The types among sorted dependencies, from the last one back.
    static method TypesBackwards(sdeps: seq<string>) returns (types: seq<string>)
      ensures types == Reversed(TypesIn(sdeps))
    {
      hide TypeOf;
      types := [];
      var i := |sdeps|;
      EmptyReversed(sdeps);
      while i > 0
        invariant 0 <= i <= |sdeps|
        invariant types + Reversed(TypesIn(sdeps[..i])) == Reversed(TypesIn(sdeps))
      {
        i := i - 1;
        assert sdeps[..i + 1][..i] == sdeps[..i];
        var t := TypeOf(sdeps[i]);
        if t.Some? {
          PushReversed(TypesIn(sdeps[..i]), t.value);
          types := types + [t.value];
        } else {
          assert TypesIn(sdeps[..i + 1]) == TypesIn(sdeps[..i]);
        }
      }
      assert sdeps[..0] == [];
    }

    static lemma EmptyReversed(sdeps: seq<string>)
      ensures sdeps[..|sdeps|] == sdeps && [] + Reversed(TypesIn(sdeps)) == Reversed(TypesIn(sdeps))
    {
    }

    // The part of check that finds compatible types, once the graph is known to be good; a
    // selector that does not fit ends it where it is met.
    method RecordCompatible(selectors: BuildItems.Selectors) returns (ok: bool)
      requires graph.state != G.Init && targetTypes.Keys == parents.Keys && GoodTypes(Registry())
      requires Matching(Registry(), graph.sortedDependencies)
      modifies this`compatible
      ensures ok <==> SelectorsFit(selectors, targetTypes)
      ensures ok ==> compatible.Keys == old(compatible).Keys + parents.Keys
      ensures ok ==> forall t :: t in order ==>
                t in compatible && compatible[t] == Extended(Registry(), old(compatible), t)
    {
      hide TypeNode, TypesIn, Reversed, Extended, SortedKeys, Distinct, GoodTypes, Matching, Misused, Ancestors, IsName;
      ghost var ty, before, sorted := Registry(), compatible, graph.sortedDependencies;
      OrderIsParents(ty);
      var names := KeysInOrder(targetTypes.Keys);
      SortedKeysDistinct(targetTypes.Keys);
      var i := 0;
      while i < |names|
        invariant i <= |names| && compatible.Keys == before.Keys + set k | k in names[..i]
        invariant forall t :: t in names[..i] ==> compatible[t] == Extended(ty, before, t)
        invariant forall t :: t in before && t !in names[..i] ==> compatible[t] == before[t]
        invariant forall t :: t in names[..i] ==> !Misused(selectors, targetTypes, t)
      {
        var t := names[i];
        NextName(names, i);
        if Misused(selectors, targetTypes, t) {
          return false;
        }
        MatchingAt(ty, sorted, t);
        ExtendedIs(ty, before, t);
        var sdeps := graph.sortedDependencies[TypeNode(t)];
        var types := TypesBackwards(sdeps[..|sdeps| - 1]);
        compatible := compatible[t := (if t in compatible then compatible[t] else []) + types];
        i := i + 1;
      }
      assert names[..i] == names;
      ok := true;
    }

    static lemma NextName(names: seq<string>, i: nat)
      requires Distinct(names) && i < |names|
      ensures names[i] in names && names[..i + 1] == names[..i] + [names[i]] && names[i] !in names[..i]
    {
    }

    // check, as far as types are concerned; false stands for its exceptions.
    method Check(selectors: BuildItems.Selectors) returns (ok: bool)
      requires Valid()
      modifies this`compatible, graph
      ensures graph.dependencies == old(graph.dependencies)
      ensures ok <==>
              && NoUnknowns(graph.dependencies) && Acyclic(graph.dependencies)
              && forall t :: t in targetTypes && t in selectors && !selectors[t].skip ==> targetTypes[t] == ObjectCode
      ensures ok ==> Valid() && compatible.Keys == parents.Keys && Resolved()
      ensures ok ==> forall t :: t in order ==>
                t in compatible && compatible[t] == Extended(Registry(), old(compatible), t)
      ensures !NoUnknowns(graph.dependencies) || !Acyclic(graph.dependencies) ==> compatible == old(compatible)
    {
      hide GraphOf, GoodTypes, Rounds, PlatformsKnown, Ancestors, FirstCheck, InOrder, Traversals, Named, NoUnknowns,
           Acyclic, Matching, Extended, RoundsOf, G.ReverseSound;
      ghost var before := compatible;
      ok := graph.Check();
      VerdictExact(graph.dependencies);
      if !ok {
        return;
      }
      GoodGraphMatches(Registry(), graph.dependencies);
      ok := RecordCompatible(selectors);
      FitExact(selectors, targetTypes);
      if ok {
        MoreRounds(Registry(), before, compatible);
      }
    }

    // Every type has its compatible types on record.
    ghost predicate Resolved()
      requires Valid()
      reads this, graph
    {
      forall t :: t in order ==> t in compatible && Rounds(Registry(), t, compatible[t], 1)
    }

    method GetCompatiblePlatformTypes(p: string) returns (result: seq<string>)
      requires Valid() && Resolved()
      ensures p !in platformTypes ==> result == if p != INDEP then [INDEP] else []
      ensures p in platformTypes ==>
                (platformTypes[p] in order
                  && ChainThen(Registry(), platformTypes[p], if p != INDEP then [INDEP] else [], result))
    {
      hide IsName, TypeNode, PlatformNode, GraphOf, Ancestors, Times;
      OrderIsParents(Registry());
      result := [];
      if p in platformTypes {
        var t := platformTypes[p];
        assert t in order && Rounds(Registry(), t, compatible[t], 1);
        result := compatible[t];
      }
      ghost var found := result;
      if p != INDEP {
        result := result + [INDEP];
      }
      ghost var more := if p != INDEP then [INDEP] else [];
      assert result == found + more;
      if p in platformTypes {
        ghost var chain := Ancestors(Registry(), platformTypes[p]);
        ghost var n: nat :| n >= 1 && found == Times(chain, n);
        forall d: BuildItems.Item
          ensures BuildItems.FirstDeclared(d, result) == BuildItems.FirstDeclared(d, chain + more)
        {
          FirstOfTimes(d, chain, n, more);
        }
      }
    }
  }
}
