// The graph of items on platforms that abuild builds from (src/Abuild-build.cc).  Nodes are
// discovered while it is being built: linking an item may add build platforms to its
// dependencies, which is why dependents are added before what they depend on.
module BuildGraphs {
  import opened Names
  import opened Options
  import opened Text
  import opened Traversal
  import opened Evaluation
  import opened BuildItems

  datatype Build = Build(
      items: map<string, Item>, prefixes: map<string, string>, order: seq<string>, selectors: Selectors)

  type Platforms = map<string, set<string>>

  predicate Spellable(name: string)
  {
    name != "" && '!' !in name
  }

  ghost predicate GoodBuild(b: Build)
  {
    && b.prefixes.Keys == b.items.Keys
    && (forall i :: i in b.items ==> Spellable(i) && Spellable(b.prefixes[i]) && GoodItem(b.items[i]))
    && (forall i, d :: i in b.items && d in b.items[i].deps ==> d in b.items)
    && Distinct(b.order) && (forall i :: i in b.order <==> i in b.items)
    && DependentsFirst(b)
  }

  ghost predicate GoodItem(d: Item)
  {
    forall t, p :: t in d.types && p in d.types[t] ==> Spellable(p)
  }

  ghost predicate DependentsFirst(b: Build)
  {
    forall i, d :: Needs(b, i, d) ==> Earlier(b.order, i, d)
  }

  ghost predicate Needs(b: Build, i: string, d: string)
  {
    i in b.items && d in b.items[i].deps
  }

  // Build platforms are spellable, and buildable except for items of type "all".
  ghost predicate GoodPlatforms(b: Build, platforms: Platforms)
  {
    && platforms.Keys == b.items.Keys
    && (forall i :: i in platforms ==> GoodSet(b.items[i], platforms[i]))
  }

  ghost predicate GoodSet(d: Item, have: set<string>)
  {
    forall p :: p in have ==> Spellable(p) && (!d.all ==> p in Buildable(d))
  }

  // ---------- The order of processing ----------

  // The items of the build set, from the last of the sorted items to the first.
  function Backwards(sorted: seq<string>, keep: set<string>): seq<string>
  {
    if sorted == [] then [] else Backwards(sorted[1..], keep) + (if sorted[0] in keep then [sorted[0]] else [])
  }

  method BuildsetReverseOrder(sorted: seq<string>, buildset: set<string>) returns (order: seq<string>)
    ensures order == Backwards(sorted, buildset)
  {
    order := [];
    var i := |sorted|;
    while i > 0
      invariant 0 <= i <= |sorted| && order == Backwards(sorted[i..], buildset)
    {
      i := i - 1;
      assert sorted[i..][1..] == sorted[i + 1..];
      if sorted[i] in buildset {
        order := order + [sorted[i]];
      }
    }
    assert sorted[0..] == sorted;
  }

  lemma {:induction false} BackwardsMembers(sorted: seq<string>, keep: set<string>, x: string)
    ensures x in Backwards(sorted, keep) <==> x in sorted && x in keep
  {
    if sorted != [] {
      assert sorted == [sorted[0]] + sorted[1..];
      BackwardsMembers(sorted[1..], keep, x);
    }
  }

  lemma {:induction false} BackwardsTurns(sorted: seq<string>, keep: set<string>, x: string, y: string)
    requires Distinct(sorted) && x in keep && y in keep && Earlier(sorted, x, y)
    ensures Earlier(Backwards(sorted, keep), y, x)
  {
    hide Distinct;
    var h, t := sorted[0], sorted[1..];
    HeadIsNew(sorted);
    BackwardsMembers(t, keep, x);
    BackwardsMembers(t, keep, y);
    BackwardsMembers(t, keep, h);
    var before := Backwards(t, keep);
    assert sorted == [h] + t;
    if x == h {
      IndexOfAppend(before, x, y);
      IndexOfLast(before, x);
    } else {
      BackwardsTurns(t, keep, x, y);
      if h in keep {
        IndexOfAppend(before, h, x);
        IndexOfAppend(before, h, y);
      } else {
        assert Backwards(sorted, keep) == before;
      }
    }
  }

  lemma HeadIsNew(sorted: seq<string>)
    requires Distinct(sorted) && sorted != []
    ensures sorted[0] !in sorted[1..] && Distinct(sorted[1..])
  {
  }

  lemma {:induction false} BackwardsDistinct(sorted: seq<string>, keep: set<string>)
    requires Distinct(sorted)
    ensures Distinct(Backwards(sorted, keep))
  {
    if sorted != [] {
      HeadIsNew(sorted);
      BackwardsDistinct(sorted[1..], keep);
      BackwardsMembers(sorted[1..], keep, sorted[0]);
    }
  }

  // The reverse of a dependency order, cut down to the build set, has every item before
  // what it depends on.
  lemma ReverseOrderIsDependentsFirst(b: Build, g: Graph, sorted: seq<string>)
    requires Distinct(sorted) && Layered(g, sorted) && b.items.Keys <= g.Keys
               && b.order == Backwards(sorted, b.items.Keys)
    requires (forall i :: i in b.items ==> g[i] == b.items[i].deps && i in sorted)
             && forall i, d :: i in b.items && d in b.items[i].deps ==> d in b.items
    ensures Distinct(b.order) && (forall i :: i in b.order <==> i in b.items) && DependentsFirst(b)
  {
    hide Earlier, Distinct;
    BackwardsDistinct(sorted, b.items.Keys);
    forall i
      ensures i in b.order <==> i in b.items
    {
      BackwardsMembers(sorted, b.items.Keys, i);
    }
    forall i, d | Needs(b, i, d)
      ensures Earlier(b.order, i, d)
    {
      assert Edge(g, i, d) && d in g;
      BackwardsTurns(sorted, b.items.Keys, d, i);
    }
  }

  // ---------- Node names ----------

  function NodeName(prefix: string, item: string, platform: string): string
  {
    prefix + "!" + item + "!" + platform
  }

  function ParseNode(node: string): (string, string)
  {
    var parts := Split('!', node);
    if |parts| == 3 then (parts[1], parts[2]) else ("", "")
  }

  // parseBuildGraphNode undoes createBuildGraphNode.
  lemma ParseRoundTrip(prefix: string, item: string, platform: string)
    requires Spellable(prefix) && Spellable(item) && Spellable(platform)
    ensures ParseNode(NodeName(prefix, item, platform)) == (item, platform)
  {
    assert NodeName(prefix, item, platform) == prefix + ['!'] + (item + ['!'] + platform);
    SplitOnce('!', prefix, item + ['!'] + platform);
    SplitOnce('!', item, platform);
    SplitOnce('!', platform, "");
  }

  function Node(b: Build, i: string, p: string): string
    requires i in b.prefixes
  {
    NodeName(b.prefixes[i], i, p)
  }

  lemma NodeInjective(b: Build, i: string, p: string, j: string, q: string)
    requires GoodBuild(b) && i in b.items && j in b.items && Spellable(p) && Spellable(q)
    requires Node(b, i, p) == Node(b, j, q)
    ensures i == j && p == q
  {
    ParseRoundTrip(b.prefixes[i], i, p);
    ParseRoundTrip(b.prefixes[j], j, q);
  }

  // ---------- One item ----------

  // A platform type is declared for this dependency.
  predicate Declared(b: Build, i: string, d: string)
    requires i in b.items
  {
    d in b.items[i].depTypes && b.items[i].depTypes[d].0 != ""
  }

  // The platform of d that i, built on p, depends on; "" if there is none.
  function Choice(b: Build, i: string, d: string, p: string): string
    requires i in b.items && d in b.items
  {
    if Declared(b, i, d) then
      BestForType(b.selectors, b.items[d], b.items[i].depTypes[d].0, b.items[i].depTypes[d].1)
    else BestForPlatform(b.selectors, b.items[i], b.items[d], p)
  }

  ghost predicate AllKnown(b: Build, deps: seq<string>)
  {
    forall d :: d in deps ==> d in b.items && d in b.prefixes
  }

  // What the node of i on p depends on.
  ghost function Targets(b: Build, i: string, p: string, deps: seq<string>): seq<string>
    requires i in b.items && AllKnown(b, deps)
  {
    if deps == [] then []
    else
      var n := |deps| - 1;
      Targets(b, i, p, deps[..n]) +
        (if Choice(b, i, deps[n], p) == "" then [] else [Node(b, deps[n], Choice(b, i, deps[n], p))])
  }

  // The build platforms of d once i has been linked to it on the platforms ps: the choice
  // is added when i's platform, not the chosen one, is missing.
  function Widen(b: Build, i: string, d: string, ps: seq<string>, have: set<string>): set<string>
    requires i in b.items && d in b.items
  {
    if ps == [] then have
    else
      var n := |ps| - 1;
      var sofar := Widen(b, i, d, ps[..n], have);
      var q := Choice(b, i, d, ps[n]);
      if q != "" && ps[n] !in sofar then sofar + {q} else sofar
  }

  ghost function WidenAll(b: Build, i: string, ps: seq<string>, deps: seq<string>, platforms: Platforms): (r: Platforms)
    requires i in b.items && AllKnown(b, deps) && platforms.Keys == b.items.Keys
    ensures r.Keys == platforms.Keys
  {
    if deps == [] then platforms
    else
      var n := |deps| - 1;
      var before := WidenAll(b, i, ps, deps[..n], platforms);
      before[deps[n] := Widen(b, i, deps[n], ps, before[deps[n]])]
  }

  // ---------- All items ----------

  ghost function After(b: Build, platforms: Platforms, items: seq<string>): (r: Platforms)
    requires GoodBuild(b) && platforms.Keys == b.items.Keys && (forall i :: i in items ==> i in b.items)
    ensures r.Keys == b.items.Keys
  {
    if items == [] then platforms
    else
      var n := |items| - 1;
      var before := After(b, platforms, items[..n]);
      DepsKnown(b, items[n]);
      WidenAll(b, items[n], SortedKeys(before[items[n]]), b.items[items[n]].deps, before)
  }

  lemma DepsKnown(b: Build, i: string)
    requires GoodBuild(b) && i in b.items
    ensures AllKnown(b, b.items[i].deps) && i in b.prefixes
  {
  }

  lemma PrefixKnown(b: Build, n: nat)
    requires GoodBuild(b) && n <= |b.order|
    ensures forall i :: i in b.order[..n] ==> i in b.items
  {
  }

  // The build platforms when the first n items have been linked.
  ghost function At(b: Build, platforms: Platforms, n: nat): (r: Platforms)
    requires GoodBuild(b) && platforms.Keys == b.items.Keys && n <= |b.order|
    ensures r.Keys == b.items.Keys
  {
    PrefixKnown(b, n);
    After(b, platforms, b.order[..n])
  }

  ghost function Final(b: Build, platforms: Platforms): (r: Platforms)
    requires GoodBuild(b) && platforms.Keys == b.items.Keys
    ensures r.Keys == b.items.Keys
  {
    At(b, platforms, |b.order|)
  }

  ghost function NodeSet(b: Build, i: string, ps: set<string>): set<string>
    requires i in b.prefixes
  {
    set p | p in ps :: Node(b, i, p)
  }

  // The nodes and edges of one item.
  ghost function Nodes(b: Build, i: string, ps: set<string>): Graph
    requires GoodBuild(b) && i in b.items
  {
    DepsKnown(b, i);
    map x | x in NodeSet(b, i, ps) :: Targets(b, i, ParseNode(x).1, b.items[i].deps)
  }

  // ---------- Platforms while the graph is being built ----------

  lemma ChoiceFits(b: Build, i: string, d: string, p: string)
    requires GoodBuild(b) && i in b.items && d in b.items && Spellable(p)
    ensures var q := Choice(b, i, d, p);
            q != "" ==> Spellable(q) && (!b.items[d].all ==> q in Buildable(b.items[d]))
    ensures !Declared(b, i, d) && (b.items[d].all || p in Buildable(b.items[d])) ==> Choice(b, i, d, p) == p
  {
    hide BestForType, BestForPlatform;
    ItemNamed(b, d);
    BestForPlatformExact(b.selectors, b.items[i], b.items[d], p);
    if Declared(b, i, d) {
      BestForTypeExact(b.selectors, b.items[d], b.items[i].depTypes[d].0, b.items[i].depTypes[d].1);
    }
    assert forall q :: q in Buildable(b.items[d]) ==> Spellable(q);
  }

  lemma ItemNamed(b: Build, d: string)
    requires GoodBuild(b) && d in b.items
    ensures PlatformsNamed(b.items[d]) && GoodItem(b.items[d])
  {
    assert GoodItem(b.items[d]);
    forall t, p | t in b.items[d].types && p in b.items[d].types[t]
      ensures p != ""
    {
      assert Spellable(p);
    }
  }

  lemma {:induction false} WidenKeeps(b: Build, i: string, d: string, ps: seq<string>, have: set<string>)
    requires GoodBuild(b) && i in b.items && d in b.items && GoodSet(b.items[d], have)
    requires forall p :: p in ps ==> Spellable(p)
    ensures var r := Widen(b, i, d, ps, have);
            && have <= r && GoodSet(b.items[d], r)
            && (forall q :: q in r && q !in have ==> exists p :: p in ps && q == Choice(b, i, d, p))
  {
    hide Choice, Buildable, Spellable, GoodBuild;
    if ps != [] {
      var n := |ps| - 1;
      WidenKeeps(b, i, d, ps[..n], have);
      assert ps == ps[..n] + [ps[n]];
      assert ps[n] in ps;
      ChoiceFits(b, i, d, ps[n]);
    }
  }

  // Every choice ends up among the build platforms, except perhaps one for a declared type.
  lemma {:induction false} WidenServes(b: Build, i: string, d: string, ps: seq<string>, have: set<string>, p: string)
    requires GoodBuild(b) && i in b.items && d in b.items && GoodSet(b.items[d], have)
    requires (forall p :: p in ps ==> Spellable(p)) && p in ps && Choice(b, i, d, p) != ""
    ensures var r := Widen(b, i, d, ps, have);
            Choice(b, i, d, p) in r || (Declared(b, i, d) && p in r)
  {
    hide Choice, Buildable, Spellable, GoodBuild, Declared;
    var n := |ps| - 1;
    assert ps == ps[..n] + [ps[n]];
    WidenKeeps(b, i, d, ps[..n], have);
    ChoiceFits(b, i, d, ps[n]);
    if p in ps[..n] {
      WidenServes(b, i, d, ps[..n], have, p);
    }
  }

  lemma {:induction false} WidenAllKeeps(b: Build, i: string, ps: seq<string>, deps: seq<string>, platforms: Platforms)
    requires GoodBuild(b) && i in b.items && AllKnown(b, deps) && GoodPlatforms(b, platforms)
    requires forall p :: p in ps ==> Spellable(p)
    ensures var r := WidenAll(b, i, ps, deps, platforms);
            && GoodPlatforms(b, r)
            && (forall x :: x in r ==> platforms[x] <= r[x])
            && (forall x :: x in r && x !in deps ==> r[x] == platforms[x])
  {
    hide GoodBuild, GoodSet, Spellable;
    if deps != [] {
      var n := |deps| - 1;
      assert deps == deps[..n] + [deps[n]];
      assert deps[n] in deps;
      WidenAllKeeps(b, i, ps, deps[..n], platforms);
      WidenKeeps(b, i, deps[n], ps, WidenAll(b, i, ps, deps[..n], platforms)[deps[n]]);
    }
  }

  // What is new on a dependency was chosen for one of the platforms ps.
  lemma {:induction false} WidenAllNew(
      b: Build, i: string, ps: seq<string>, deps: seq<string>, platforms: Platforms, d: string, q: string)
    requires GoodBuild(b) && i in b.items && AllKnown(b, deps) && GoodPlatforms(b, platforms)
    requires forall p :: p in ps ==> Spellable(p)
    requires d in b.items && q in WidenAll(b, i, ps, deps, platforms)[d] && q !in platforms[d]
    ensures d in deps && exists p :: p in ps && q == Choice(b, i, d, p)
  {
    hide GoodBuild, GoodSet, Spellable, Choice;
    if deps != [] {
      var n := |deps| - 1;
      assert deps == deps[..n] + [deps[n]];
      assert deps[n] in deps;
      var before := WidenAll(b, i, ps, deps[..n], platforms);
      WidenAllKeeps(b, i, ps, deps[..n], platforms);
      if q in before[d] {
        WidenAllNew(b, i, ps, deps[..n], platforms, d, q);
      } else {
        WidenKeeps(b, i, deps[n], ps, before[deps[n]]);
      }
    }
  }

  lemma {:induction false} WidenAllServes(
      b: Build, i: string, ps: seq<string>, deps: seq<string>, platforms: Platforms, d: string, p: string)
    requires GoodBuild(b) && i in b.items && AllKnown(b, deps) && GoodPlatforms(b, platforms)
    requires (forall p :: p in ps ==> Spellable(p)) && p in ps && d in deps && d in b.items && Choice(b, i, d, p) != ""
    ensures var r := WidenAll(b, i, ps, deps, platforms);
            Choice(b, i, d, p) in r[d] || (Declared(b, i, d) && p in r[d])
  {
    hide GoodBuild, GoodSet, Spellable, Choice, Declared;
    var n := |deps| - 1;
    assert deps == deps[..n] + [deps[n]];
    var before := WidenAll(b, i, ps, deps[..n], platforms);
    WidenAllKeeps(b, i, ps, deps[..n], platforms);
    if deps[n] == d {
      WidenServes(b, i, d, ps, before[d], p);
    } else {
      WidenAllServes(b, i, ps, deps[..n], platforms, d, p);
    }
  }

  lemma KeysSpellable(b: Build, platforms: Platforms, i: string)
    requires GoodPlatforms(b, platforms) && i in b.items
    ensures forall p :: p in SortedKeys(platforms[i]) ==> Spellable(p) && p in platforms[i]
    ensures forall p :: p in platforms[i] ==> p in SortedKeys(platforms[i])
  {
    assert GoodSet(b.items[i], platforms[i]);
  }

  // Linking the item at position n.
  lemma LinkStep(b: Build, platforms: Platforms, n: nat)
    requires GoodBuild(b) && platforms.Keys == b.items.Keys && n < |b.order|
    ensures b.order[n] in b.items && AllKnown(b, b.items[b.order[n]].deps)
    ensures var (i, before) := (b.order[n], At(b, platforms, n));
            At(b, platforms, n + 1) == WidenAll(b, i, SortedKeys(before[i]), b.items[i].deps, before)
  {
    hide SortedKeys, Distinct, DependentsFirst;
    var i := b.order[n];
    assert i in b.order;
    DepsKnown(b, i);
    assert b.order[..n + 1][..n] == b.order[..n];
  }

  lemma {:induction false} AtKeeps(b: Build, platforms: Platforms, n: nat)
    requires GoodBuild(b) && GoodPlatforms(b, platforms) && n <= |b.order|
    ensures GoodPlatforms(b, At(b, platforms, n))
  {
    hide GoodBuild, GoodSet, Spellable, SortedKeys;
    if n > 0 {
      AtKeeps(b, platforms, n - 1);
      LinkStep(b, platforms, n - 1);
      KeysSpellable(b, At(b, platforms, n - 1), b.order[n - 1]);
      var i, before := b.order[n - 1], At(b, platforms, n - 1);
      WidenAllKeeps(b, i, SortedKeys(before[i]), b.items[i].deps, before);
    }
  }

  lemma OrderSplits(b: Build, n: nat)
    requires GoodBuild(b) && n < |b.order|
    ensures forall d :: Needs(b, b.order[n], d) ==> d in b.items && d !in b.order[..n + 1]
  {
    hide Earlier;
    var i := b.order[n];
    assert i in b.order;
    forall x | x in b.order[..n + 1]
      ensures x in b.order && IndexOf(b.order, x) <= n
    {
      var k :| 0 <= k < n + 1 && b.order[..n + 1][k] == x;
      IndexOfFirst(b.order, x, k);
    }
    forall d | Needs(b, i, d)
      ensures d !in b.order[..n + 1]
    {
      assert Earlier(b.order, i, d);
      LaterIndex(b.order, n, d);
    }
  }

  lemma LaterIndex(order: seq<string>, n: nat, d: string)
    requires n < |order| && Distinct(order) && Earlier(order, order[n], d)
    ensures d in order && IndexOf(order, d) > n
  {
  }

  // Linking the item at position m adds to the build platforms of its dependencies only.
  lemma StepGrows(b: Build, platforms: Platforms, m: nat, x: string)
    requires GoodBuild(b) && GoodPlatforms(b, platforms) && m < |b.order| && x in b.items
    ensures At(b, platforms, m)[x] <= At(b, platforms, m + 1)[x]
    ensures !Needs(b, b.order[m], x) ==> At(b, platforms, m)[x] == At(b, platforms, m + 1)[x]
  {
    hide GoodBuild, GoodSet, Spellable, SortedKeys, At;
    LinkStep(b, platforms, m);
    AtKeeps(b, platforms, m);
    var i, before := b.order[m], At(b, platforms, m);
    KeysSpellable(b, before, i);
    WidenAllKeeps(b, i, SortedKeys(before[i]), b.items[i].deps, before);
  }

  // Once an item has been linked, its build platforms do not change any more.
  lemma {:induction false} LaterGrows(b: Build, platforms: Platforms, n: nat, m: nat, x: string)
    requires GoodBuild(b) && GoodPlatforms(b, platforms) && n <= m <= |b.order| && x in b.items
    ensures At(b, platforms, n)[x] <= At(b, platforms, m)[x]
    ensures (forall k :: n <= k < m ==> !Needs(b, b.order[k], x)) ==> At(b, platforms, m)[x] == At(b, platforms, n)[x]
    decreases m
  {
    hide GoodPlatforms, GoodBuild, At, Needs;
    if n < m {
      LaterGrows(b, platforms, n, m - 1, x);
      StepGrows(b, platforms, m - 1, x);
    }
  }

  lemma LinkedAt(b: Build, platforms: Platforms, n: nat)
    requires GoodBuild(b) && GoodPlatforms(b, platforms) && n < |b.order|
    ensures b.order[n] in b.items && At(b, platforms, n)[b.order[n]] == Final(b, platforms)[b.order[n]]
  {
    hide GoodPlatforms, At, DependentsFirst, Needs;
    var x := b.order[n];
    assert x in b.order;
    forall k | n <= k < |b.order|
      ensures !Needs(b, b.order[k], x)
    {
      OrderSplits(b, k);
      assert b.order[..k + 1][n] == x;
    }
    LaterGrows(b, platforms, n, |b.order|, x);
  }

  // What linking one item does to a dependency's final build platforms.
  lemma LinkReaches(b: Build, platforms: Platforms, i: string, d: string, p: string)
    requires GoodBuild(b) && GoodPlatforms(b, platforms) && Needs(b, i, d) && d in b.items
    requires p in Final(b, platforms)[i] && Choice(b, i, d, p) != ""
    ensures var r := Final(b, platforms)[d];
            Choice(b, i, d, p) in r || (Declared(b, i, d) && p in r)
  {
    hide GoodSet, Spellable, SortedKeys, DependentsFirst, Choice, Declared, Distinct, At, GoodItem, WidenAll;
    assert i in b.order;
    var n := IndexOf(b.order, i);
    LinkedAt(b, platforms, n);
    AtKeeps(b, platforms, n);
    var before := At(b, platforms, n);
    LinkStep(b, platforms, n);
    KeysSpellable(b, before, i);
    WidenAllServes(b, i, SortedKeys(before[i]), b.items[i].deps, before, d, p);
    LaterGrows(b, platforms, n + 1, |b.order|, d);
  }

  // Every build platform of an item was there from the start or was chosen for one of
  // the items that depend on it.
  lemma {:induction false} PlatformHasReason(b: Build, platforms: Platforms, n: nat, d: string, q: string)
    requires GoodBuild(b) && GoodPlatforms(b, platforms) && n <= |b.order| && d in b.items
    requires q in At(b, platforms, n)[d] && q !in platforms[d]
    ensures exists i, p :: Asked(b, platforms, i, d, p) && q == Choice(b, i, d, p)
  {
    hide GoodSet, Spellable, SortedKeys, DependentsFirst, Choice, Distinct, Asked;
    if n > 0 {
      var before := At(b, platforms, n - 1);
      if q in before[d] {
        PlatformHasReason(b, platforms, n - 1, d, q);
      } else {
        var i := b.order[n - 1];
        LinkStep(b, platforms, n - 1);
        AtKeeps(b, platforms, n - 1);
        KeysSpellable(b, before, i);
        WidenAllNew(b, i, SortedKeys(before[i]), b.items[i].deps, before, d, q);
        var p :| p in SortedKeys(before[i]) && q == Choice(b, i, d, p);
        LinkedAt(b, platforms, n - 1);
        IsAsked(b, platforms, i, d, p);
      }
    }
  }

  // i depends on d and is built on p.
  ghost predicate Asked(b: Build, platforms: Platforms, i: string, d: string, p: string)
    requires GoodBuild(b) && platforms.Keys == b.items.Keys
  {
    Needs(b, i, d) && d in b.items && p in Final(b, platforms)[i]
  }

  lemma IsAsked(b: Build, platforms: Platforms, i: string, d: string, p: string)
    requires GoodBuild(b) && platforms.Keys == b.items.Keys
    requires i in b.items && d in b.items[i].deps && d in b.items && p in Final(b, platforms)[i]
    ensures Asked(b, platforms, i, d, p)
  {
  }

  // ---------- The graph ----------

  ghost function GraphAt(b: Build, platforms: Platforms, n: nat): Graph
    requires GoodBuild(b) && GoodPlatforms(b, platforms) && n <= |b.order|
  {
    if n == 0 then map[]
    else
      LinkStep(b, platforms, n - 1);
      AtKeeps(b, platforms, n - 1);
      GraphAt(b, platforms, n - 1) + Nodes(b, b.order[n - 1], At(b, platforms, n - 1)[b.order[n - 1]])
  }

  ghost function BuildGraph(b: Build, platforms: Platforms): Graph
    requires GoodBuild(b) && GoodPlatforms(b, platforms)
  {
    GraphAt(b, platforms, |b.order|)
  }

  // i is built on p, in the end.
  ghost predicate Built(b: Build, platforms: Platforms, i: string, p: string)
    requires GoodBuild(b) && platforms.Keys == b.items.Keys
  {
    i in b.items && p in Final(b, platforms)[i]
  }

  ghost predicate NodeIs(b: Build, platforms: Platforms, i: string, p: string, node: string)
    requires GoodBuild(b) && platforms.Keys == b.items.Keys
  {
    Built(b, platforms, i, p) && node == Node(b, i, p)
  }

  lemma FinalSpellable(b: Build, platforms: Platforms, i: string, p: string)
    requires GoodBuild(b) && GoodPlatforms(b, platforms) && Built(b, platforms, i, p)
    ensures Spellable(p) && (!b.items[i].all ==> p in Buildable(b.items[i]))
  {
    hide GoodBuild, At;
    AtKeeps(b, platforms, |b.order|);
    assert GoodSet(b.items[i], Final(b, platforms)[i]);
  }

  lemma NodesExact(b: Build, i: string, ps: set<string>)
    requires GoodBuild(b) && i in b.items && GoodSet(b.items[i], ps)
    ensures AllKnown(b, b.items[i].deps) && i in b.prefixes
    ensures forall p :: p in ps ==>
              Node(b, i, p) in Nodes(b, i, ps) && Nodes(b, i, ps)[Node(b, i, p)] == Targets(b, i, p, b.items[i].deps)
    ensures forall x :: x in Nodes(b, i, ps) ==> exists p :: p in ps && x == Node(b, i, p)
  {
    hide Targets, NodeName, ParseNode;
    DepsKnown(b, i);
    forall p | p in ps
      ensures Node(b, i, p) in Nodes(b, i, ps) && Nodes(b, i, ps)[Node(b, i, p)] == Targets(b, i, p, b.items[i].deps)
    {
      assert Spellable(p);
      ParseRoundTrip(b.prefixes[i], i, p);
      assert Node(b, i, p) in NodeSet(b, i, ps);
    }
  }

  lemma GraphStep(b: Build, platforms: Platforms, n: nat)
    requires GoodBuild(b) && GoodPlatforms(b, platforms) && n < |b.order|
    ensures b.order[n] in b.items && GoodSet(b.items[b.order[n]], Final(b, platforms)[b.order[n]])
    ensures GraphAt(b, platforms, n + 1) ==
              GraphAt(b, platforms, n) + Nodes(b, b.order[n], Final(b, platforms)[b.order[n]])
  {
    hide GoodSet, DependentsFirst, Distinct, At, Nodes;
    LinkStep(b, platforms, n);
    AtKeeps(b, platforms, n);
    LinkedAt(b, platforms, n);
  }

  lemma NodeNotOf(b: Build, platforms: Platforms, i: string, p: string, j: string)
    requires GoodBuild(b) && GoodPlatforms(b, platforms) && Built(b, platforms, i, p) && j in b.items && j != i
    ensures Node(b, i, p) !in Nodes(b, j, Final(b, platforms)[j])
  {
    hide GoodSet, At, Nodes, NodeName, DependentsFirst, Distinct;
    AtKeeps(b, platforms, |b.order|);
    NodesExact(b, j, Final(b, platforms)[j]);
    FinalSpellable(b, platforms, i, p);
    if Node(b, i, p) in Nodes(b, j, Final(b, platforms)[j]) {
      var q :| q in Final(b, platforms)[j] && Node(b, i, p) == Node(b, j, q);
      FinalSpellable(b, platforms, j, q);
      NodeInjective(b, j, q, i, p);
    }
  }

  // Each item is a node on each of its build platforms, with its dependencies' nodes as targets.
  lemma {:induction false} HasNode(b: Build, platforms: Platforms, n: nat, i: string, p: string)
    requires GoodBuild(b) && GoodPlatforms(b, platforms) && n <= |b.order|
    requires i in b.order[..n] && Built(b, platforms, i, p)
    ensures AllKnown(b, b.items[i].deps)
    ensures Node(b, i, p) in GraphAt(b, platforms, n)
    ensures GraphAt(b, platforms, n)[Node(b, i, p)] == Targets(b, i, p, b.items[i].deps)
  {
    hide GoodSet, GoodBuild, GraphAt, Targets, Final, Nodes, NodeName, AllKnown;
    var j := b.order[n - 1];
    GraphStep(b, platforms, n - 1);
    NodesExact(b, j, Final(b, platforms)[j]);
    DepsKnown(b, i);
    if j != i {
      assert b.order[..n] == b.order[..n - 1] + [j];
      HasNode(b, platforms, n - 1, i, p);
      NodeNotOf(b, platforms, i, p, j);
    }
  }

  lemma {:induction false} IsNode(b: Build, platforms: Platforms, n: nat, x: string)
    requires GoodBuild(b) && GoodPlatforms(b, platforms) && n <= |b.order| && x in GraphAt(b, platforms, n)
    ensures exists i, p :: i in b.order[..n] && NodeIs(b, platforms, i, p, x)
  {
    hide GoodBuild, GoodSet, GraphAt, Nodes, NodeName, At;
    if n == 0 {
      EmptyGraph(b, platforms);
    } else {
      var j := b.order[n - 1];
      GraphStep(b, platforms, n - 1);
      NodesExact(b, j, Final(b, platforms)[j]);
      if x in Nodes(b, j, Final(b, platforms)[j]) {
        var q :| q in Final(b, platforms)[j] && x == Node(b, j, q);
        assert NodeIs(b, platforms, j, q, x) && j == b.order[..n][n - 1];
      } else {
        IsNode(b, platforms, n - 1, x);
        assert b.order[..n] == b.order[..n - 1] + [j];
      }
    }
  }

  lemma EmptyGraph(b: Build, platforms: Platforms)
    requires GoodBuild(b) && GoodPlatforms(b, platforms)
    ensures GraphAt(b, platforms, 0) == map[]
  {
  }

  lemma {:induction false} TargetsExact(b: Build, i: string, p: string, deps: seq<string>, t: string)
    requires i in b.items && AllKnown(b, deps)
    ensures t in Targets(b, i, p, deps) <==> exists d :: d in deps && IsTarget(b, i, p, d, t)
  {
    hide Choice, NodeName;
    if deps != [] {
      var n := |deps| - 1;
      assert deps == deps[..n] + [deps[n]];
      TargetsExact(b, i, p, deps[..n], t);
      if d :| d in deps && IsTarget(b, i, p, d, t) {
        assert d in deps[..n] || d == deps[n];
      }
      assert deps[n] in deps;
    }
  }

  ghost predicate IsTarget(b: Build, i: string, p: string, d: string, t: string)
    requires i in b.items
  {
    d in b.items && d in b.prefixes && Choice(b, i, d, p) != "" && t == Node(b, d, Choice(b, i, d, p))
  }

  // The build graph, exactly: its nodes are the items on their build platforms, and item
  // i on p depends on d's node on the platform chosen for i, d and p.
  lemma BuildGraphExact(b: Build, platforms: Platforms, x: string, t: string)
    requires GoodBuild(b) && GoodPlatforms(b, platforms)
    ensures x in BuildGraph(b, platforms) <==> exists i, p :: NodeIs(b, platforms, i, p, x)
    ensures Edge(BuildGraph(b, platforms), x, t) <==> exists i, p, d :: LinksTo(b, platforms, i, p, d, x, t)
  {
    hide GoodSet, GraphAt, Targets, At, Choice, Built, DependentsFirst;
    var g := BuildGraph(b, platforms);
    assert b.order[..|b.order|] == b.order;
    if i, p :| NodeIs(b, platforms, i, p, x) {
      NodeBuilt(b, platforms, i, p, x);
      HasNode(b, platforms, |b.order|, i, p);
    }
    if i, p, d :| LinksTo(b, platforms, i, p, d, x, t) {
      NodeBuilt(b, platforms, i, p, x);
      HasNode(b, platforms, |b.order|, i, p);
      TargetsExact(b, i, p, b.items[i].deps, t);
    }
    if x in g {
      IsNode(b, platforms, |b.order|, x);
      var i, p :| NodeIs(b, platforms, i, p, x);
      NodeBuilt(b, platforms, i, p, x);
      HasNode(b, platforms, |b.order|, i, p);
      if t in g[x] {
        TargetsExact(b, i, p, b.items[i].deps, t);
        var d :| d in b.items[i].deps && IsTarget(b, i, p, d, t);
        assert LinksTo(b, platforms, i, p, d, x, t);
      }
    }
  }

  lemma NodeBuilt(b: Build, platforms: Platforms, i: string, p: string, x: string)
    requires GoodBuild(b) && platforms.Keys == b.items.Keys && NodeIs(b, platforms, i, p, x)
    ensures i in b.items && i in b.order && Built(b, platforms, i, p) && x == Node(b, i, p)
  {
  }

  ghost predicate LinksTo(b: Build, platforms: Platforms, i: string, p: string, d: string, x: string, t: string)
    requires GoodBuild(b) && platforms.Keys == b.items.Keys
  {
    NodeIs(b, platforms, i, p, x) && d in b.items[i].deps && IsTarget(b, i, p, d, t)
  }

  // ---------- The final check ----------

  // Where a platform type is declared for a dependency that is built on the dependent's
  // own platform, it is also built on the platform chosen.
  ghost predicate DeclaredServed(b: Build, platforms: Platforms)
    requires GoodBuild(b) && platforms.Keys == b.items.Keys
  {
    forall i, d, p :: Asked(b, platforms, i, d, p) && Declared(b, i, d) && Choice(b, i, d, p) != "" ==>
      p in Final(b, platforms)[d] ==> Choice(b, i, d, p) in Final(b, platforms)[d]
  }

  // Every target is a node of the graph exactly when declared platform types are served;
  // in particular always when none is declared.
  lemma UnknownsExact(b: Build, platforms: Platforms)
    requires GoodBuild(b) && GoodPlatforms(b, platforms)
    ensures NoUnknowns(BuildGraph(b, platforms)) <==> DeclaredServed(b, platforms)
  {
    hide GoodBuild, GoodSet, At, Choice, BuildGraph, Declared, NodeName;
    var g := BuildGraph(b, platforms);
    if NoUnknowns(g) {
      forall i, d, p | Asked(b, platforms, i, d, p) && Declared(b, i, d) && Choice(b, i, d, p) != ""
        ensures Choice(b, i, d, p) in Final(b, platforms)[d]
      {
        TargetKnown(b, platforms, i, d, p);
      }
    }
    if DeclaredServed(b, platforms) {
      forall x, t
        ensures !Missing(g, x, t)
      {
        if Missing(g, x, t) {
          BuildGraphExact(b, platforms, x, t);
          var i, p, d :| LinksTo(b, platforms, i, p, d, x, t);
          BuildGraphExact(b, platforms, t, t);
          LinkServed(b, platforms, i, d, p, x, t);
        }
      }
    }
  }

  lemma LinkServed(b: Build, platforms: Platforms, i: string, d: string, p: string, x: string, t: string)
    requires GoodBuild(b) && GoodPlatforms(b, platforms) && LinksTo(b, platforms, i, p, d, x, t)
    requires DeclaredServed(b, platforms)
    ensures NodeIs(b, platforms, d, Choice(b, i, d, p), t)
  {
    hide GoodBuild, GoodSet, At, Choice, Declared, NodeName;
    IsAsked(b, platforms, i, d, p);
    LinkReaches(b, platforms, i, d, p);
  }

  lemma TargetKnown(b: Build, platforms: Platforms, i: string, d: string, p: string)
    requires GoodBuild(b) && GoodPlatforms(b, platforms) && Asked(b, platforms, i, d, p) && Choice(b, i, d, p) != ""
    requires NoUnknowns(BuildGraph(b, platforms))
    ensures Choice(b, i, d, p) in Final(b, platforms)[d]
  {
    hide GoodSet, At, Choice, BuildGraph, NodeName, DependentsFirst, Distinct;
    var q := Choice(b, i, d, p);
    var x, t := Node(b, i, p), Node(b, d, q);
    assert LinksTo(b, platforms, i, p, d, x, t);
    BuildGraphExact(b, platforms, x, t);
    BuildGraphExact(b, platforms, t, t);
    assert !Missing(BuildGraph(b, platforms), x, t);
    var j, r :| NodeIs(b, platforms, j, r, t);
    FinalSpellable(b, platforms, i, p);
    FinalSpellable(b, platforms, j, r);
    ChoiceFits(b, i, d, p);
    NodeInjective(b, j, r, d, q);
  }

  // Going along an edge leads to a later item.
  lemma {:induction false} WalkGoesOn(
      b: Build, platforms: Platforms, w: seq<string>, x: string, y: string, i: string, p: string)
    requires GoodBuild(b) && GoodPlatforms(b, platforms)
    requires Walk(BuildGraph(b, platforms), w, x, y) && NodeIs(b, platforms, i, p, x)
    ensures exists j, q :: NodeIs(b, platforms, j, q, y) && i in b.order && j in b.order
              && IndexOf(b.order, i) <= IndexOf(b.order, j)
    decreases |w|
  {
    hide GoodSet, At, Choice, BuildGraph, NodeName, Distinct, GoodItem, Spellable;
    NodeBuilt(b, platforms, i, p, x);
    if |w| > 1 {
      var g := BuildGraph(b, platforms);
      assert w[1] in g[w[0]] && w[1] in g;
      ChainTail(g, w);
      EdgeGoesOn(b, platforms, x, w[1], i, p);
      var j, q :| NodeIs(b, platforms, j, q, w[1]) && Earlier(b.order, i, j);
      WalkGoesOn(b, platforms, w[1..], w[1], y, j, q);
    }
  }

  lemma EdgeGoesOn(b: Build, platforms: Platforms, x: string, y: string, i: string, p: string)
    requires GoodBuild(b) && GoodPlatforms(b, platforms) && NodeIs(b, platforms, i, p, x)
    requires Edge(BuildGraph(b, platforms), x, y) && y in BuildGraph(b, platforms)
    ensures exists j, q :: NodeIs(b, platforms, j, q, y) && Earlier(b.order, i, j)
  {
    hide GoodSet, At, Choice, BuildGraph, NodeName, Distinct, GoodItem, Earlier, Spellable, Targets;
    BuildGraphExact(b, platforms, x, y);
    BuildGraphExact(b, platforms, y, y);
    var i', p', d :| LinksTo(b, platforms, i', p', d, x, y);
    FinalSpellable(b, platforms, i, p);
    FinalSpellable(b, platforms, i', p');
    NodeInjective(b, i, p, i', p');
    var j, q :| NodeIs(b, platforms, j, q, y);
    FinalSpellable(b, platforms, j, q);
    ChoiceFits(b, i, d, p);
    NodeInjective(b, j, q, d, Choice(b, i, d, p));
    assert Needs(b, i, d);
  }

  lemma NotOnCycle(b: Build, platforms: Platforms, x: string)
    requires GoodBuild(b) && GoodPlatforms(b, platforms)
    ensures !OnCycle(BuildGraph(b, platforms), x)
  {
    hide GoodSet, At, Choice, BuildGraph, NodeName, Distinct, GoodItem, Spellable, NodeIs;
    var g := BuildGraph(b, platforms);
    if OnCycle(g, x) {
      var y :| y in g && x in g[y] && Reaches(g, x, y);
      var w :| Walk(g, w, x, y);
      assert w[0] in g;
      BuildGraphExact(b, platforms, x, x);
      var i, p :| NodeIs(b, platforms, i, p, x);
      WalkGoesOn(b, platforms, w, x, y, i, p);
      var j, q :| NodeIs(b, platforms, j, q, y) && i in b.order && j in b.order
            && IndexOf(b.order, i) <= IndexOf(b.order, j);
      EdgeGoesOn(b, platforms, y, x, j, q);
      var k, r :| NodeIs(b, platforms, k, r, x) && Earlier(b.order, j, k);
      SameNode(b, platforms, i, p, k, r, x);
    }
  }

  lemma BuildGraphAcyclic(b: Build, platforms: Platforms)
    requires GoodBuild(b) && GoodPlatforms(b, platforms)
    ensures Acyclic(BuildGraph(b, platforms))
  {
    hide GoodBuild, GoodSet, BuildGraph, OnCycle;
    forall x | x in BuildGraph(b, platforms)
      ensures !OnCycle(BuildGraph(b, platforms), x)
    {
      NotOnCycle(b, platforms, x);
    }
  }

  lemma SameNode(b: Build, platforms: Platforms, i: string, p: string, j: string, q: string, x: string)
    requires GoodBuild(b) && GoodPlatforms(b, platforms) && NodeIs(b, platforms, i, p, x)
               && NodeIs(b, platforms, j, q, x)
    ensures i == j && p == q
  {
    hide GoodSet, At, NodeName;
    FinalSpellable(b, platforms, i, p);
    FinalSpellable(b, platforms, j, q);
    NodeInjective(b, i, p, j, q);
  }

  // An item of type "all" is built on the platforms it starts with and on those of
  // everything that depends on it.
  lemma AllPlatformsExact(b: Build, platforms: Platforms, d: string, q: string)
    requires GoodBuild(b) && GoodPlatforms(b, platforms) && d in b.items && b.items[d].all
    requires forall i :: i in b.items && d in b.items[i].deps ==> !Declared(b, i, d)
    ensures q in Final(b, platforms)[d] <==> q in platforms[d] || exists i :: Asked(b, platforms, i, d, q)
  {
    hide GoodSet, At, Choice, Declared, GoodItem, Spellable, DependentsFirst;
    if q in Final(b, platforms)[d] && q !in platforms[d] {
      PlatformHasReason(b, platforms, |b.order|, d, q);
      var i, p :| Asked(b, platforms, i, d, p) && q == Choice(b, i, d, p);
      FinalSpellable(b, platforms, i, p);
      ChoiceFits(b, i, d, p);
    }
    if q in platforms[d] {
      LaterGrows(b, platforms, 0, |b.order|, d);
      assert b.order[..0] == [];
      StartPlatforms(b, platforms);
    }
    if i :| Asked(b, platforms, i, d, q) {
      FinalSpellable(b, platforms, i, q);
      ChoiceFits(b, i, d, q);
      NonEmptySpelling(q);
      LinkReaches(b, platforms, i, d, q);
    }
  }

  lemma StartPlatforms(b: Build, platforms: Platforms)
    requires GoodBuild(b) && platforms.Keys == b.items.Keys
    ensures At(b, platforms, 0) == platforms
  {
  }

  lemma NonEmptySpelling(q: string)
    requires Spellable(q)
    ensures q != ""
  {
  }

  // ---------- A declared platform type that is not served ----------

  ghost const LIBRARY: Item := Item(false, false, [], map[], map["native" := ["p"], "java" := ["j"]], map[])
  ghost const PROGRAM: Item := Item(false, false, ["lib"], map["lib" := ("java", None)], map["native" := ["p"]], map[])
  ghost const TRAP: Build := Build(map["app" := PROGRAM, "lib" := LIBRARY], map["app" := "1", "lib" := "1"],
    ["app", "lib"], map[])
  ghost const STARTED: Platforms := map["app" := {"p"}, "lib" := {"p"}]

  lemma TrapOrder()
    ensures DependentsFirst(TRAP) && Distinct(TRAP.order) && forall i :: i in TRAP.order <==> i in TRAP.items
  {
    forall i, d | Needs(TRAP, i, d)
      ensures Earlier(TRAP.order, i, d)
    {
      assert i == "app" && d == "lib";
      assert TRAP.order[1..] == ["lib"];
    }
  }

  lemma TrapItems()
    ensures GoodItem(LIBRARY) && GoodItem(PROGRAM)
    ensures GoodSet(LIBRARY, {"p"}) && GoodSet(PROGRAM, {"p"})
  {
    assert Spellable("p") && Spellable("j");
    assert "p" in LIBRARY.types["native"] && "p" in PROGRAM.types["native"];
  }

  lemma TrapNames()
    ensures Spellable("app") && Spellable("lib") && Spellable("1")
  {
  }

  lemma TrapIsGood()
    ensures GoodBuild(TRAP) && GoodPlatforms(TRAP, STARTED)
  {
    hide GoodItem, GoodSet, DependentsFirst, Distinct, Spellable;
    TrapNames();
    TrapOrder();
    TrapItems();
    assert GoodPlatforms(TRAP, STARTED);
    forall i | i in TRAP.items
      ensures Spellable(i) && Spellable(TRAP.prefixes[i]) && GoodItem(TRAP.items[i])
    {
      assert i == "app" || i == "lib";
    }
  }

  lemma SingleKey(x: string)
    ensures SortedKeys({x}) == [x]
  {
    SortedKeysStep({x}, x);
    assert {x} - {x} == {};
  }

  lemma TrapChoice()
    ensures Choice(TRAP, "app", "lib", "p") == "j" && Declared(TRAP, "app", "lib")
    ensures AllKnown(TRAP, ["lib"]) && WidenAll(TRAP, "app", ["p"], ["lib"], STARTED) == STARTED
  {
    assert ["p"][..0] == [] && ["lib"][..0] == [];
    assert Widen(TRAP, "app", "lib", ["p"], {"p"}) == {"p"};
    assert WidenAll(TRAP, "app", ["p"], [], STARTED) == STARTED;
  }

  // app is built on p and declares a dependency on lib for Java.  lib is built on p too, so
  // the test of app's own platform finds nothing to add, and the Java node of lib is missing.
  lemma DeclaredTypeMissed()
    ensures GoodBuild(TRAP) && GoodPlatforms(TRAP, STARTED)
    ensures !NoUnknowns(BuildGraph(TRAP, STARTED))
  {
    hide GoodBuild, GoodPlatforms, Choice, Declared, WidenAll, At, BuildGraph, AllKnown;
    TrapIsGood();
    TrapChoice();
    SingleKey("p");
    StartPlatforms(TRAP, STARTED);
    LinkStep(TRAP, STARTED, 0);
    LinkedAt(TRAP, STARTED, 0);
    LinkedAt(TRAP, STARTED, 1);
    assert Asked(TRAP, STARTED, "app", "lib", "p");
    UnknownsExact(TRAP, STARTED);
  }
}
