// Which targets of the build graph are nodes of it: the guard of src/Abuild-build.cc:458 at
// the moment an item is linked, and what can be said before the graph is built.
module BuildGraphTargets {
  import opened Names
  import opened Traversal
  import opened Evaluation
  import opened BuildItems
  import opened BuildGraphs

  // ---------- The guard ----------

  // Some platform of the dependent is none of the dependency's build platforms.
  ghost predicate Uncovered(mine: set<string>, have: set<string>)
  {
    exists p :: p in mine && p !in have
  }

  // The build platforms after linking to a dependency with a declared platform type, for
  // which q is chosen.
  ghost function Guarded(mine: set<string>, have: set<string>, q: string): set<string>
  {
    if q != "" && Uncovered(mine, have) then have + {q} else have
  }

  // The choice for a declared type is the same for every platform of the dependent.
  lemma ChoiceSame(b: Build, i: string, d: string, p: string, r: string)
    requires i in b.items && d in b.items && Declared(b, i, d)
    ensures Choice(b, i, d, p) == Choice(b, i, d, r)
  {
  }

  ghost function Members(ps: seq<string>): set<string>
  {
    set p | p in ps
  }

  lemma {:induction false} WidenDeclared(b: Build, i: string, d: string, ps: seq<string>, have: set<string>, p: string)
    requires i in b.items && d in b.items && Declared(b, i, d)
    ensures Widen(b, i, d, ps, have) == Guarded(Members(ps), have, Choice(b, i, d, p))
  {
    hide Choice, Declared;
    if ps != [] {
      var n := |ps| - 1;
      WidenDeclared(b, i, d, ps[..n], have, p);
      ChoiceSame(b, i, d, p, ps[n]);
      assert ps == ps[..n] + [ps[n]];
      assert forall r :: r in Members(ps) <==> r == ps[n] || r in Members(ps[..n]);
    }
  }

  lemma GuardedTwice(mine: set<string>, have: set<string>, q: string)
    ensures Guarded(mine, Guarded(mine, have, q), q) == Guarded(mine, have, q)
  {
  }

  lemma {:induction false} WidenAllDeclared(
      b: Build, i: string, ps: seq<string>, deps: seq<string>, platforms: Platforms, d: string, p: string)
    requires GoodBuild(b) && i in b.items && AllKnown(b, deps) && GoodPlatforms(b, platforms)
    requires (forall p :: p in ps ==> Spellable(p)) && d in deps && d in b.items && Declared(b, i, d)
    ensures WidenAll(b, i, ps, deps, platforms)[d] == Guarded(Members(ps), platforms[d], Choice(b, i, d, p))
  {
    hide GoodBuild, GoodSet, Spellable, Choice, Declared, Guarded, Widen, Members;
    var n := |deps| - 1;
    assert deps == deps[..n] + [deps[n]];
    var before := WidenAll(b, i, ps, deps[..n], platforms);
    WidenAllKeeps(b, i, ps, deps[..n], platforms);
    if d in deps[..n] {
      WidenAllDeclared(b, i, ps, deps[..n], platforms, d, p);
    }
    if deps[n] == d {
      WidenDeclared(b, i, d, ps, before[d], p);
      GuardedTwice(Members(ps), platforms[d], Choice(b, i, d, p));
    }
  }

  // Linking the item at position n to a dependency with a declared platform type: the
  // platform chosen is added when a platform of the item, not that platform, is missing.
  lemma LinkDeclaredExact(b: Build, platforms: Platforms, n: nat, d: string, p: string)
    requires GoodBuild(b) && GoodPlatforms(b, platforms) && n < |b.order|
    requires Needs(b, b.order[n], d) && d in b.items && Declared(b, b.order[n], d)
    ensures At(b, platforms, n + 1)[d] ==
            Guarded(At(b, platforms, n)[b.order[n]], At(b, platforms, n)[d], Choice(b, b.order[n], d, p))
  {
    hide GoodBuild, GoodSet, Spellable, Choice, Declared, Guarded, At, SortedKeys;
    var i, before := b.order[n], At(b, platforms, n);
    LinkStep(b, platforms, n);
    AtKeeps(b, platforms, n);
    KeysSpellable(b, before, i);
    WidenAllDeclared(b, i, SortedKeys(before[i]), b.items[i].deps, before, d, p);
    assert Members(SortedKeys(before[i])) == before[i];
  }

  // ---------- Who supplies a platform ----------

  // Linking the item at position m makes q a build platform of its dependency d.
  ghost predicate Supplies(b: Build, platforms: Platforms, m: nat, d: string, q: string)
    requires GoodBuild(b) && GoodPlatforms(b, platforms)
  {
    && m < |b.order| && Needs(b, b.order[m], d) && d in b.items && q != ""
    && (exists p :: p in At(b, platforms, m)[b.order[m]] && Choice(b, b.order[m], d, p) == q)
    && (Declared(b, b.order[m], d) ==> Uncovered(At(b, platforms, m)[b.order[m]], At(b, platforms, m)[d]))
  }

  lemma SuppliedByLink(b: Build, platforms: Platforms, m: nat, d: string, q: string)
    requires GoodBuild(b) && GoodPlatforms(b, platforms) && Supplies(b, platforms, m, d, q)
    ensures q in At(b, platforms, m + 1)[d]
  {
    hide GoodBuild, GoodSet, Spellable, Choice, Declared, Guarded, At, SortedKeys, Uncovered;
    var i, before := b.order[m], At(b, platforms, m);
    var p :| p in before[i] && Choice(b, i, d, p) == q;
    if Declared(b, i, d) {
      LinkDeclaredExact(b, platforms, m, d, p);
      assert Guarded(before[i], before[d], q) == before[d] + {q} by { GuardOpen(before[i], before[d], q); }
    } else {
      LinkStep(b, platforms, m);
      AtKeeps(b, platforms, m);
      KeysSpellable(b, before, i);
      WidenAllServes(b, i, SortedKeys(before[i]), b.items[i].deps, before, d, p);
    }
  }

  lemma GuardOpen(mine: set<string>, have: set<string>, q: string)
    requires q != ""
    ensures Uncovered(mine, have) ==> Guarded(mine, have, q) == have + {q}
    ensures !Uncovered(mine, have) ==> Guarded(mine, have, q) == have
  {
  }

  lemma NewIsSupplied(b: Build, platforms: Platforms, m: nat, d: string, q: string)
    requires GoodBuild(b) && GoodPlatforms(b, platforms) && m < |b.order| && d in b.items
    requires q in At(b, platforms, m + 1)[d] && q !in At(b, platforms, m)[d]
    ensures Supplies(b, platforms, m, d, q)
  {
    hide GoodBuild, GoodSet, Choice, Declared, Guarded, At, SortedKeys, Uncovered;
    var i, before := b.order[m], At(b, platforms, m);
    LinkStep(b, platforms, m);
    AtKeeps(b, platforms, m);
    AtKeeps(b, platforms, m + 1);
    assert q != "" by { SpelledPlatform(b, At(b, platforms, m + 1), d, q); }
    KeysSpellable(b, before, i);
    WidenAllNew(b, i, SortedKeys(before[i]), b.items[i].deps, before, d, q);
    var p :| p in SortedKeys(before[i]) && q == Choice(b, i, d, p);
    if Declared(b, i, d) {
      LinkDeclaredExact(b, platforms, m, d, p);
      GuardOpen(before[i], before[d], q);
    }
  }

  lemma SpelledPlatform(b: Build, platforms: Platforms, d: string, q: string)
    requires GoodPlatforms(b, platforms) && d in b.items && q in platforms[d]
    ensures CanHave(b.items[d], q) && q != ""
  {
    assert GoodSet(b.items[d], platforms[d]);
  }

  ghost predicate SuppliedBefore(b: Build, platforms: Platforms, n: nat, d: string, q: string)
    requires GoodBuild(b) && GoodPlatforms(b, platforms)
  {
    exists m: nat :: m < n && Supplies(b, platforms, m, d, q)
  }

  // The build platforms of an item are those it starts with and those its dependents
  // have supplied.
  lemma {:induction false} PlatformsExact(b: Build, platforms: Platforms, n: nat, d: string, q: string)
    requires GoodBuild(b) && GoodPlatforms(b, platforms) && n <= |b.order| && d in b.items
    ensures q in At(b, platforms, n)[d] <==> q in platforms[d] || SuppliedBefore(b, platforms, n, d, q)
  {
    hide GoodBuild, GoodSet, Supplies, At;
    if n == 0 {
      StartPlatforms(b, platforms);
    } else {
      PlatformsExact(b, platforms, n - 1, d, q);
      StepGrows(b, platforms, n - 1, d);
      if q in At(b, platforms, n)[d] && q !in At(b, platforms, n - 1)[d] {
        NewIsSupplied(b, platforms, n - 1, d, q);
      }
      if Supplies(b, platforms, n - 1, d, q) {
        SuppliedByLink(b, platforms, n - 1, d, q);
      }
    }
  }

  // ---------- When the check finds no unknown target ----------

  // The item at position n is linked to d for platform p.
  ghost predicate LinkedOn(b: Build, platforms: Platforms, n: nat, d: string, p: string)
    requires GoodBuild(b) && GoodPlatforms(b, platforms)
  {
    n < |b.order| && Needs(b, b.order[n], d) && d in b.items && p in At(b, platforms, n)[b.order[n]]
  }

  // The platform chosen for p is one the dependency starts with, or is supplied.
  ghost predicate ChosenSupplied(b: Build, platforms: Platforms, n: nat, d: string, p: string)
    requires GoodBuild(b) && GoodPlatforms(b, platforms) && LinkedOn(b, platforms, n, d, p)
  {
    var q := Choice(b, b.order[n], d, p);
    q == "" || q in platforms[d] || SuppliedBefore(b, platforms, |b.order|, d, q)
  }

  // Every platform chosen for a declared type is there from the start, or supplied: by
  // the item that declares it, when a platform of its own is missing, or by another one.
  ghost predicate DeclaredSupplied(b: Build, platforms: Platforms)
    requires GoodBuild(b) && GoodPlatforms(b, platforms)
  {
    forall n: nat, d, p :: LinkedOn(b, platforms, n, d, p) && Declared(b, b.order[n], d) ==>
      ChosenSupplied(b, platforms, n, d, p)
  }

  lemma LinkedIsAsked(b: Build, platforms: Platforms, n: nat, d: string, p: string)
    requires GoodBuild(b) && GoodPlatforms(b, platforms) && LinkedOn(b, platforms, n, d, p)
    ensures Asked(b, platforms, b.order[n], d, p)
  {
    hide At;
    LinkedAt(b, platforms, n);
  }

  lemma AskedIsLinked(b: Build, platforms: Platforms, i: string, d: string, p: string)
    requires GoodBuild(b) && GoodPlatforms(b, platforms) && Asked(b, platforms, i, d, p)
    ensures i in b.order && LinkedOn(b, platforms, IndexOf(b.order, i), d, p)
  {
    hide At;
    LinkedAt(b, platforms, IndexOf(b.order, i));
  }

  // Every target of the build graph is one of its nodes exactly when that is so.
  lemma TargetsKnownExact(b: Build, platforms: Platforms)
    requires GoodBuild(b) && GoodPlatforms(b, platforms)
    ensures NoUnknowns(BuildGraph(b, platforms)) <==> DeclaredSupplied(b, platforms)
  {
    hide GoodBuild, GoodSet, BuildGraph, At, Choice, Declared, SuppliedBefore;
    if NoUnknowns(BuildGraph(b, platforms)) {
      forall n: nat, d, p | LinkedOn(b, platforms, n, d, p)
        ensures ChosenSupplied(b, platforms, n, d, p)
      {
        LinkedIsAsked(b, platforms, n, d, p);
        if Choice(b, b.order[n], d, p) != "" {
          TargetKnown(b, platforms, b.order[n], d, p);
        }
        PlatformsExact(b, platforms, |b.order|, d, Choice(b, b.order[n], d, p));
      }
    }
    if DeclaredSupplied(b, platforms) {
      forall i, d, p | Asked(b, platforms, i, d, p) && Declared(b, i, d) && Choice(b, i, d, p) != ""
        ensures Choice(b, i, d, p) in Final(b, platforms)[d]
      {
        AskedIsLinked(b, platforms, i, d, p);
        PlatformsExact(b, platforms, |b.order|, d, Choice(b, i, d, p));
      }
      UnknownsExact(b, platforms);
    }
  }

  // ---------- What can be told from the start ----------

  predicate CanHave(item: Item, p: string)
  {
    Spellable(p) && (item.all || p in Buildable(item))
  }

  // For every declared dependency: the platform chosen is there, or is a platform of the
  // item itself, or the item has a platform that the dependency cannot have.
  ghost predicate ServedFromStart(b: Build, platforms: Platforms)
    requires GoodBuild(b) && GoodPlatforms(b, platforms)
  {
    forall i, d, p :: Needs(b, i, d) && d in b.items && Declared(b, i, d) && CanHave(b.items[i], p) ==>
      var q := Choice(b, i, d, p);
      || q == "" || q in platforms[d]
      || p == q || !CanHave(b.items[d], p)
      || (exists r :: r in platforms[i] && (r == q || !CanHave(b.items[d], r)))
  }

  lemma OwnPlatformSupplies(b: Build, platforms: Platforms, n: nat, d: string, p: string, r: string)
    requires GoodBuild(b) && GoodPlatforms(b, platforms) && LinkedOn(b, platforms, n, d, p)
    requires r in At(b, platforms, n)[b.order[n]]
    requires r == Choice(b, b.order[n], d, p) || !CanHave(b.items[d], r)
    ensures ChosenSupplied(b, platforms, n, d, p)
  {
    hide GoodBuild, GoodSet, At, Choice, Declared, CanHave;
    var q := Choice(b, b.order[n], d, p);
    AtKeeps(b, platforms, n);
    if q in At(b, platforms, n)[d] {
      PlatformsExact(b, platforms, n, d, q);
    } else if q != "" {
      if r in At(b, platforms, n)[d] {
        SpelledPlatform(b, At(b, platforms, n), d, r);
      }
      assert Supplies(b, platforms, n, d, q);
    }
  }

  // Then the graph passes the check.
  lemma ServedFromStartSuffices(b: Build, platforms: Platforms)
    requires GoodBuild(b) && GoodPlatforms(b, platforms) && ServedFromStart(b, platforms)
    ensures NoUnknowns(BuildGraph(b, platforms))
  {
    hide GoodBuild, GoodSet, BuildGraph, At, Choice, Declared, CanHave, SuppliedBefore;
    forall n: nat, d, p | LinkedOn(b, platforms, n, d, p) && Declared(b, b.order[n], d)
      ensures ChosenSupplied(b, platforms, n, d, p)
    {
      var i, q := b.order[n], Choice(b, b.order[n], d, p);
      AtKeeps(b, platforms, n);
      SpelledPlatform(b, At(b, platforms, n), i, p);
      if q != "" && q !in platforms[d] {
        if p == q || !CanHave(b.items[d], p) {
          OwnPlatformSupplies(b, platforms, n, d, p, p);
        } else {
          var r :| r in platforms[i] && (r == q || !CanHave(b.items[d], r));
          LaterGrows(b, platforms, 0, n, i);
          StartPlatforms(b, platforms);
          OwnPlatformSupplies(b, platforms, n, d, p, r);
        }
      }
    }
    TargetsKnownExact(b, platforms);
  }

  // An item and a dependency for which it declares a platform type have no platform in
  // common, except for the one chosen.
  ghost predicate PlatformsApart(b: Build)
  {
    forall i, d, p :: Needs(b, i, d) && d in b.items && Declared(b, i, d) && CanHave(b.items[i], p) ==>
      Choice(b, i, d, p) == "" || p == Choice(b, i, d, p) || !CanHave(b.items[d], p)
  }

  ghost predicate PassesFromAnyStart(b: Build)
    requires GoodBuild(b)
  {
    forall platforms: Platforms :: GoodPlatforms(b, platforms) ==> NoUnknowns(BuildGraph(b, platforms))
  }

  // A dependency for which a platform type is declared has no other dependents.
  ghost predicate SoleDependents(b: Build)
  {
    forall i, j, d :: Needs(b, i, d) && Declared(b, i, d) && Needs(b, j, d) ==> i == j
  }

  lemma NoKeys()
    ensures SortedKeys({}) == []
  {
  }

  lemma {:induction false} NothingWidened(b: Build, i: string, deps: seq<string>, platforms: Platforms)
    requires i in b.items && AllKnown(b, deps) && platforms.Keys == b.items.Keys
    ensures WidenAll(b, i, [], deps, platforms) == platforms
  {
    if deps != [] {
      var n := |deps| - 1;
      assert deps[n] in deps;
      NothingWidened(b, i, deps[..n], platforms);
      assert platforms[deps[n] := platforms[deps[n]]] == platforms;
    }
  }

  // The start at which i and d are to be built on p, and nothing else is to be built.
  ghost function OnlyOn(b: Build, i: string, d: string, p: string): Platforms
  {
    map x | x in b.items :: if x == i || x == d then {p} else {}
  }

  lemma OnlyOnIsGood(b: Build, i: string, d: string, p: string)
    requires i in b.items && d in b.items && CanHave(b.items[i], p) && CanHave(b.items[d], p)
    ensures GoodPlatforms(b, OnlyOn(b, i, d, p))
  {
  }

  // Linking an item that is not built changes nothing.
  lemma UnbuiltLink(b: Build, platforms: Platforms, n: nat)
    requires GoodBuild(b) && GoodPlatforms(b, platforms) && n < |b.order|
    requires b.order[n] in b.items && At(b, platforms, n)[b.order[n]] == {}
    ensures At(b, platforms, n + 1) == At(b, platforms, n)
  {
    hide GoodBuild, GoodSet, At, WidenAll, SortedKeys;
    LinkStep(b, platforms, n);
    NoKeys();
    NothingWidened(b, b.order[n], b.items[b.order[n]].deps, At(b, platforms, n));
  }

  // Until i is linked nothing changes.
  lemma {:induction false} NothingBefore(b: Build, i: string, d: string, p: string, n: nat)
    requires GoodBuild(b) && GoodPlatforms(b, OnlyOn(b, i, d, p)) && Needs(b, i, d)
    requires i in b.order && n <= IndexOf(b.order, i)
    ensures At(b, OnlyOn(b, i, d, p), n) == OnlyOn(b, i, d, p)
  {
    hide GoodSet, At, GoodBuild;
    var start := OnlyOn(b, i, d, p);
    if n == 0 {
      StartPlatforms(b, start);
    } else {
      NothingBefore(b, i, d, p, n - 1);
      NotYet(b, i, d, n - 1);
      UnbuiltLink(b, start, n - 1);
    }
  }

  lemma NotYet(b: Build, i: string, d: string, n: nat)
    requires GoodBuild(b) && Needs(b, i, d) && i in b.order && n < IndexOf(b.order, i)
    ensures b.order[n] in b.items && b.order[n] != i && b.order[n] != d
  {
    hide GoodItem, Spellable, Distinct;
    assert b.order[n] in b.order;
    assert Earlier(b.order, i, d);
    IndexOfFirst(b.order, b.order[n], n);
  }

  // Platforms apart are enough to pass the check whatever is to be built, and where each
  // such dependency has one dependent they are needed, too.
  lemma AnyStartExact(b: Build)
    requires GoodBuild(b)
    ensures PlatformsApart(b) ==> PassesFromAnyStart(b)
    ensures SoleDependents(b) && PassesFromAnyStart(b) ==> PlatformsApart(b)
  {
    hide GoodBuild, GoodSet, BuildGraph, Choice, Declared, CanHave;
    if PlatformsApart(b) {
      forall platforms: Platforms | GoodPlatforms(b, platforms)
        ensures NoUnknowns(BuildGraph(b, platforms))
      {
        ServedFromStartSuffices(b, platforms);
      }
    }
    if SoleDependents(b) && PassesFromAnyStart(b) {
      forall i, d, p | Needs(b, i, d) && d in b.items && Declared(b, i, d) && CanHave(b.items[i], p)
        ensures Choice(b, i, d, p) == "" || p == Choice(b, i, d, p) || !CanHave(b.items[d], p)
      {
        if Choice(b, i, d, p) != "" && p != Choice(b, i, d, p) && CanHave(b.items[d], p) {
          OnlyOnIsGood(b, i, d, p);
          FailsFrom(b, i, d, p);
        }
      }
    }
  }

  lemma FailsFrom(b: Build, i: string, d: string, p: string)
    requires GoodBuild(b) && GoodPlatforms(b, OnlyOn(b, i, d, p)) && SoleDependents(b)
    requires Needs(b, i, d) && d in b.items && Declared(b, i, d)
    requires Choice(b, i, d, p) != "" && p != Choice(b, i, d, p)
    ensures !NoUnknowns(BuildGraph(b, OnlyOn(b, i, d, p)))
  {
    hide GoodSet, BuildGraph, At, Choice, Declared, DependentsFirst, Distinct, GoodItem, Spellable;
    var start, q := OnlyOn(b, i, d, p), Choice(b, i, d, p);
    assert i in b.order;
    var n := IndexOf(b.order, i);
    NothingBefore(b, i, d, p, n);
    assert LinkedOn(b, start, n, d, p);
    if SuppliedBefore(b, start, |b.order|, d, q) {
      var m: nat :| m < |b.order| && Supplies(b, start, m, d, q);
      assert b.order[m] == i;
      SamePosition(b, n, m);
      assert false;
    }
    TargetsKnownExact(b, start);
  }

  lemma SamePosition(b: Build, n: nat, m: nat)
    requires GoodBuild(b) && n < |b.order| && m < |b.order| && b.order[n] == b.order[m]
    ensures n == m
  {
  }
}
