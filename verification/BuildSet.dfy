// Which items are built (src/Abuild-buildset.cc): the set selected on the command line,
// expanded by dependencies, build-also, reverse dependencies and traits.
module BuildSets {
  import opened Names
  import opened Paths

  datatype BuildAlso = BuildAlso(name: string, isTree: bool, desc: bool, withTreeDeps: bool)

  // deps are the direct dependencies that exist, expanded all direct and indirect ones.
  datatype Item = Item(
    deps: seq<string>, expanded: seq<string>, buildAlso: seq<BuildAlso>, traits: map<string, set<string>>,
    plugins: seq<string>, local: bool, tree: string, path: string)

  // treeDeps: the tree itself and the trees it depends on, directly or not.
  datatype Tree = Tree(treeDeps: set<string>, root: string)

  datatype Project = Project(items: map<string, Item>, trees: map<string, Tree>)

  datatype Options = Options(
    onlyWithTraits: seq<string>, addDependencies: bool, withRdeps: bool, relatedByTraits: seq<string>,
    repeatExpansion: bool)

  ghost predicate GoodProject(p: Project)
  {
    && (forall x, d :: x in p.items && d in p.items[x].expanded ==> d in p.items)
    && (forall x, d :: x in p.items && d in p.items[x].plugins ==> d in p.items)
    && (forall x, a :: x in p.items && a in p.items[x].buildAlso ==>
         if a.isTree then a.name in p.trees else a.name in p.items)
  }

  // ---------- The four ways to grow ----------

  predicate HasTraits(item: Item, traits: seq<string>)
  {
    forall t :: t in traits ==> t in item.traits
  }

  // itemIsInBuildAlso for one entry
  predicate InBuildAlso(p: Project, x: string, a: BuildAlso)
    requires x in p.items && if a.isTree then a.name in p.trees else a.name in p.items
  {
    var item := p.items[x];
    if a.isTree then
      var tree := p.trees[a.name];
      if a.withTreeDeps then item.tree in tree.treeDeps && (a.desc ==> IsDirUnder(item.path, tree.root))
      else if a.desc then IsDirUnder(item.path, tree.root)
      else item.tree == a.name
    else if a.desc then IsDirUnder(item.path, p.items[a.name].path)
    else x == a.name
  }

  // path is root or lies below it, by components; below "/" lies nothing.
  ghost predicate AtOrBelow(path: seq<string>, root: seq<string>)
  {
    if |root| == 1 then |path| == 1 else root <= path
  }

  // An entry that names an item means this item, or all items at or below its directory; one that
  // names a tree means the items of the tree, those at or below its root, the items of the tree and
  // the trees it depends on, or those of them that are at or below its root.
  lemma InBuildAlsoExact(p: Project, x: string, a: BuildAlso, path: seq<string>, root: seq<string>)
    requires x in p.items && if a.isTree then a.name in p.trees else a.name in p.items
    requires Clean(path) && Clean(root) && p.items[x].path == Spelled(path)
    requires (if a.isTree then p.trees[a.name].root else p.items[a.name].path) == Spelled(root)
    ensures !a.isTree && !a.desc ==> (InBuildAlso(p, x, a) <==> x == a.name)
    ensures !a.isTree && a.desc ==> (InBuildAlso(p, x, a) <==> AtOrBelow(path, root))
    ensures a.isTree && !a.withTreeDeps ==>
              (InBuildAlso(p, x, a) <==> if a.desc then AtOrBelow(path, root) else p.items[x].tree == a.name)
    ensures a.isTree && a.withTreeDeps ==>
              (InBuildAlso(p, x, a) <==>
                 p.items[x].tree in p.trees[a.name].treeDeps && (a.desc ==> AtOrBelow(path, root)))
  {
    hide IsDirUnder, Spelled;
    IsDirUnderExact(path, root);
  }

  // What populateBuildset may add.
  predicate Selectable(p: Project, o: Options, x: string)
  {
    x in p.items && p.items[x].local && HasTraits(p.items[x], o.onlyWithTraits)
  }

  ghost predicate ByDependency(p: Project, s: set<string>, x: string)
  {
    exists y :: y in s && y in p.items && x in p.items[y].expanded
  }

  ghost predicate ByBuildAlso(p: Project, o: Options, s: set<string>, x: string)
    requires GoodProject(p)
  {
    Selectable(p, o, x) && exists y, a :: y in s && y in p.items && a in p.items[y].buildAlso && InBuildAlso(p, x, a)
  }

  ghost predicate ByReverseDependency(p: Project, s: set<string>, x: string)
  {
    x in p.items && exists d :: d in p.items[x].deps && d in s
  }

  predicate Refers(item: Item, t: string, s: set<string>)
  {
    t in item.traits && item.traits[t] * s != {}
  }

  ghost predicate ByTraits(p: Project, o: Options, s: set<string>, x: string)
  {
    x in p.items && o.relatedByTraits != [] && forall t :: t in o.relatedByTraits ==> Refers(p.items[x], t, s)
  }

  // When the rules apply, from the items alone.
  lemma RulesExact(p: Project, o: Options, s: set<string>, x: string)
    requires GoodProject(p)
    ensures Selectable(p, o, x) <==>
            x in p.items && p.items[x].local && forall t :: t in o.onlyWithTraits ==> t in p.items[x].traits
    ensures ByReverseDependency(p, s, x) <==> x in p.items && exists y :: y in s && y in p.items[x].deps
    ensures o.relatedByTraits != [] ==>
              (ByTraits(p, o, s, x) <==>
                 x in p.items && forall t :: t in o.relatedByTraits ==>
                   t in p.items[x].traits && exists y :: y in s && y in p.items[x].traits[t])
    ensures o.relatedByTraits == [] ==> !ByTraits(p, o, s, x)
  {
    if x in p.items {
      forall t | t in p.items[x].traits
        ensures Refers(p.items[x], t, s) <==> exists y :: y in s && y in p.items[x].traits[t]
      {
        var both := p.items[x].traits[t] * s;
        if y :| y in s && y in p.items[x].traits[t] {
          assert y in both;
        }
        if both != {} {
          var y :| y in both;
        }
      }
    }
  }

  datatype Rule = Dependencies | BuildAlsos | ReverseDependencies | Traits

  ghost predicate Applies(p: Project, o: Options, r: Rule, s: set<string>, x: string)
    requires GoodProject(p)
  {
    match r
    case Dependencies => o.addDependencies && ByDependency(p, s, x)
    case BuildAlsos => ByBuildAlso(p, o, s, x)
    case ReverseDependencies => o.withRdeps && ByReverseDependency(p, s, x)
    case Traits => ByTraits(p, o, s, x)
  }

  ghost predicate Closed(p: Project, o: Options, rules: set<Rule>, s: set<string>)
    requires GoodProject(p)
  {
    forall r, x :: r in rules && Applies(p, o, r, s, x) ==> x in s
  }

  // s is the least set that holds seed and is closed under the rules.
  ghost predicate IsClosure(p: Project, o: Options, rules: set<Rule>, seed: set<string>, s: set<string>)
    requires GoodProject(p)
  {
    seed <= s && Closed(p, o, rules, s) && Needed(p, o, rules, seed, s)
  }

  // Everything in s is in every closed set that holds seed.
  ghost predicate Needed(p: Project, o: Options, rules: set<Rule>, seed: set<string>, s: set<string>)
    requires GoodProject(p)
  {
    forall c: set<string> :: seed <= c && Closed(p, o, rules, c) ==> s <= c
  }

  // One application of a rule.
  ghost predicate Grown(p: Project, o: Options, r: Rule, s: set<string>, t: set<string>)
    requires GoodProject(p)
  {
    s <= t && forall x :: x in t <==> x in s || Applies(p, o, r, s, x)
  }

  const EVERY: set<Rule> := {Dependencies, BuildAlsos, ReverseDependencies, Traits}

  // Rules only ever apply to more when the set grows.
  lemma AppliesToMore(p: Project, o: Options, r: Rule, s: set<string>, t: set<string>, x: string)
    requires GoodProject(p) && s <= t && Applies(p, o, r, s, x)
    ensures Applies(p, o, r, t, x)
  {
    hide InBuildAlso, Selectable;
    if r == Traits {
      forall y | y in o.relatedByTraits
        ensures Refers(p.items[x], y, t)
      {
        assert Refers(p.items[x], y, s);
        var z :| z in p.items[x].traits[y] * s;
        assert z in p.items[x].traits[y] * t;
      }
    }
  }

  lemma GrownIsNeeded(
      p: Project, o: Options, rules: set<Rule>, r: Rule, seed: set<string>, s: set<string>, t: set<string>)
    requires GoodProject(p) && r in rules && Needed(p, o, rules, seed, s) && Grown(p, o, r, s, t)
    ensures Needed(p, o, rules, seed, t)
  {
    hide GoodProject, Applies;
    forall c: set<string> | seed <= c && Closed(p, o, rules, c)
      ensures t <= c
    {
      forall x | x in t
        ensures x in c
      {
        if x !in s {
          AppliesToMore(p, o, r, s, c, x);
        }
      }
    }
  }

  // A set that no rule changes is closed.
  lemma UnchangedIsClosed(p: Project, o: Options, rules: set<Rule>, s: set<string>)
    requires GoodProject(p) && forall r :: r in rules ==> Grown(p, o, r, s, s)
    ensures Closed(p, o, rules, s)
  {
    hide Applies;
  }

  lemma ClosuresEqual(p: Project, o: Options, rules: set<Rule>, seed: set<string>, s: set<string>, t: set<string>)
    requires GoodProject(p) && IsClosure(p, o, rules, seed, s) && IsClosure(p, o, rules, seed, t)
    ensures s == t
  {
    hide Closed;
  }

  lemma ClosureIsNeeded(
      p: Project, o: Options, rules: set<Rule>, some: set<Rule>, seed: set<string>, s: set<string>, t: set<string>)
    requires GoodProject(p) && some <= rules && Needed(p, o, rules, seed, s) && IsClosure(p, o, some, s, t)
    ensures Needed(p, o, rules, seed, t)
  {
    hide GoodProject, Applies;
    forall c: set<string> | seed <= c && Closed(p, o, rules, c)
      ensures t <= c
    {
      assert Closed(p, o, some, c);
    }
  }

  lemma ClosedFixed(p: Project, o: Options, r: Rule, s: set<string>)
    requires GoodProject(p)
    ensures IsClosure(p, o, {r}, s, s) <==> Grown(p, o, r, s, s)
  {
    hide GoodProject, Applies;
    if Grown(p, o, r, s, s) {
      UnchangedIsClosed(p, o, {r}, s);
    }
    if IsClosure(p, o, {r}, s, s) {
      forall x | Applies(p, o, r, s, x)
        ensures x in s
      {
        assert r in {r};
      }
    }
  }

  // The first pass of an expansion that is not repeated.
  ghost predicate OnePass(p: Project, o: Options, s: set<string>, t: set<string>)
    requires GoodProject(p)
  {
    exists a, b, c :: Passes(p, o, s, a, b, c, t)
  }

  ghost predicate Passes(
      p: Project, o: Options, s: set<string>, a: set<string>, b: set<string>, c: set<string>, t: set<string>)
    requires GoodProject(p)
  {
    && Grown(p, o, Dependencies, s, a)
    && IsClosure(p, o, {BuildAlsos}, a, b)
    && IsClosure(p, o, {ReverseDependencies}, b, c)
    && Grown(p, o, Traits, c, t)
  }

  lemma NothingNeeded(p: Project, o: Options, rules: set<Rule>, s: set<string>)
    requires GoodProject(p)
    ensures Needed(p, o, rules, s, s)
  {
  }

  // Dependencies and build-also, from a to c.
  lemma HalfPass(
      p: Project, o: Options, rules: set<Rule>, seed: set<string>, a: set<string>, b: set<string>, c: set<string>)
    requires GoodProject(p) && {Dependencies, BuildAlsos} <= rules && Needed(p, o, rules, seed, a)
    requires Grown(p, o, Dependencies, a, b) && IsClosure(p, o, {BuildAlsos}, b, c)
    ensures a <= b <= c && Needed(p, o, rules, seed, c)
    ensures c == a ==> Closed(p, o, {Dependencies, BuildAlsos}, c)
  {
    hide GoodProject, Applies, Needed, Closed;
    GrownIsNeeded(p, o, rules, Dependencies, seed, a, b);
    ClosureIsNeeded(p, o, rules, {BuildAlsos}, seed, b, c);
    if c == a {
      assert b == c;
      ClosedFixed(p, o, BuildAlsos, c);
      UnchangedIsClosed(p, o, {Dependencies, BuildAlsos}, c);
    }
  }

  // All four, from a to e.
  lemma FullPass(
      p: Project, o: Options, seed: set<string>, a: set<string>, b: set<string>, c: set<string>, d: set<string>,
      e: set<string>)
    requires GoodProject(p) && Needed(p, o, EVERY, seed, a)
    requires Passes(p, o, a, b, c, d, e)
    ensures a <= c <= d <= e && Needed(p, o, EVERY, seed, e)
    ensures e == a ==> Closed(p, o, EVERY, e) && Closed(p, o, {Dependencies, BuildAlsos}, e)
  {
    hide GoodProject, Applies, Needed, Closed;
    HalfPass(p, o, EVERY, seed, a, b, c);
    ClosureIsNeeded(p, o, EVERY, {ReverseDependencies}, seed, c, d);
    GrownIsNeeded(p, o, EVERY, Traits, seed, d, e);
    if e == a {
      assert d == e && c == e && b == e;
      ClosedFixed(p, o, BuildAlsos, e);
      ClosedFixed(p, o, ReverseDependencies, e);
      UnchangedIsClosed(p, o, EVERY, e);
    }
  }

  lemma ClosureParts(p: Project, o: Options, rules: set<Rule>, seed: set<string>, s: set<string>)
    requires GoodProject(p)
    ensures IsClosure(p, o, rules, seed, s) <==> seed <= s && Closed(p, o, rules, s) && Needed(p, o, rules, seed, s)
  {
  }

  ghost function Elements(s: seq<string>): set<string>
  {
    set x | x in s
  }

  class Expansion {
    const p: Project
    const o: Options
    var buildset: set<string>

    constructor (p: Project, o: Options)
      requires GoodProject(p)
      ensures Valid() && buildset == {} && this.p == p && this.o == o
    {
      this.p, this.o, buildset := p, o, {};
    }

    ghost predicate Valid()
      reads this
    {
      GoodProject(p) && buildset <= p.items.Keys
    }

    method Insert(toAdd: set<string>) returns (grew: bool)
      requires Valid() && toAdd <= p.items.Keys
      modifies this`buildset
      ensures Valid() && buildset == old(buildset) + toAdd && (grew <==> buildset != old(buildset))
    {
      hide GoodProject, SortedKeys;
      grew := false;
      var names := KeysInOrder(toAdd);
      var i := 0;
      while i < |names|
        invariant i <= |names| && buildset == old(buildset) + Elements(names[..i])
        invariant grew <==> buildset != old(buildset)
      {
        assert names[..i + 1] == names[..i] + [names[i]];
        if names[i] !in buildset {
          grew := true;
          buildset := buildset + {names[i]};
        }
        i := i + 1;
      }
      assert names[..i] == names;
    }

    // The dependencies of everything in the set.
    method ExpandByDependencies() returns (grew: bool)
      requires Valid()
      modifies this`buildset
      ensures Valid() && Grown(p, o, Dependencies, old(buildset), buildset) && (grew <==> buildset != old(buildset))
    {
      hide SortedKeys;
      grew := false;
      if o.addDependencies {
        var toAdd: set<string> := {};
        var names := KeysInOrder(buildset);
        var i := 0;
        while i < |names|
          invariant i <= |names| && toAdd <= p.items.Keys
          invariant forall x :: x in toAdd <==> ByDependency(p, Elements(names[..i]), x)
        {
          var all := p.items[names[i]].expanded;
          assert names[..i + 1] == names[..i] + [names[i]];
          for j := 0 to |all|
            invariant toAdd <= p.items.Keys
            invariant forall x :: x in toAdd <==> ByDependency(p, Elements(names[..i]), x) || x in all[..j]
          {
            toAdd := toAdd + {all[j]};
          }
          assert all[..|all|] == all;
          i := i + 1;
        }
        assert names[..i] == names && Elements(names) == buildset;
        grew := Insert(toAdd);
      }
    }

    // populateBuildset with the predicate "in one of these build-also entries"
    method Populate(entries: set<BuildAlso>) returns (added: bool)
      requires Valid() && forall a :: a in entries ==> if a.isTree then a.name in p.trees else a.name in p.items
      modifies this`buildset
      ensures Valid() && old(buildset) <= buildset
      ensures forall x :: x in buildset <==>
                x in old(buildset) || (Selectable(p, o, x) && exists a :: a in entries && InBuildAlso(p, x, a))
      ensures added <==> buildset != old(buildset)
    {
      hide SortedKeys, GoodProject, InBuildAlso, HasTraits;
      added := false;
      var names := KeysInOrder(p.items.Keys);
      var i := 0;
      while i < |names|
        invariant i <= |names| && Valid() && old(buildset) <= buildset
        invariant forall x :: x in buildset <==>
                    x in old(buildset)
                      || (x in names[..i] && Selectable(p, o, x) && exists a :: a in entries && InBuildAlso(p, x, a))
        invariant added <==> buildset != old(buildset)
      {
        var x := names[i];
        assert names[..i + 1] == names[..i] + [x];
        assert x in p.items;
        if x !in buildset && (exists a :: a in entries && InBuildAlso(p, x, a)) && p.items[x].local
           && HasTraits(p.items[x], o.onlyWithTraits) {
          added := true;
          buildset := buildset + {x};
        }
        i := i + 1;
      }
      assert names[..i] == names;
    }

    method BuildAlsoEntries() returns (entries: set<BuildAlso>)
      requires Valid()
      ensures forall a :: a in entries <==> exists y :: y in buildset && y in p.items && a in p.items[y].buildAlso
    {
      hide SortedKeys;
      entries := {};
      var names := KeysInOrder(buildset);
      var i := 0;
      while i < |names|
        invariant i <= |names|
        invariant forall a :: a in entries <==> exists y :: y in names[..i] && y in p.items && a in p.items[y].buildAlso
      {
        assert names[..i + 1] == names[..i] + [names[i]];
        entries := entries + set a | a in p.items[names[i]].buildAlso;
        i := i + 1;
      }
      assert names[..i] == names;
    }

    // addBuildAlsoToBuildset
    method AddBuildAlso() returns (addedAny: bool)
      requires Valid()
      modifies this`buildset
      ensures Valid() && IsClosure(p, o, {BuildAlsos}, old(buildset), buildset)
                && (addedAny <==> buildset != old(buildset))
    {
      hide GoodProject, Applies, InBuildAlso, Selectable;
      var adding := true;
      addedAny := false;
      while adding
        invariant Valid() && old(buildset) <= buildset && Needed(p, o, {BuildAlsos}, old(buildset), buildset)
        invariant !adding ==> Closed(p, o, {BuildAlsos}, buildset)
        invariant addedAny <==> buildset != old(buildset)
        decreases |p.items.Keys - buildset|, adding
      {
        ghost var before := buildset;
        var entries := BuildAlsoEntries();
        EntriesKnown(entries);
        adding := Populate(entries);
        PopulatedIsGrown(before, entries);
        GrownIsNeeded(p, o, {BuildAlsos}, BuildAlsos, old(buildset), before, buildset);
        if adding {
          addedAny := true;
          SmallerRest(before);
        } else {
          UnchangedIsClosed(p, o, {BuildAlsos}, buildset);
        }
      }
    }

    lemma EntriesKnown(entries: set<BuildAlso>)
      requires Valid() && forall a :: a in entries ==>
                 exists y :: y in buildset && y in p.items && a in p.items[y].buildAlso
      ensures forall a :: a in entries ==> if a.isTree then a.name in p.trees else a.name in p.items
    {
    }

    lemma PopulatedIsGrown(before: set<string>, entries: set<BuildAlso>)
      requires GoodProject(p) && before <= buildset && before <= p.items.Keys
      requires forall a :: a in entries <==> exists y :: y in before && y in p.items && a in p.items[y].buildAlso
      requires (forall a :: a in entries ==> if a.isTree then a.name in p.trees else a.name in p.items) &&
               forall x :: x in buildset <==>
                 x in before || (Selectable(p, o, x) && exists a :: a in entries && InBuildAlso(p, x, a))
      ensures Grown(p, o, BuildAlsos, before, buildset)
    {
      hide InBuildAlso, HasTraits;
      forall x
        ensures ByBuildAlso(p, o, before, x) <==>
                  Selectable(p, o, x) && exists a :: a in entries && InBuildAlso(p, x, a)
      {
        if Selectable(p, o, x) {
          if a :| a in entries && InBuildAlso(p, x, a) {
            var y :| y in before && y in p.items && a in p.items[y].buildAlso;
          }
        }
      }
    }

    lemma SmallerRest(before: set<string>)
      requires before < buildset <= p.items.Keys
      ensures |p.items.Keys - buildset| < |p.items.Keys - before|
    {
      var x :| x in buildset && x !in before;
      Proper(p.items.Keys - buildset, p.items.Keys - before, x);
    }

    static lemma Proper(a: set<string>, b: set<string>, x: string)
      requires a <= b && x in b && x !in a
      ensures |a| < |b|
    {
      assert a <= b - {x};
      SubsetSize(a, b - {x});
    }

    // Everything with a dependency in the set, again and again.
    method ExpandByReverseDependencies() returns (grew: bool)
      requires Valid()
      modifies this`buildset
      ensures Valid() && IsClosure(p, o, {ReverseDependencies}, old(buildset), buildset)
                && (grew <==> buildset != old(buildset))
    {
      hide GoodProject, Applies, ByReverseDependency, Grown, Closed;
      grew := false;
      var adding := o.withRdeps;
      if !adding {
        RuleOff(ReverseDependencies);
      }
      while adding
        invariant Valid() && old(buildset) <= buildset && Needed(p, o, {ReverseDependencies}, old(buildset), buildset)
        invariant !adding ==> Closed(p, o, {ReverseDependencies}, buildset)
        invariant grew <==> buildset != old(buildset)
        decreases |p.items.Keys - buildset|, adding
      {
        ghost var before := buildset;
        var toAdd := Dependents();
        adding := Insert(toAdd);
        DependentsAreGrown(before, toAdd);
        GrownIsNeeded(p, o, {ReverseDependencies}, ReverseDependencies, old(buildset), before, buildset);
        if adding {
          grew := true;
          SmallerRest(before);
        } else {
          UnchangedIsClosed(p, o, {ReverseDependencies}, buildset);
        }
      }
    }

    lemma RuleOff(r: Rule)
      requires GoodProject(p)
                 && ((r == ReverseDependencies && !o.withRdeps) || (r == Dependencies && !o.addDependencies))
      ensures Closed(p, o, {r}, buildset)
    {
    }

    lemma DependentsAreGrown(before: set<string>, toAdd: set<string>)
      requires GoodProject(p) && o.withRdeps && buildset == before + toAdd
      requires forall x :: x in toAdd <==> ByReverseDependency(p, before, x)
      ensures Grown(p, o, ReverseDependencies, before, buildset)
    {
      hide ByReverseDependency;
    }

    method Dependents() returns (toAdd: set<string>)
      requires Valid()
      ensures toAdd <= p.items.Keys
      ensures forall x :: x in toAdd <==> ByReverseDependency(p, buildset, x)
    {
      hide SortedKeys, GoodProject;
      toAdd := {};
      var names := KeysInOrder(p.items.Keys);
      var i := 0;
      while i < |names|
        invariant i <= |names| && toAdd <= p.items.Keys
        invariant forall x :: x in toAdd <==> x in names[..i] && ByReverseDependency(p, buildset, x)
      {
        var x := names[i];
        assert x in names && names[..i + 1] == names[..i] + [x];
        var deps := p.items[x].deps;
        for j := 0 to |deps|
          invariant toAdd <= p.items.Keys
          invariant forall y :: y in toAdd && y != x <==>
                      y != x && y in names[..i] && ByReverseDependency(p, buildset, y)
          invariant x in toAdd <==>
                      (x in names[..i] && ByReverseDependency(p, buildset, x))
                      || exists d :: d in deps[..j] && d in buildset
        {
          assert deps[..j + 1] == deps[..j] + [deps[j]];
          if deps[j] in buildset {
            toAdd := toAdd + {x};
          }
        }
        assert deps[..|deps|] == deps;
        i := i + 1;
      }
      assert names[..i] == names;
    }

    // Everything that has all the traits asked for, each in reference to an item in the set.
    method ExpandByTraits() returns (grew: bool)
      requires Valid()
      modifies this`buildset
      ensures Valid() && Grown(p, o, Traits, old(buildset), buildset) && (grew <==> buildset != old(buildset))
    {
      hide SortedKeys, GoodProject, Refers;
      grew := false;
      if o.relatedByTraits != [] {
        var toAdd: set<string> := {};
        var names := KeysInOrder(p.items.Keys);
        var i := 0;
        while i < |names|
          invariant i <= |names| && toAdd <= p.items.Keys
          invariant buildset == old(buildset)
          invariant forall x :: x in toAdd <==> x in names[..i] && ByTraits(p, o, buildset, x)
        {
          assert names[i] in names && names[..i + 1] == names[..i] + [names[i]];
          var related := IsRelated(names[i]);
          if related {
            toAdd := toAdd + {names[i]};
          }
          i := i + 1;
        }
        assert names[..i] == names;
        grew := Insert(toAdd);
      }
    }

    method IsRelated(x: string) returns (related: bool)
      requires x in p.items && o.relatedByTraits != []
      ensures related <==> ByTraits(p, o, buildset, x)
    {
      related := true;
      var traits := o.relatedByTraits;
      var i := 0;
      while i < |traits|
        invariant i <= |traits| && related
        invariant forall t :: t in traits[..i] ==> Refers(p.items[x], t, buildset)
      {
        assert traits[i] in traits && traits[..i + 1] == traits[..i] + [traits[i]];
        if !Refers(p.items[x], traits[i], buildset) {
          related := false;
          break;
        }
        i := i + 1;
      }
      assert related ==> traits[..i] == traits;
    }

    // The expansion loop of computeBuildset.  Repeated, it yields the least set that holds
    // the selected items and is closed under all rules.  Not repeated, reverse dependencies
    // and traits count in the first pass only; what that yields is then closed under
    // dependencies and build-also.
    method Expand()
      requires Valid()
      modifies this`buildset
      ensures Valid()
      ensures o.repeatExpansion ==> IsClosure(p, o, EVERY, old(buildset), buildset)
      ensures !o.repeatExpansion ==>
                exists s, t :: IsClosure(p, o, {BuildAlsos}, old(buildset), s) && OnePass(p, o, s, t)
                               && IsClosure(p, o, {Dependencies, BuildAlsos}, t, buildset)
    {
      hide GoodProject, Applies, IsClosure, Grown, Needed, Closed;
      ghost var seed := buildset;
      var any := AddBuildAlso();
      ghost var s, t := buildset, buildset;
      ClosureParts(p, o, {BuildAlsos}, seed, s);
      NothingNeeded(p, o, EVERY, seed);
      ClosureIsNeeded(p, o, EVERY, {BuildAlsos}, seed, seed, s);
      var expanding, firstPass := true, true;
      while expanding
        invariant Valid() && seed <= s <= buildset && Needed(p, o, EVERY, seed, buildset)
        invariant firstPass ==> buildset == s && expanding
        invariant !firstPass ==> OnePass(p, o, s, t) && t <= buildset
        invariant !firstPass && !o.repeatExpansion ==> Needed(p, o, {Dependencies, BuildAlsos}, t, buildset)
        invariant !expanding ==> Closed(p, o, {Dependencies, BuildAlsos}, buildset)
        invariant !expanding && o.repeatExpansion ==> Closed(p, o, EVERY, buildset)
        decreases |p.items.Keys - buildset|, expanding
      {
        ghost var a := buildset;
        var byDependencies := ExpandByDependencies();
        ghost var b := buildset;
        var byBuildAlso := AddBuildAlso();
        ghost var c := buildset;
        expanding := byDependencies || byBuildAlso;
        HalfPass(p, o, EVERY, seed, a, b, c);
        if !(o.repeatExpansion || firstPass) {
          HalfPass(p, o, {Dependencies, BuildAlsos}, t, a, b, c);
          Progress(a);
          continue;
        }
        var byReverse := ExpandByReverseDependencies();
        ghost var d := buildset;
        var byTraits := ExpandByTraits();
        expanding := expanding || byReverse || byTraits;
        assert Passes(p, o, a, b, c, d, buildset);
        FullPass(p, o, seed, a, b, c, d, buildset);
        Progress(a);
        if firstPass {
          t := buildset;
          NothingNeeded(p, o, {Dependencies, BuildAlsos}, t);
        }
        firstPass := false;
      }
      ClosureParts(p, o, EVERY, seed, buildset);
      ClosureParts(p, o, {Dependencies, BuildAlsos}, t, buildset);
    }

    lemma Progress(before: set<string>)
      requires before <= buildset <= p.items.Keys
      ensures before == buildset || |p.items.Keys - buildset| < |p.items.Keys - before|
    {
      if before != buildset {
        SmallerRest(before);
      }
    }

    // At the end, the plugins of everything in the set.
    method AddPlugins()
      requires Valid()
      modifies this`buildset
      ensures Valid() && old(buildset) <= buildset
      ensures forall x :: x in buildset <==>
                x in old(buildset) || (o.addDependencies && exists y :: y in old(buildset) && x in p.items[y].plugins)
    {
      hide SortedKeys;
      if o.addDependencies {
        var toAdd: set<string> := {};
        var names := KeysInOrder(buildset);
        var i := 0;
        while i < |names|
          invariant i <= |names| && toAdd <= p.items.Keys && buildset == old(buildset)
          invariant forall x :: x in toAdd <==> exists y :: y in names[..i] && y in p.items && x in p.items[y].plugins
        {
          assert names[..i + 1] == names[..i] + [names[i]];
          toAdd := toAdd + set x | x in p.items[names[i]].plugins;
          i := i + 1;
        }
        assert names[..i] == names;
        var grew := Insert(toAdd);
      }
    }
  }

  // Whatever the repetition: the result is closed under dependencies and build-also, so
  // with dependencies on, everything it depends on is in it.
  lemma ResultHoldsDependencies(p: Project, o: Options, t: set<string>, s: set<string>, x: string, d: string)
    requires GoodProject(p) && o.addDependencies && x in s && x in p.items && d in p.items[x].expanded
    requires IsClosure(p, o, EVERY, t, s) || IsClosure(p, o, {Dependencies, BuildAlsos}, t, s)
    ensures d in s
  {
    hide GoodProject;
    assert Applies(p, o, Dependencies, s, d);
  }
}
