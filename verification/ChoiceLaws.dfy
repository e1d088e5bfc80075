// Which platform of a dependency an item is linked to, and when there is none, told from what
// the items declare (src/Abuild-build.cc, src/BuildItem.cc).
module ChoiceLaws {
  import opened Options
  import opened BuildItems
  import opened BuildGraphs
  import opened BuildGraphBuilders

  // The dependency has platforms of the type, or of the one that the selector in force asks for.
  ghost predicate Offers(selectors: Selectors, d: Item, ptype: string, given: Option<Selector>)
  {
    forall sel :: InForce(selectors, ptype, given, sel) ==>
      var t := if sel.None? || sel.value.ptype == "*" then ptype else sel.value.ptype;
      t in d.types && d.types[t] != []
  }

  lemma OffersExact(selectors: Selectors, d: Item, ptype: string, given: Option<Selector>)
    requires PlatformsNamed(d)
    ensures BestForType(selectors, d, ptype, given) != "" <==> Offers(selectors, d, ptype, given)
  {
    hide Matches, FirstMatch, BestForType;
    var sel := Applying(selectors, ptype, given);
    assert InForce(selectors, ptype, given, sel);
    BestForTypeExact(selectors, d, ptype, given);
    assert forall other :: InForce(selectors, ptype, given, other) ==> other == sel;
  }

  // A dependency with a declared platform type is missed when it has no platforms of that type;
  // another one when neither it nor its dependent is of type "all", it cannot be built on the
  // dependent's platform, and of the types that suit this platform it declares none, or the first
  // it declares has no platforms.
  lemma UnmatchedExact(b: Build, i: string, d: string, p: string)
    requires i in b.items && d in b.items && PlatformsNamed(b.items[d]) && p != ""
    ensures var item, dep := b.items[i], b.items[d];
            Unmatched(b, i, d, p) <==>
              if d in item.depTypes && item.depTypes[d].0 != "" then
                !Offers(b.selectors, dep, item.depTypes[d].0, item.depTypes[d].1)
              else
                && !item.all && !dep.all && !Declares(dep, p)
                && forall k: nat :: FirstDeclaredAt(dep, CompatibleTypes(item, p), k) ==>
                     !Offers(b.selectors, dep, CompatibleTypes(item, p)[k], None)
  {
    hide BestForType, BestForPlatform, Offers;
    var item, dep := b.items[i], b.items[d];
    if d in item.depTypes && item.depTypes[d].0 != "" {
      OffersExact(b.selectors, dep, item.depTypes[d].0, item.depTypes[d].1);
    } else {
      BestForPlatformExact(b.selectors, item, dep, p);
      var types := CompatibleTypes(item, p);
      forall k: nat | FirstDeclaredAt(dep, types, k)
        ensures BestForType(b.selectors, dep, types[k], None) != "" <==> Offers(b.selectors, dep, types[k], None)
      {
        OffersExact(b.selectors, dep, types[k], None);
      }
      if t :| t in types && t in dep.types {
        var k := FirstAt(dep, types);
        assert BestForPlatform(b.selectors, item, dep, p) == BestForType(b.selectors, dep, types[k], None)
               || dep.all || Declares(dep, p);
      }
    }
  }

  lemma {:induction false} FirstAt(d: Item, types: seq<string>) returns (k: nat)
    requires exists t :: t in types && t in d.types
    ensures FirstDeclaredAt(d, types, k)
  {
    if types[0] in d.types {
      k := 0;
    } else {
      assert types == [types[0]] + types[1..];
      k := FirstAt(d, types[1..]);
      k := k + 1;
      assert types[..k] == [types[0]] + types[1..][..k - 1];
    }
  }

  // A declared platform type decides for every platform of the dependent; otherwise the dependent's
  // platform itself is chosen where it can be.
  lemma ChoiceSpelled(b: Build, i: string, d: string, p: string, sel: Option<Selector>, ps: seq<Platform>)
    requires i in b.items && d in b.items && PlatformsNamed(b.items[d])
    requires var item := b.items[i];
             d in item.depTypes && item.depTypes[d].0 != "" ==>
               var ptype := item.depTypes[d].0;
               var t := if sel.None? || sel.value.ptype == "*" then ptype else sel.value.ptype;
               && InForce(b.selectors, ptype, item.depTypes[d].1, sel)
               && if t in b.items[d].types then AreSpelled(b.items[d].types[t], ps) else ps == []
    ensures var item, dep := b.items[i], b.items[d];
            if d in item.depTypes && item.depTypes[d].0 != "" then
              if ps == [] then Choice(b, i, d, p) == ""
              else exists k: nat :: IsChoice(dep, sel, ps, k) && Choice(b, i, d, p) == Spell(ps[k])
            else dep.all || Declares(dep, p) ==> Choice(b, i, d, p) == p
  {
    hide BestForType, BestForPlatform, InForce, AreSpelled, IsChoice, Spell;
    var item := b.items[i];
    if d in item.depTypes && item.depTypes[d].0 != "" {
      BestForTypeSpelled(b.selectors, b.items[d], item.depTypes[d].0, item.depTypes[d].1, sel, ps);
    } else {
      BestForPlatformExact(b.selectors, item, b.items[d], p);
    }
  }
}
