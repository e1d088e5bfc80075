// Which platform of a dependency an item is built against (src/BuildItem.cc,
// src/PlatformSelector.cc).
module BuildItems {
  import opened Options
  import opened Text

  const ANY := "*"

  datatype Selector = Selector(
    ptype: string, skip: bool, dfault: bool,
    os: string, cpu: string, toolset: string, compiler: string, option: string)

  // types maps each declared platform type to its platforms, best first.  depTypes holds the
  // platform types declared for dependencies, compatible the platform types that suit a platform.
  datatype Item = Item(
    all: bool, objectCode: bool, deps: seq<string>,
    depTypes: map<string, (string, Option<Selector>)>,
    types: map<string, seq<string>>, compatible: map<string, seq<string>>)

  // ---------- Selectors ----------

  function Field(platform: string, i: nat): string
  {
    var fields := Split('.', platform);
    if i < |fields| then fields[i] else ""
  }

  predicate FieldMatches(dfault: string, selector: string, field: string)
  {
    selector == ANY || (selector == "" && field == dfault) || selector == field
  }

  // first supplies what the selector leaves open, except for the option.
  predicate Matches(s: Selector, first: string, platform: string)
  {
    && FieldMatches(Field(first, 0), s.os, Field(platform, 0))
    && FieldMatches(Field(first, 1), s.cpu, Field(platform, 1))
    && FieldMatches(Field(first, 2), s.toolset, Field(platform, 2))
    && FieldMatches(Field(first, 3), s.compiler, Field(platform, 3))
    && FieldMatches("", s.option, Field(platform, 4))
  }

  type Selectors = map<string, Selector>

  // The selector that applies: the one given, or else a general one that does not skip.
  function Applying(selectors: Selectors, ptype: string, given: Option<Selector>): Option<Selector>
  {
    if given.Some? then given
    else
      var general := if ptype in selectors then Some(selectors[ptype])
                     else if ANY in selectors then Some(selectors[ANY]) else None;
      if general.Some? && general.value.skip then None else general
  }

  function TypeWanted(ptype: string, applying: Option<Selector>): string
  {
    if applying.Some? && applying.value.ptype != ANY then applying.value.ptype else ptype
  }

  predicate Selects(d: Item, applying: Option<Selector>)
  {
    d.objectCode && applying.Some? && !applying.value.dfault
  }

  function FirstMatch(s: Selector, first: string, platforms: seq<string>): string
  {
    if platforms == [] then "" else if Matches(s, first, platforms[0]) then platforms[0]
    else FirstMatch(s, first, platforms[1..])
  }

  // getBestPlatformForType
  function BestForType(selectors: Selectors, d: Item, ptype: string, given: Option<Selector>): string
  {
    var applying := Applying(selectors, ptype, given);
    var t := TypeWanted(ptype, applying);
    if t !in d.types || d.types[t] == [] then ""
    else
      var platforms := d.types[t];
      var chosen := if Selects(d, applying) then FirstMatch(applying.value, platforms[0], platforms) else "";
      if chosen != "" then chosen else platforms[0]
  }

  // getBuildablePlatforms
  function Buildable(d: Item): set<string>
  {
    set t, p | t in d.types && p in d.types[t] :: p
  }

  function FirstDeclared(d: Item, types: seq<string>): Option<string>
  {
    if types == [] then None else if types[0] in d.types then Some(types[0]) else FirstDeclared(d, types[1..])
  }

  function CompatibleTypes(item: Item, platform: string): seq<string>
  {
    if platform in item.compatible then item.compatible[platform] else []
  }

  // getBestPlatformForPlatform
  function BestForPlatform(selectors: Selectors, item: Item, d: Item, platform: string): string
  {
    if d.all || platform in Buildable(d) then platform
    else
      var t := FirstDeclared(d, CompatibleTypes(item, platform));
      if t.None? then "" else BestForType(selectors, d, t.value, None)
  }

  // ---------- What they choose ----------

  ghost predicate PlatformsNamed(d: Item)
  {
    forall t, p :: t in d.types && p in d.types[t] ==> p != ""
  }

  lemma {:induction false} FirstMatchExact(s: Selector, first: string, platforms: seq<string>)
    requires "" !in platforms
    ensures FirstMatch(s, first, platforms) == "" <==> forall p :: p in platforms ==> !Matches(s, first, p)
    ensures FirstMatch(s, first, platforms) != "" ==>
              exists k :: 0 <= k < |platforms| && platforms[k] == FirstMatch(s, first, platforms)
                          && Matches(s, first, platforms[k])
                          && forall p :: p in platforms[..k] ==> !Matches(s, first, p)
  {
    hide Matches;
    if platforms != [] {
      assert platforms == [platforms[0]] + platforms[1..];
      if Matches(s, first, platforms[0]) {
        assert platforms[..0] == [];
        assert platforms[0] == FirstMatch(s, first, platforms);
      } else {
        FirstMatchExact(s, first, platforms[1..]);
        if FirstMatch(s, first, platforms) != "" {
          var k :| 0 <= k < |platforms[1..]| && platforms[1..][k] == FirstMatch(s, first, platforms)
                   && Matches(s, first, platforms[1..][k])
                   && forall p :: p in platforms[1..][..k] ==> !Matches(s, first, p);
          assert platforms[..k + 1] == [platforms[0]] + platforms[1..][..k];
          assert platforms[k + 1] == FirstMatch(s, first, platforms);
        }
      }
    }
  }

  // The best platform of a type: the first one the selector that applies matches; the
  // first one when it matches none, or none applies.
  lemma BestForTypeExact(selectors: Selectors, d: Item, ptype: string, given: Option<Selector>)
    requires PlatformsNamed(d)
    ensures var applying := Applying(selectors, ptype, given);
            var t := TypeWanted(ptype, applying);
            var best := BestForType(selectors, d, ptype, given);
            && (best == "" <==> t !in d.types || d.types[t] == [])
            && (best != "" ==>
                  best in d.types[t] && best in Buildable(d) &&
                  (if Selects(d, applying) && exists p :: p in d.types[t] && Matches(applying.value, d.types[t][0], p)
                   then IsFirstMatch(applying.value, d.types[t], best)
                   else best == d.types[t][0]))
  {
    hide Matches;
    var applying := Applying(selectors, ptype, given);
    var t := TypeWanted(ptype, applying);
    if t in d.types && d.types[t] != [] {
      var platforms := d.types[t];
      assert platforms[0] in platforms;
      if Selects(d, applying) {
        FirstMatchExact(applying.value, platforms[0], platforms);
      }
    }
  }

  ghost predicate IsFirstMatch(s: Selector, platforms: seq<string>, p: string)
  {
    exists k :: 0 <= k < |platforms| && platforms[k] == p && Matches(s, platforms[0], p)
                && forall q :: q in platforms[..k] ==> !Matches(s, platforms[0], q)
  }

  // The first of the types that the item declares stands at position k.
  ghost predicate FirstDeclaredAt(d: Item, types: seq<string>, k: nat)
  {
    k < |types| && types[k] in d.types && forall t :: t in types[..k] ==> t !in d.types
  }

  lemma {:induction false} FirstDeclaredExact(d: Item, types: seq<string>)
    ensures FirstDeclared(d, types).None? <==> forall t :: t in types ==> t !in d.types
    ensures forall k: nat :: FirstDeclaredAt(d, types, k) ==> FirstDeclared(d, types) == Some(types[k])
  {
    if types != [] {
      assert types == [types[0]] + types[1..];
      FirstDeclaredExact(d, types[1..]);
      forall k: nat | FirstDeclaredAt(d, types, k)
        ensures FirstDeclared(d, types) == Some(types[k])
      {
        if k > 0 {
          assert types[0] in types[..k];
          assert types[..k] == [types[0]] + types[1..][..k - 1];
          assert FirstDeclaredAt(d, types[1..], k - 1);
        }
      }
    }
  }

  ghost predicate Declares(d: Item, platform: string)
  {
    exists t :: t in d.types && platform in d.types[t]
  }

  // An item that can be built on the platform asked for, or on any, is built on that;
  // otherwise on the best platform of the first compatible type it declares, even when
  // another compatible type has platforms and that one has none; and on none when it
  // declares no compatible type.
  lemma BestForPlatformExact(selectors: Selectors, item: Item, d: Item, platform: string)
    requires PlatformsNamed(d)
    ensures d.all || Declares(d, platform) ==> BestForPlatform(selectors, item, d, platform) == platform
    ensures !d.all && !Declares(d, platform) ==>
              var best := BestForPlatform(selectors, item, d, platform);
              best == "" || Declares(d, best)
    ensures !d.all && !Declares(d, platform)
              && (forall t :: t in CompatibleTypes(item, platform) ==> t !in d.types) ==>
              BestForPlatform(selectors, item, d, platform) == ""
    ensures forall k: nat ::
              !d.all && !Declares(d, platform) && FirstDeclaredAt(d, CompatibleTypes(item, platform), k) ==>
                BestForPlatform(selectors, item, d, platform) ==
                  BestForType(selectors, d, CompatibleTypes(item, platform)[k], None)
  {
    hide BestForType;
    FirstDeclaredExact(d, CompatibleTypes(item, platform));
    var t := FirstDeclared(d, CompatibleTypes(item, platform));
    if t.Some? {
      BestForTypeExact(selectors, d, t.value, None);
    }
  }

  // ---------- Platforms field by field ----------

  // os.cpu.toolset.compiler, perhaps with an option behind it.
  datatype Platform = Platform(os: string, cpu: string, toolset: string, compiler: string, option: Option<string>)

  function Spell(p: Platform): string
  {
    p.os + "." + p.cpu + "." + p.toolset + "." + p.compiler + (if p.option.Some? then "." + p.option.value else "")
  }

  predicate DotFree(p: Platform)
  {
    && '.' !in p.os && '.' !in p.cpu && '.' !in p.toolset && '.' !in p.compiler
    && (p.option.Some? ==> '.' !in p.option.value)
  }

  lemma SplitSpelled(p: Platform)
    requires DotFree(p)
    ensures Split('.', Spell(p)) ==
            [p.os, p.cpu, p.toolset, p.compiler] + (if p.option.Some? then [p.option.value] else [])
  {
    hide Split;
    var last := p.compiler + (if p.option.Some? then "." + p.option.value else "");
    var third := p.toolset + "." + last;
    var second := p.cpu + "." + third;
    assert Spell(p) == p.os + "." + second;
    SplitOnce('.', p.os, second);
    SplitOnce('.', p.cpu, third);
    SplitOnce('.', p.toolset, last);
    if p.option.Some? {
      assert last == p.compiler + "." + p.option.value;
      SplitOnce('.', p.compiler, p.option.value);
      SplitOnce('.', p.option.value, "");
    } else {
      assert last == p.compiler;
      SplitOnce('.', p.compiler, "");
    }
  }

  // What a selector asks of a field: nothing for "*"; a field left open asks for that of the
  // first platform of the type.
  ghost predicate FieldAsked(wanted: string, supplied: string, field: string)
  {
    || wanted == "*"
    || ((wanted == "" ==> field in {supplied, ""}) && (wanted != "" ==> field == wanted))
  }

  ghost predicate Fits(s: Selector, first: Platform, p: Platform)
  {
    && FieldAsked(s.os, first.os, p.os)
    && FieldAsked(s.cpu, first.cpu, p.cpu)
    && FieldAsked(s.toolset, first.toolset, p.toolset)
    && FieldAsked(s.compiler, first.compiler, p.compiler)
    && (s.option == "*" || s.option == (if p.option.Some? then p.option.value else ""))
  }

  lemma MatchesExact(s: Selector, first: Platform, p: Platform)
    requires DotFree(first) && DotFree(p)
    ensures Matches(s, Spell(first), Spell(p)) <==> Fits(s, first, p)
  {
    hide Split, Spell;
    SplitSpelled(first);
    SplitSpelled(p);
  }

  // sel is the selector in force: the one given; or else the one for the type, or the one for any
  // type if that has none, unless it says skip.
  ghost predicate InForce(selectors: Selectors, ptype: string, given: Option<Selector>, sel: Option<Selector>)
  {
    && (given.Some? ==> sel == given)
    && (given.None? && ptype in selectors ==>
          sel == if selectors[ptype].skip then None else Some(selectors[ptype]))
    && (given.None? && ptype !in selectors && "*" in selectors ==>
          sel == if selectors["*"].skip then None else Some(selectors["*"]))
    && (given.None? && ptype !in selectors && "*" !in selectors ==> sel == None)
  }

  // Platform k is the choice: the first one asked for, or the first one of all if none is asked
  // for or nothing is asked.
  ghost predicate IsChoice(d: Item, sel: Option<Selector>, ps: seq<Platform>, k: nat)
  {
    && k < |ps|
    && (if d.objectCode && sel.Some? && !sel.value.dfault && exists i :: 0 <= i < |ps| && Fits(sel.value, ps[0], ps[i])
        then Fits(sel.value, ps[0], ps[k]) && forall i :: 0 <= i < k ==> !Fits(sel.value, ps[0], ps[i])
        else k == 0)
  }

  ghost predicate AreSpelled(platforms: seq<string>, ps: seq<Platform>)
  {
    |platforms| == |ps| && forall i :: 0 <= i < |ps| ==> DotFree(ps[i]) && platforms[i] == Spell(ps[i])
  }

  // The best platform of a type, in the fields of the platforms and of the selector in force,
  // which may ask for another type.
  lemma BestForTypeSpelled(
      selectors: Selectors, d: Item, ptype: string, given: Option<Selector>, sel: Option<Selector>, ps: seq<Platform>)
    requires InForce(selectors, ptype, given, sel)
    requires var t := if sel.None? || sel.value.ptype == "*" then ptype else sel.value.ptype;
             if t in d.types then AreSpelled(d.types[t], ps) else ps == []
    ensures ps == [] ==> BestForType(selectors, d, ptype, given) == ""
    ensures ps != [] ==>
              exists k: nat :: IsChoice(d, sel, ps, k) && BestForType(selectors, d, ptype, given) == Spell(ps[k])
  {
    hide Matches, Spell, Fits, FirstMatch;
    var t := if sel.None? || sel.value.ptype == "*" then ptype else sel.value.ptype;
    assert Applying(selectors, ptype, given) == sel && TypeWanted(ptype, sel) == t;
    if ps != [] {
      var platforms := d.types[t];
      forall i | 0 <= i < |ps|
        ensures platforms[i] != ""
        ensures sel.Some? ==> (Matches(sel.value, platforms[0], platforms[i]) <==> Fits(sel.value, ps[0], ps[i]))
      {
        SpelledNamed(ps[i]);
        if sel.Some? {
          MatchesExact(sel.value, ps[0], ps[i]);
        }
      }
      if Selects(d, sel) {
        ChoiceOfFirst(sel.value, d, platforms, ps);
      } else {
        assert IsChoice(d, sel, ps, 0);
      }
    }
  }

  lemma SpelledNamed(p: Platform)
    ensures Spell(p) != ""
  {
    assert |Spell(p)| >= 3;
  }

  lemma ChoiceOfFirst(s: Selector, d: Item, platforms: seq<string>, ps: seq<Platform>)
    requires Selects(d, Some(s)) && ps != [] && AreSpelled(platforms, ps) && "" !in platforms
    requires forall i :: 0 <= i < |ps| ==> (Matches(s, platforms[0], platforms[i]) <==> Fits(s, ps[0], ps[i]))
    ensures var chosen := FirstMatch(s, platforms[0], platforms);
            exists k: nat :: IsChoice(d, Some(s), ps, k)
                             && Spell(ps[k]) == if chosen != "" then chosen else platforms[0]
  {
    hide Matches, Spell, Fits, FirstMatch;
    FirstMatchExact(s, platforms[0], platforms);
    var chosen := FirstMatch(s, platforms[0], platforms);
    if chosen != "" {
      var k :| 0 <= k < |platforms| && platforms[k] == chosen && Matches(s, platforms[0], platforms[k])
               && forall p :: p in platforms[..k] ==> !Matches(s, platforms[0], p);
      forall i | 0 <= i < k
        ensures !Fits(s, ps[0], ps[i])
      {
        assert platforms[i] in platforms[..k];
      }
      assert IsChoice(d, Some(s), ps, k);
    } else {
      forall i | 0 <= i < |ps|
        ensures !Fits(s, ps[0], ps[i])
      {
        assert platforms[i] in platforms;
      }
      assert IsChoice(d, Some(s), ps, 0);
    }
  }

  // ---------- The loops ----------

  method GetBestPlatformForType(selectors: Selectors, d: Item, ptype: string, given: Option<Selector>)
      returns (result: string)
    requires PlatformsNamed(d)
    ensures result == BestForType(selectors, d, ptype, given)
  {
    hide Matches;
    result := "";
    var ps := given;
    if ps == None {
      if ptype in selectors {
        ps := Some(selectors[ptype]);
      } else if ANY in selectors {
        ps := Some(selectors[ANY]);
      }
      if ps.Some? && ps.value.skip {
        ps := None;
      }
    }
    var wanted := ptype;
    if ps.Some? && ps.value.ptype != ANY {
      wanted := ps.value.ptype;
    }
    if wanted in d.types {
      var platforms := d.types[wanted];
      if platforms != [] {
        if d.objectCode && ps.Some? && !ps.value.dfault {
          var i := 0;
          while i < |platforms|
            invariant i <= |platforms| && result == ""
            invariant FirstMatch(ps.value, platforms[0], platforms) ==
                        FirstMatch(ps.value, platforms[0], platforms[i..])
          {
            if Matches(ps.value, platforms[0], platforms[i]) {
              result := platforms[i];
              assert platforms[i] in platforms;
              break;
            }
            assert platforms[i..][1..] == platforms[i + 1..];
            i := i + 1;
          }
        }
        if result == "" {
          result := platforms[0];
        }
      }
    }
  }

  method GetBestPlatformForPlatform(
      selectors: Selectors, item: Item, d: Item, platform: string) returns (result: string)
    requires PlatformsNamed(d)
    ensures result == BestForPlatform(selectors, item, d, platform)
  {
    hide BestForType, Applying;
    result := "";
    if d.all || platform in Buildable(d) {
      result := platform;
    } else {
      var types := CompatibleTypes(item, platform);
      var i := 0;
      while i < |types|
        invariant i <= |types| && result == ""
        invariant FirstDeclared(d, types) == FirstDeclared(d, types[i..])
      {
        if types[i] in d.types {
          result := GetBestPlatformForType(selectors, d, types[i], None);
          break;
        }
        assert types[i..][1..] == types[i + 1..];
        i := i + 1;
      }
    }
  }
}
