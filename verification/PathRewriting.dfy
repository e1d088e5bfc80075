// What a path denotes when some of its prefixes are symbolic links (src/Util.cc): a path is
// rewritten from the left until nothing is left to rewrite.
module PathRewriting {
  import opened Text
  import opened Paths

  // A path as a whole, and the links expanded so far.
  datatype State = State(whole: seq<string>, used: set<string>)

  // The first n components are a link that has not been expanded.
  ghost predicate FreshLink(links: Links, used: set<string>, prefix: seq<string>)
  {
    var name := Join('/', prefix);
    |prefix| > 1 && name in links && links[name] != "" && name !in used
  }

  // Nothing is to be done at component i.
  ghost predicate Settled(links: Links, s: State, i: nat)
    requires i < |s.whole|
  {
    i == 0 || (s.whole[i] !in {"", ".", ".."} && !FreshLink(links, s.used, s.whole[..i + 1]))
  }

  ghost predicate FirstUnsettled(links: Links, s: State, i: nat)
  {
    i < |s.whole| && !Settled(links, s, i) && forall j :: 0 <= j < i ==> Settled(links, s, j)
  }

  ghost predicate Normal(links: Links, s: State)
  {
    forall i :: 0 <= i < |s.whole| ==> Settled(links, s, i)
  }

  // One step: at the first place where something is to be done, an empty component and "."
  // vanish, ".." vanishes with the component before it, if that is not the root, and a link gives
  // way to its target, which, if absolute, replaces all that is before it as well.
  ghost predicate StepAt(links: Links, s: State, i: nat, t: State)
    requires 0 < i < |s.whole|
  {
    var (before, component, rest) := (s.whole[..i], s.whole[i], s.whole[i + 1..]);
    if component == "" || component == "." then t == State(before + rest, s.used)
    else if component == ".." then
      t == State((if i > 1 then s.whole[..i - 1] else before) + rest, s.used)
    else
      var name := Join('/', s.whole[..i + 1]);
      name in links && t.used == s.used + {name}
      && t.whole == (if Absolute(links[name]) then [""] + Split('/', links[name])[1..]
                     else before + Split('/', links[name])) + rest
  }

  ghost predicate Step(links: Links, s: State, t: State)
  {
    exists i :: 0 < i < |s.whole| && FirstUnsettled(links, s, i) && StepAt(links, s, i, t)
  }

  ghost predicate IsRewriting(links: Links, states: seq<State>)
  {
    states != [] && forall i, j :: 0 <= i < |states| && j == i + 1 < |states| ==> Step(links, states[i], states[j])
  }

  // Every rewriting that comes to an end comes to the same end.
  lemma StepUnique(links: Links, s: State, t: State, t': State)
    requires Step(links, s, t) && Step(links, s, t')
    ensures t == t'
  {
    hide Settled;
    var i :| 0 < i < |s.whole| && FirstUnsettled(links, s, i) && StepAt(links, s, i, t);
    var j :| 0 < j < |s.whole| && FirstUnsettled(links, s, j) && StepAt(links, s, j, t');
    assert i == j;
  }

  lemma NormalIsLast(links: Links, s: State, t: State)
    requires Normal(links, s)
    ensures !Step(links, s, t)
  {
    hide Settled;
  }

  lemma {:induction false} NormalFormUnique(links: Links, a: seq<State>, b: seq<State>)
    requires IsRewriting(links, a) && IsRewriting(links, b) && a[0] == b[0]
    requires Normal(links, a[|a| - 1]) && Normal(links, b[|b| - 1])
    ensures a == b
  {
    hide Step, Normal;
    if |a| == 1 {
      if |b| > 1 {
        NormalIsLast(links, a[0], b[1]);
      }
    } else if |b| == 1 {
      NormalIsLast(links, b[0], a[1]);
    } else {
      StepUnique(links, a[0], a[1], b[1]);
      TailRewrites(links, a);
      TailRewrites(links, b);
      NormalFormUnique(links, a[1..], b[1..]);
      assert a == [a[0]] + a[1..] && b == [b[0]] + b[1..];
    }
  }

  lemma TailRewrites(links: Links, a: seq<State>)
    requires IsRewriting(links, a) && |a| > 1
    ensures IsRewriting(links, a[1..])
  {
    hide Step;
    forall i, j | 0 <= i < |a[1..]| && j == i + 1 < |a[1..]|
      ensures Step(links, a[1..][i], a[1..][j])
    {
      assert a[1..][i] == a[i + 1] && a[1..][j] == a[j + 1];
    }
  }

  lemma StepFirst(links: Links, s: State, a: seq<State>)
    requires IsRewriting(links, a) && Step(links, s, a[0])
    ensures IsRewriting(links, [s] + a)
  {
    hide Step;
    var b := [s] + a;
    forall i, j | 0 <= i < |b| && j == i + 1 < |b|
      ensures Step(links, b[i], b[j])
    {
      assert i > 0 ==> b[i] == a[i - 1];
      assert b[j] == a[j - 1];
    }
  }

  // ---------- The walk along the components is such a rewriting ----------

  // All that has been taken is settled.
  lemma TakenSettled(links: Links, used: set<string>, result: seq<string>, todo: seq<string>, i: nat)
    requires Clean(result) && LinksExpanded(links, used, result) && i < |result|
    ensures Settled(links, State(result + todo, used), i)
  {
    hide Join;
    assert (result + todo)[..i + 1] == result[..i + 1];
    assert !Follows(links, used, result[..i + 1]);
  }

  lemma UnsettledIsFirst(links: Links, used: set<string>, result: seq<string>, todo: seq<string>)
    requires Clean(result) && LinksExpanded(links, used, result) && todo != []
    requires !Settled(links, State(result + todo, used), |result|)
    ensures FirstUnsettled(links, State(result + todo, used), |result|)
  {
    hide Settled, Clean, LinksExpanded;
    forall j | 0 <= j < |result|
      ensures Settled(links, State(result + todo, used), j)
    {
      TakenSettled(links, used, result, todo, j);
    }
  }

  // What a component that is no link is taken to.
  lemma TakeStep(links: Links, used: set<string>, result: seq<string>, todo: seq<string>)
    requires Clean(result) && LinksExpanded(links, used, result) && todo != []
    requires todo[0] in {"", ".", ".."}
    ensures Step(links, State(result + todo, used), State(Taken(result, todo[0]) + todo[1..], used))
  {
    hide LinksExpanded, FreshLink;
    var s := State(result + todo, used);
    var i := |result|;
    UnsettledIsFirst(links, used, result, todo);
    assert s.whole[..i] == result && s.whole[i] == todo[0] && s.whole[i + 1..] == todo[1..];
    assert i > 1 ==> s.whole[..i - 1] == result[..i - 1];
    assert StepAt(links, s, i, State(Taken(result, todo[0]) + todo[1..], used));
  }

  lemma FollowStep(links: Links, used: set<string>, result: seq<string>, todo: seq<string>)
    requires Clean(result) && LinksExpanded(links, used, result) && todo != []
    requires todo[0] !in {"", ".", ".."} && Follows(links, used, result + [todo[0]])
    ensures var link := Join('/', result + [todo[0]]);
            var target := Split('/', links[link]);
            Step(links, State(result + todo, used),
              State((if Absolute(links[link]) then [""] + target[1..] else result + target) + todo[1..], used + {link}))
  {
    hide Join, LinksExpanded, Split;
    var s := State(result + todo, used);
    var i := |result|;
    assert s.whole[..i] == result && s.whole[i] == todo[0] && s.whole[i + 1..] == todo[1..];
    assert s.whole[..i + 1] == result + [todo[0]];
    UnsettledIsFirst(links, used, result, todo);
    var link := Join('/', result + [todo[0]]);
    var target := Split('/', links[link]);
    var t := State((if Absolute(links[link]) then [""] + target[1..] else result + target) + todo[1..], used + {link});
    assert StepAt(links, s, i, t);
  }

  // The rewriting of s by states ends at t.
  ghost predicate Leads(links: Links, s: State, states: seq<State>, t: State)
  {
    IsRewriting(links, states) && states[0] == s && states[|states| - 1] == t && Normal(links, t)
  }

  lemma LeadsFrom(links: Links, s: State, next: State, states: seq<State>, t: State)
    requires Step(links, s, next) && Leads(links, next, states, t)
    ensures Leads(links, s, [s] + states, t)
  {
    hide Step, Normal, IsRewriting;
    NonEmpty(links, states);
    StepFirst(links, s, states);
  }

  lemma NonEmpty(links: Links, states: seq<State>)
    requires IsRewriting(links, states)
    ensures states != []
  {
  }

  ghost function EndOf(links: Links, used: set<string>, result: seq<string>, todo: seq<string>): State
  {
    var r := Resolve(links, used, result, todo);
    State(r.0, r.1)
  }

  lemma EndTaken(links: Links, used: set<string>, result: seq<string>, todo: seq<string>)
    requires todo != [] && !Follows(links, used, Taken(result, todo[0]))
    ensures EndOf(links, used, result, todo) == EndOf(links, used, Taken(result, todo[0]), todo[1..])
  {
  }

  lemma EndFollowed(links: Links, used: set<string>, result: seq<string>, todo: seq<string>)
    requires todo != [] && todo[0] !in {"", ".", ".."} && Follows(links, used, result + [todo[0]])
    ensures var link := Join('/', result + [todo[0]]);
            var target := Split('/', links[link]);
            EndOf(links, used, result, todo) ==
              if Absolute(links[link]) then EndOf(links, used + {link}, [""], target[1..] + todo[1..])
              else EndOf(links, used + {link}, result, target + todo[1..])
  {
    var next := result + [todo[0]];
    assert next == Taken(result, todo[0]) && next[..|next| - 1] == result;
  }

  lemma {:induction false} ResolveRewrites(links: Links, used: set<string>, result: seq<string>, todo: seq<string>)
      returns (states: seq<State>)
    requires Clean(result) && Free('/', todo) && LinksExpanded(links, used, result)
    ensures Leads(links, State(result + todo, used), states, EndOf(links, used, result, todo))
    decreases links.Keys - used, |todo|
  {
    hide Clean, LinksExpanded, Step, Normal, IsRewriting, Settled, Join, Split, Resolve, EndOf, Leads, Follows;
    if todo == [] {
      assert result + todo == result;
      states := [State(result, used)];
      AllSettled(links, used, result);
    } else {
      var s, next := State(result + todo, used), Taken(result, todo[0]);
      TakenClean(result, todo[0]);
      if todo[0] in {"", ".", ".."} {
        TakeStep(links, used, result, todo);
        TakenAgain(links, used, result, todo[0]);
        EndTaken(links, used, result, todo);
        states := ResolveRewrites(links, used, next, todo[1..]);
        LeadsFrom(links, s, State(next + todo[1..], used), states, EndOf(links, used, result, todo));
        states := [s] + states;
      } else if !Follows(links, used, next) {
        TakenExpanded(links, used, result, todo[0]);
        EndTaken(links, used, result, todo);
        states := ResolveRewrites(links, used, next, todo[1..]);
        assert next + todo[1..] == result + todo;
      } else {
        states := FollowRewrites(links, used, result, todo);
      }
    }
  }

  lemma {:induction false} FollowRewrites(links: Links, used: set<string>, result: seq<string>, todo: seq<string>)
      returns (states: seq<State>)
    requires Clean(result) && Free('/', todo) && LinksExpanded(links, used, result)
    requires todo != [] && todo[0] !in {"", ".", ".."} && Follows(links, used, result + [todo[0]])
    ensures Leads(links, State(result + todo, used), states, EndOf(links, used, result, todo))
    decreases links.Keys - used, |todo|, 0
  {
    hide Clean, LinksExpanded, Step, Normal, IsRewriting, Settled, Join, Split, Resolve, EndOf, Leads;
    var s, next := State(result + todo, used), result + [todo[0]];
    assert next[..|next| - 1] == result && next == Taken(result, todo[0]);
    TakenClean(result, todo[0]);
    FollowStep(links, used, result, todo);
    EndFollowed(links, used, result, todo);
    var link := Join('/', next);
    var target := Split('/', links[link]);
    SplitParts('/', links[link]);
    assert link in links.Keys - used && link !in links.Keys - (used + {link});
    RestartExpanded(links, used, result, next, link);
    if Absolute(links[link]) {
      states := ResolveRewrites(links, used + {link}, [""], target[1..] + todo[1..]);
      assert [""] + (target[1..] + todo[1..]) == [""] + target[1..] + todo[1..];
      var t := State([""] + target[1..] + todo[1..], used + {link});
      LeadsFrom(links, s, t, states, EndOf(links, used, result, todo));
    } else {
      states := ResolveRewrites(links, used + {link}, result, target + todo[1..]);
      assert result + (target + todo[1..]) == result + target + todo[1..];
      var t := State(result + target + todo[1..], used + {link});
      LeadsFrom(links, s, t, states, EndOf(links, used, result, todo));
    }
    states := [s] + states;
  }

  lemma AllSettled(links: Links, used: set<string>, result: seq<string>)
    requires Clean(result) && LinksExpanded(links, used, result)
    ensures Leads(links, State(result, used), [State(result, used)], EndOf(links, used, result, []))
  {
    hide Settled, Clean, LinksExpanded;
    forall i | 0 <= i < |result|
      ensures Settled(links, State(result, used), i)
    {
      TakenSettled(links, used, result, [], i);
      assert result + [] == result;
    }
  }

  // A component that vanishes leads to no link that has not been expanded.
  lemma TakenAgain(links: Links, used: set<string>, result: seq<string>, component: string)
    requires Clean(result) && LinksExpanded(links, used, result) && component in {"", ".", ".."}
    ensures !Follows(links, used, Taken(result, component)) && LinksExpanded(links, used, Taken(result, component))
  {
    hide Follows;
    var next := Taken(result, component);
    assert next == result[..|next|];
    assert !Follows(links, used, result[..|next|]);
    TakenExpanded(links, used, result, component);
  }

  // The canonical path is the end of the rewriting of the path, made absolute.
  lemma CanonicalizeIsNormalForm(links: Links, cwd: string, path: string) returns (states: seq<State>)
    requires path != "" && Directory(cwd)
    ensures IsRewriting(links, states) && Normal(links, states[|states| - 1])
    ensures states[0] == State(Split('/', if path[0] in "/\\" then Slashed(path) else cwd + "/" + Slashed(path)), {})
    ensures Canonicalize(links, cwd, path) == Spelled(states[|states| - 1].whole)
    ensures forall other :: IsRewriting(links, other) && other[0] == states[0] && Normal(links, other[|other| - 1]) ==>
              other == states
  {
    hide Split, Join, Normal, Step;
    AnchoredParts(cwd, path);
    var parts := Split('/', Anchored(cwd, path));
    assert Taken([], parts[0]) == [""];
    assert parts == [""] + parts[1..];
    RootExpanded(links);
    states := ResolveRewrites(links, {}, [""], parts[1..]);
    forall other | IsRewriting(links, other) && other[0] == states[0] && Normal(links, other[|other| - 1])
      ensures other == states
    {
      NormalFormUnique(links, other, states);
    }
  }

  lemma RootExpanded(links: Links)
    ensures LinksExpanded(links, {}, [""]) && Clean([""])
  {
  }

  // ---------- A link may be replaced by what it stands for ----------

  // The links expanded on the way.
  function Expanded(links: Links, cwd: string, path: string): set<string>
    requires path != ""
  {
    Resolve(links, {}, [], Split('/', Anchored(cwd, path))).1
  }

  lemma {:induction false} ResolveGrows(links: Links, used: set<string>, result: seq<string>, todo: seq<string>)
    ensures used <= Resolve(links, used, result, todo).1
    decreases links.Keys - used, |todo|
  {
    hide Join, Split, Taken;
    if todo != [] {
      var next := Taken(result, todo[0]);
      if Follows(links, used, next) {
        var link := Join('/', next);
        var target := Split('/', links[link]);
        assert link in links.Keys - used && link !in links.Keys - (used + {link});
        if Absolute(links[link]) {
          ResolveGrows(links, used + {link}, [""], target[1..] + todo[1..]);
        } else {
          ResolveGrows(links, used + {link}, next[..|next| - 1], target + todo[1..]);
        }
      } else {
        ResolveGrows(links, used, next, todo[1..]);
      }
    }
  }

  // A link that is not met need not be told from one that has been expanded.
  lemma {:induction false} UsedUnmet(
      links: Links, used: set<string>, x: string, result: seq<string>, todo: seq<string>)
    requires x !in Resolve(links, used, result, todo).1
    ensures Resolve(links, used + {x}, result, todo).0 == Resolve(links, used, result, todo).0
    decreases links.Keys - used, |todo|
  {
    hide Join, Split, Taken;
    if todo != [] {
      var next := Taken(result, todo[0]);
      if Follows(links, used, next) {
        var link := Join('/', next);
        var target := Split('/', links[link]);
        assert link in links.Keys - used && link !in links.Keys - (used + {link});
        var more := if Absolute(links[link]) then target[1..] + todo[1..] else target + todo[1..];
        var from := if Absolute(links[link]) then [""] else next[..|next| - 1];
        ResolveGrows(links, used + {link}, from, more);
        assert link != x;
        assert used + {x} + {link} == used + {link} + {x};
        UsedUnmet(links, used + {link}, x, from, more);
      } else {
        UsedUnmet(links, used, x, next, todo[1..]);
      }
    }
  }

  ghost predicate NoLinkIn(links: Links, d: seq<string>)
  {
    forall n :: 1 < n <= |d| ==> Join('/', d[..n]) !in links
  }

  lemma {:induction false} WalkPlain(links: Links, d: seq<string>, n: nat, todo: seq<string>)
    requires Clean(d) && NoLinkIn(links, d) && 1 <= n <= |d|
    ensures Resolve(links, {}, d[..n], d[n..] + todo) == Resolve(links, {}, d, todo)
    decreases |d| - n
  {
    hide Join, Split;
    if n == |d| {
      assert d[..n] == d && d[n..] + todo == todo;
    } else {
      var rest := d[n..] + todo;
      assert Taken(d[..n], rest[0]) == d[..n + 1];
      assert rest[1..] == d[n + 1..] + todo;
      WalkPlain(links, d, n + 1, todo);
    }
  }

  lemma WalkFromRoot(links: Links, d: seq<string>, todo: seq<string>)
    requires Clean(d) && NoLinkIn(links, d)
    ensures Resolve(links, {}, [], d + todo) == Resolve(links, {}, d, todo)
  {
    hide Join, Split;
    assert d[..1] == [""] && Taken([], "") == [""];
    assert (d + todo)[1..] == d[1..] + todo;
    WalkPlain(links, d, 1, todo);
  }

  // The components of an absolute path without backslashes.
  lemma PartsOf(cwd: string, parts: seq<string>)
    requires |parts| > 1 && parts[0] == "" && Free('/', parts) && '\\' !in Join('/', parts)
    ensures Join('/', parts) != "" && Split('/', Anchored(cwd, Join('/', parts))) == parts
  {
    hide Split;
    var p := Join('/', parts);
    assert p == "" + "/" + Join('/', parts[1..]);
    assert Slashed(p) == p;
    SplitJoined('/', parts);
  }

  // The components of d/link/rest when the link stands for target.
  function Replaced(d: seq<string>, target: string, rest: seq<string>): seq<string>
  {
    if Absolute(target) then Split('/', target) + rest else d + Split('/', target) + rest
  }

  // A path through the first link it meets is the path through the target of the link, if
  // that does not lead through the link again.
  lemma LinkStandsForTarget(links: Links, cwd: string, d: seq<string>, name: string, rest: seq<string>)
    requires Clean(d) && NoLinkIn(links, d) && Plain(name) && Free('/', rest)
    requires var link := Join('/', d + [name]);
             && link in links && links[link] != ""
             && '\\' !in Join('/', d + [name] + rest) && '\\' !in links[link]
             && '\\' !in Join('/', Replaced(d, links[link], rest))
             && Join('/', Replaced(d, links[link], rest)) != ""
             && link !in Expanded(links, cwd, Join('/', Replaced(d, links[link], rest)))
    ensures Join('/', d + [name] + rest) != ""
    ensures Canonicalize(links, cwd, Join('/', d + [name] + rest)) ==
            Canonicalize(links, cwd, Join('/', Replaced(d, links[Join('/', d + [name])], rest)))
  {
    hide Join, Split, Resolve;
    var link := Join('/', d + [name]);
    var target := Split('/', links[link]);
    SplitParts('/', links[link]);
    PartsOf(cwd, d + [name] + rest);
    assert d + [name] + rest == d + ([name] + rest);
    WalkFromRoot(links, d, [name] + rest);
    FollowFirst(links, d, name, rest);
    if Absolute(links[link]) {
      AbsoluteParts(links[link]);
      PartsOf(cwd, target + rest);
      assert target + rest == [""] + (target[1..] + rest);
      RootExpanded(links);
      WalkFromRoot(links, [""], target[1..] + rest);
      UsedUnmet(links, {}, link, [""], target[1..] + rest);
      assert {} + {link} == {link};
    } else {
      PartsOf(cwd, d + target + rest);
      assert d + target + rest == d + (target + rest);
      WalkFromRoot(links, d, target + rest);
      UsedUnmet(links, {}, link, d, target + rest);
      assert {} + {link} == {link};
    }
  }

  lemma AbsoluteParts(target: string)
    requires Absolute(target) && '\\' !in target
    ensures var parts := Split('/', target);
            |parts| > 1 && parts[0] == ""
  {
    FindFirst('/', target, 0);
    assert target[0] in target;
  }

  lemma FollowFirst(links: Links, d: seq<string>, name: string, rest: seq<string>)
    requires Clean(d) && Plain(name) && Join('/', d + [name]) in links && links[Join('/', d + [name])] != ""
    ensures var link := Join('/', d + [name]);
            var target := Split('/', links[link]);
            Resolve(links, {}, d, [name] + rest) ==
              if Absolute(links[link]) then Resolve(links, {link}, [""], target[1..] + rest)
              else Resolve(links, {link}, d, target + rest)
  {
    hide Join, Split;
    var next := d + [name];
    assert Taken(d, name) == next && next[..|next| - 1] == d && ([name] + rest)[1..] == rest;
    assert {} + {Join('/', next)} == {Join('/', next)};
  }
}
