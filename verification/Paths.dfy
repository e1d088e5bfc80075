// Path algebra (src/Util.cc): canonical paths, relative paths and containment.
module Paths {
  import opened Text

  // What readlink answers for the paths that are symbolic links.
  type Links = map<string, string>

  function Slashed(path: string): string
  {
    seq(|path|, i requires 0 <= i < |path| => if path[i] == '\\' then '/' else path[i])
  }

  predicate Absolute(path: string)
  {
    path != "" && (path[0] == '/' || path[0] == '\\')
  }

  // One component, pushed onto the components so far.
  function Taken(result: seq<string>, component: string): seq<string>
  {
    if component == "" && result != [] then result
    else if component == "." then result
    else if component == ".." then (if |result| > 1 then result[..|result| - 1] else result)
    else result + [component]
  }

  predicate Follows(links: Links, saw: set<string>, result: seq<string>)
  {
    |result| > 1 && Join('/', result) !in saw && Join('/', result) in links && links[Join('/', result)] != ""
  }

  // The components left when all of todo is taken, and the links expanded on the way.
  function Resolve(links: Links, saw: set<string>, result: seq<string>, todo: seq<string>): (seq<string>, set<string>)
    decreases links.Keys - saw, |todo|
  {
    if todo == [] then (result, saw)
    else
      var next := Taken(result, todo[0]);
      if Follows(links, saw, next) then
        var link := Join('/', next);
        var target := Split('/', links[link]);
        assert link in links.Keys - saw && link !in links.Keys - (saw + {link});
        if Absolute(links[link]) then Resolve(links, saw + {link}, [""], target[1..] + todo[1..])
        else Resolve(links, saw + {link}, next[..|next| - 1], target + todo[1..])
      else Resolve(links, saw, next, todo[1..])
  }

  function Spelled(result: seq<string>): string
  {
    Join('/', result) + (if |result| == 1 then "/" else "")
  }

  function Anchored(cwd: string, path: string): string
  {
    if Absolute(Slashed(path)) then Slashed(path) else cwd + "/" + Slashed(path)
  }

  function Canonicalize(links: Links, cwd: string, path: string): string
    requires path != ""
  {
    Spelled(Resolve(links, {}, [], Split('/', Anchored(cwd, path))).0)
  }

  // What getCurrentDirectory returns.
  predicate Directory(cwd: string)
  {
    cwd != "" && cwd[0] == '/' && '\\' !in cwd
  }

  type Dir = d: string | Directory(d) witness "/"

  // ---------- Canonical form ----------

  ghost predicate Plain(component: string)
  {
    component != "" && component != "." && component != ".." && '/' !in component
  }

  ghost predicate Clean(result: seq<string>)
  {
    result != [] && result[0] == "" && forall i :: 1 <= i < |result| ==> Plain(result[i])
  }

  // No '.', no '..', no empty component.
  ghost predicate IsCanonical(path: string)
  {
    exists parts :: Clean(parts) && path == Spelled(parts)
  }

  lemma TakenClean(result: seq<string>, component: string)
    requires Clean(result) && '/' !in component
    ensures Clean(Taken(result, component))
  {
  }

  // Every prefix that is a link has been expanded before.
  ghost predicate LinksExpanded(links: Links, saw: set<string>, result: seq<string>)
  {
    forall n :: 0 <= n <= |result| ==> !Follows(links, saw, result[..n])
  }

  lemma {:induction false} ResolveClean(links: Links, saw: set<string>, result: seq<string>, todo: seq<string>)
    requires Clean(result) && Free('/', todo) && LinksExpanded(links, saw, result)
    ensures var r := Resolve(links, saw, result, todo);
            Clean(r.0) && saw <= r.1 <= saw + links.Keys && LinksExpanded(links, r.1, r.0)
    decreases links.Keys - saw, |todo|
  {
    hide Clean, LinksExpanded;
    if todo != [] {
      var next := Taken(result, todo[0]);
      TakenClean(result, todo[0]);
      if Follows(links, saw, next) {
        var link := Join('/', next);
        var target := Split('/', links[link]);
        SplitParts('/', links[link]);
        assert link in links.Keys - saw && link !in links.Keys - (saw + {link});
        RestartExpanded(links, saw, result, next, link);
        if Absolute(links[link]) {
          ResolveClean(links, saw + {link}, [""], target[1..] + todo[1..]);
        } else {
          ResolveClean(links, saw + {link}, next[..|next| - 1], target + todo[1..]);
        }
      } else {
        TakenExpanded(links, saw, result, todo[0]);
        ResolveClean(links, saw, next, todo[1..]);
      }
    }
  }

  lemma TakenExpanded(links: Links, saw: set<string>, result: seq<string>, component: string)
    requires LinksExpanded(links, saw, result) && !Follows(links, saw, Taken(result, component))
    ensures LinksExpanded(links, saw, Taken(result, component))
  {
    hide Follows;
    var next := Taken(result, component);
    forall n | 0 <= n <= |next|
      ensures !Follows(links, saw, next[..n])
    {
      if n == |next| {
        assert next[..n] == next;
      } else {
        assert next[..n] == result[..n];
      }
    }
  }

  lemma RestartExpanded(links: Links, saw: set<string>, result: seq<string>, next: seq<string>, link: string)
    requires Clean(result) && Clean(next) && LinksExpanded(links, saw, result)
    requires |next| > 1 && (next == result || next == result[..|result| - 1] || next[..|next| - 1] == result)
    ensures LinksExpanded(links, saw + {link}, next[..|next| - 1]) && LinksExpanded(links, saw + {link}, [""])
    ensures Clean(next[..|next| - 1]) && Clean([""])
  {
    var cut := next[..|next| - 1];
    forall n | 0 <= n <= |cut|
      ensures !Follows(links, saw + {link}, cut[..n])
    {
      assert cut[..n] == result[..n];
    }
  }

  // An anchored path starts with '/', so its first component is empty.
  lemma AnchoredParts(cwd: string, path: string)
    requires path != "" && Directory(cwd)
    ensures var parts := Split('/', Anchored(cwd, path));
            parts[0] == "" && Free('/', parts) && |parts| > 1
  {
    var p := Anchored(cwd, path);
    assert p[0] == '/';
    FindFirst('/', p, 0);
    SplitParts('/', p);
  }

  // Whatever links there are: the path returned is canonical, and of its prefixes only
  // those links are left that had been expanded once already.
  lemma CanonicalizeShape(links: Links, cwd: string, path: string)
    requires path != "" && Directory(cwd)
    ensures var r := Resolve(links, {}, [], Split('/', Anchored(cwd, path)));
            && Clean(r.0) && Canonicalize(links, cwd, path) == Spelled(r.0)
            && r.1 <= links.Keys && LinksExpanded(links, r.1, r.0)
    ensures IsCanonical(Canonicalize(links, cwd, path))
  {
    AnchoredParts(cwd, path);
    var parts := Split('/', Anchored(cwd, path));
    assert Taken([], parts[0]) == [""];
    ResolveClean(links, {}, [""], parts[1..]);
  }

  // ---------- Without links ----------

  function TakenAll(result: seq<string>, todo: seq<string>): seq<string>
    decreases |todo|
  {
    if todo == [] then result else TakenAll(Taken(result, todo[0]), todo[1..])
  }

  lemma {:induction false} NoLinks(result: seq<string>, todo: seq<string>)
    ensures Resolve(map[], {}, result, todo).0 == TakenAll(result, todo)
    decreases todo
  {
    if todo != [] {
      NoLinks(Taken(result, todo[0]), todo[1..]);
    }
  }

  lemma {:induction false} TakenAllAppend(result: seq<string>, a: seq<string>, b: seq<string>)
    ensures TakenAll(result, a + b) == TakenAll(TakenAll(result, a), b)
    decreases |a|
  {
    if a == [] {
      assert a + b == b;
    } else {
      assert (a + b)[1..] == a[1..] + b;
      TakenAllAppend(Taken(result, a[0]), a[1..], b);
    }
  }

  lemma {:induction false} TakePlain(result: seq<string>, parts: seq<string>)
    requires forall i :: 0 <= i < |parts| ==> Plain(parts[i])
    ensures TakenAll(result, parts) == result + parts
    decreases |parts|
  {
    if parts != [] {
      TakePlain(result + [parts[0]], parts[1..]);
      assert result + [parts[0]] + parts[1..] == result + parts;
    } else {
      assert result + parts == result;
    }
  }

  function Repeat(component: string, n: nat): (r: seq<string>)
    ensures |r| == n && forall i :: 0 <= i < n ==> r[i] == component
  {
    seq(n, i => component)
  }

  lemma {:induction false} TakeUps(result: seq<string>, n: nat)
    requires result != []
    ensures TakenAll(result, Repeat("..", n)) == result[..if n < |result| then |result| - n else 1]
    decreases n
  {
    if n == 0 {
      assert result[..|result|] == result;
    } else {
      assert Repeat("..", n)[1..] == Repeat("..", n - 1);
      TakeUps(Taken(result, ".."), n - 1);
    }
  }

  lemma TakeEmpty()
    ensures TakenAll([""], [""]) == [""]
  {
    assert [""][1..] == [];
    assert Taken([""], "") == [""];
  }

  // The components of a canonical path as split finds them.
  lemma CanonicalParts(parts: seq<string>)
    requires Clean(parts)
    ensures Split('/', Spelled(parts)) == if |parts| == 1 then ["", ""] else parts
    ensures TakenAll([], Split('/', Spelled(parts))) == parts
    ensures Spelled(parts)[0] == '/'
  {
    if |parts| == 1 {
      SplitOnce('/', "", "");
      assert "" + ['/'] + "" == "/";
      assert parts == [""];
      assert Taken([], "") == [""] && ["", ""][1..] == [""];
      TakeEmpty();
    } else {
      SplitJoined('/', parts);
      assert Spelled(parts) == Join('/', parts);
      assert parts == [""] + parts[1..];
      assert Taken([], parts[0]) == [""];
      TakePlain([""], parts[1..]);
    }
  }

  // Without links a canonical path without backslashes is left as it is; so
  // canonicalizing twice is canonicalizing once.
  lemma CanonicalStays(cwd: string, path: string)
    requires IsCanonical(path) && '\\' !in path
    ensures path != "" && Canonicalize(map[], cwd, path) == path
  {
    var parts :| Clean(parts) && path == Spelled(parts);
    CanonicalParts(parts);
    assert Slashed(path) == path;
    NoLinks([], Split('/', path));
  }

  lemma {:induction false} JoinKeepsFree(c: char, parts: seq<string>)
    requires c != '/' && Free(c, parts)
    ensures c !in Join('/', parts)
  {
    if |parts| > 1 {
      JoinKeepsFree(c, parts[1..]);
    }
  }

  lemma {:induction false} PartsFree(c: char, s: string)
    requires c !in s
    ensures Free(c, Split('/', s))
    decreases |s|
  {
    var p := Find('/', s);
    if p < |s| {
      PartsFree(c, s[p + 1..]);
    }
  }

  lemma {:induction false} TakenAllFree(c: char, result: seq<string>, todo: seq<string>)
    requires Free(c, result) && Free(c, todo)
    ensures Free(c, TakenAll(result, todo))
    decreases |todo|
  {
    if todo != [] {
      TakenAllFree(c, Taken(result, todo[0]), todo[1..]);
    }
  }

  lemma CanonicalizeIdempotent(cwd: string, path: string)
    requires path != "" && Directory(cwd)
    ensures var r := Canonicalize(map[], cwd, path);
            IsCanonical(r) && '\\' !in r && r != "" && Canonicalize(map[], cwd, r) == r
  {
    CanonicalizeShape(map[], cwd, path);
    var parts := Split('/', Anchored(cwd, path));
    PartsFree('\\', Anchored(cwd, path));
    TakenAllFree('\\', [], parts);
    NoLinks([], parts);
    JoinKeepsFree('\\', TakenAll([], parts));
    CanonicalStays(cwd, Canonicalize(map[], cwd, path));
  }

  // ---------- Relative paths ----------

  function Common(p: seq<string>, l: seq<string>): (n: nat)
    ensures n <= |p| && n <= |l| && p[..n] == l[..n]
    ensures n < |p| && n < |l| ==> p[n] != l[n]
  {
    if p == [] || l == [] || p[0] != l[0] then 0
    else
      var n := Common(p[1..], l[1..]);
      assert p[..n + 1] == [p[0]] + p[1..][..n] && l[..n + 1] == [l[0]] + l[1..][..n];
      n + 1
  }

  function Ups(n: nat): string
  {
    if n == 0 then "" else "../" + Ups(n - 1)
  }

  function Trimmed(result: string): string
  {
    if result == "" then "." else if result[|result| - 1] == '/' then result[..|result| - 1] else result
  }

  function AbsToRel(path: string, container: string): string
  {
    var (p, l) := (Split('/', path), Split('/', container));
    var n := Common(p, l);
    Trimmed(Ups(|l| - n) + Join('/', p[n..]))
  }

  predicate IsDirUnder(dir: string, topdir: string)
  {
    var rel := AbsToRel(dir, topdir);
    !(rel == ".." || (|rel| > 2 && rel[..3] == "../"))
  }

  lemma {:induction false} UpsJoin(n: nat, parts: seq<string>)
    requires parts != []
    ensures Ups(n) + Join('/', parts) == Join('/', Repeat("..", n) + parts)
  {
    if n == 0 {
      assert Repeat("..", 0) + parts == parts;
      assert Ups(0) + Join('/', parts) == Join('/', parts);
    } else {
      UpsJoin(n - 1, parts);
      assert (Repeat("..", n) + parts)[1..] == Repeat("..", n - 1) + parts;
      assert Ups(n) + Join('/', parts) == "../" + (Ups(n - 1) + Join('/', parts));
    }
  }

  lemma {:induction false} LastCharOfJoin(parts: seq<string>)
    requires parts != [] && parts[|parts| - 1] != "" && '/' !in parts[|parts| - 1]
    ensures var s := Join('/', parts);
            s != "" && s[|s| - 1] != '/'
  {
    if |parts| > 1 {
      LastCharOfJoin(parts[1..]);
    }
  }

  lemma {:induction false} OnlyUps(k: nat)
    requires k > 0
    ensures Split('/', Trimmed(Ups(k))) == Repeat("..", k)
  {
    UpsJoin(k - 1, [".."]);
    assert Repeat("..", k - 1) + [".."] == Repeat("..", k);
    UpsEnd(k);
    assert Join('/', [".."]) == "..";
    assert Ups(k - 1) + "../" == (Ups(k - 1) + "..") + "/";
    assert Trimmed(Ups(k)) == Ups(k - 1) + "..";
    SplitJoined('/', Repeat("..", k));
  }

  lemma UpsThenParts(k: nat, rest: seq<string>)
    requires rest != [] && forall i :: 0 <= i < |rest| ==> Plain(rest[i])
    ensures Split('/', Trimmed(Ups(k) + Join('/', rest))) == Repeat("..", k) + rest
  {
    var all := Repeat("..", k) + rest;
    UpsJoin(k, rest);
    LastCharOfJoin(all);
    SplitJoined('/', all);
  }

  // The components of the relative path: one '..' for each component of the container
  // that is not shared, then the rest of the path.
  lemma RelParts(p: seq<string>, l: seq<string>)
    requires Clean(p) && Clean(l)
    ensures var (sp, sl) := (Split('/', Spelled(p)), Split('/', Spelled(l)));
            var n := Common(sp, sl);
            && n >= 1
            && Split('/', AbsToRel(Spelled(p), Spelled(l))) ==
                 (if n == |sp| && n == |sl| then ["."]
                  else Repeat("..", |sl| - n) + (if |p| == 1 then [] else sp[n..]))
  {
    hide Split, Trimmed, Spelled, Join;
    CanonicalParts(p);
    CanonicalParts(l);
    var sp, sl := Split('/', Spelled(p)), Split('/', Spelled(l));
    var n := Common(sp, sl);
    var k, rest := |sl| - n, sp[n..];
    assert sp[0] == sl[0] == "";
    if rest == [] || |p| == 1 {
      JoinEmpty();
      assert rest == [] || rest == [""];
      assert Ups(k) + Join('/', rest) == Ups(k);
      assert Repeat("..", k) + [] == Repeat("..", k);
      if k > 0 {
        OnlyUps(k);
      } else {
        TrimmedEmpty();
      }
    } else {
      UpsThenParts(k, rest);
    }
  }

  lemma JoinEmpty()
    ensures Join('/', []) == "" && Join('/', [""]) == ""
  {
  }

  lemma TrimmedEmpty()
    ensures Split('/', Trimmed("")) == ["."]
  {
    SplitOnce('/', ".", "");
  }

  lemma {:induction false} UpsEnd(k: nat)
    requires k > 0
    ensures Ups(k) == Ups(k - 1) + "../"
  {
    if k > 1 {
      UpsEnd(k - 1);
    }
  }

  // Going from a container along the relative path leads back to the path.
  lemma RelRoundTrip(cwd: string, p: seq<string>, l: seq<string>)
    requires Clean(p) && Clean(l) && '\\' !in Spelled(p) && '\\' !in Spelled(l)
    ensures var path, container := Spelled(p), Spelled(l);
            container + "/" + AbsToRel(path, container) != "" &&
            Canonicalize(map[], cwd, container + "/" + AbsToRel(path, container)) == path
  {
    hide Split, Join, Spelled, Trimmed, AbsToRel;
    var path, container := Spelled(p), Spelled(l);
    var rel := AbsToRel(path, container);
    var whole := container + ['/'] + rel;
    RelFree(path, container);
    assert Slashed(whole) == whole;
    SplitSplits('/', container, rel);
    CanonicalParts(l);
    NoLinks([], Split('/', whole));
    TakenAllAppend([], Split('/', container), Split('/', rel));
    TakeRel(p, l);
  }

  lemma TakeRel(p: seq<string>, l: seq<string>)
    requires Clean(p) && Clean(l)
    ensures TakenAll(l, Split('/', AbsToRel(Spelled(p), Spelled(l)))) == p
  {
    hide Split, Join, Spelled, Trimmed, AbsToRel, TakenAll;
    CanonicalParts(p);
    CanonicalParts(l);
    RelParts(p, l);
    var sp, sl := Split('/', Spelled(p)), Split('/', Spelled(l));
    var n := Common(sp, sl);
    if n == |sp| && n == |sl| {
      assert sp == sp[..n] == sl;
      TakeDot(l);
    } else {
      var k := |sl| - n;
      var tail := if |p| == 1 then [] else sp[n..];
      TakenAllAppend(l, Repeat("..", k), tail);
      TakeUps(l, k);
      assert TakenAll(l, Repeat("..", k)) == sl[..n];
      TakePlain(sl[..n], tail);
    }
  }

  lemma TakeDot(result: seq<string>)
    ensures TakenAll(result, ["."]) == result
  {
    assert ["."][1..] == [];
  }

  lemma {:induction false} UpsFree(n: nat)
    ensures '\\' !in Ups(n)
  {
    if n > 0 {
      UpsFree(n - 1);
    }
  }

  lemma RelFree(path: string, container: string)
    requires '\\' !in path
    ensures '\\' !in AbsToRel(path, container)
  {
    var p, l := Split('/', path), Split('/', container);
    var n := Common(p, l);
    PartsFree('\\', path);
    JoinKeepsFree('\\', p[n..]);
    UpsFree(|l| - n);
  }

  lemma StartsWithUp(rel: string)
    ensures rel == ".." || (|rel| > 2 && rel[..3] == "../") <==> Split('/', rel)[0] == ".."
  {
    var q := Find('/', rel);
    assert Split('/', rel)[0] == rel[..q];
    if rel == ".." {
      FindFirst('/', rel, 2);
    }
    if |rel| > 2 && rel[..3] == "../" {
      assert rel[0] == rel[..3][0] && rel[1] == rel[..3][1] && rel[2] == rel[..3][2];
      FindFirst('/', rel, 2);
    }
    if rel[..q] == ".." && q < |rel| {
      assert rel[..3] == rel[..2] + [rel[2]];
    }
  }

  // For a containing directory other than "/", isDirUnder compares components; nothing
  // but "/" itself counts as under "/".
  lemma IsDirUnderExact(p: seq<string>, l: seq<string>)
    requires Clean(p) && Clean(l)
    ensures IsDirUnder(Spelled(p), Spelled(l)) <==> if |l| == 1 then |p| == 1 else l <= p
  {
    hide Split, Join, Spelled, Trimmed, AbsToRel;
    CanonicalParts(p);
    CanonicalParts(l);
    RelParts(p, l);
    StartsWithUp(AbsToRel(Spelled(p), Spelled(l)));
    var sp, sl := Split('/', Spelled(p)), Split('/', Spelled(l));
    var n := Common(sp, sl);
    assert IsDirUnder(Spelled(p), Spelled(l)) <==> n == |sl|;
    assert n == |sl| <==> sl <= sp;
  }

  // ---------- The loops ----------

  // canonicalizePath: links are read where they are met, and the components they stand
  // for are spliced into the list being walked.
  method CanonicalizePath(links: Links, cwd: string, path: string) returns (canonical: string)
    requires path != ""
    ensures canonical == Canonicalize(links, cwd, path)
  {
    hide Split, Join, Taken;
    var sawlinks: set<string> := {};
    var whole := Slashed(path);
    if !Absolute(whole) {
      whole := cwd + "/" + whole;
    }
    var components := SplitString('/', whole);
    var result: seq<string> := [];
    var iter := 0;
    ghost var goal := Resolve(links, {}, [], Split('/', whole));
    while iter < |components|
      invariant 0 <= iter <= |components| && |result| <= iter
      invariant Resolve(links, sawlinks, result, components[iter..]) == goal
      decreases links.Keys - sawlinks, |components| - iter
    {
      ghost var todo := components[iter..];
      ghost var next := Taken(result, todo[0]);
      assert todo[1..] == components[iter + 1..];
      result := Push(result, components[iter]);
      if |result| > 1 {
        var soFar := Join('/', result);
        if soFar !in sawlinks && soFar in links && links[soFar] != "" {
          assert Follows(links, sawlinks, next);
          assert soFar in links.Keys - sawlinks && soFar !in links.Keys - (sawlinks + {soFar});
          sawlinks := sawlinks + {soFar};
          var target := SplitString('/', links[soFar]);
          components := components[..iter + 1] + target + components[iter + 1..];
          if Absolute(links[soFar]) {
            components := components[iter + 1..];
            iter := 0;
            result := [""];
            assert components[1..] == target[1..] + todo[1..];
          } else {
            components := components[..iter] + components[iter + 1..];
            iter := iter - 1;
            result := result[..|result| - 1];
            assert components[iter + 1..] == target + todo[1..];
          }
        }
      }
      iter := iter + 1;
    }
    canonical := Join('/', result);
    if |result| == 1 {
      canonical := canonical + "/";
    }
  }

  method Push(result: seq<string>, component: string) returns (next: seq<string>)
    ensures next == Taken(result, component) && |next| <= |result| + 1
  {
    next := result;
    if component == "" && result != [] {
    } else if component == "." {
    } else if component == ".." {
      if |result| > 1 {
        next := result[..|result| - 1];
      }
    } else {
      next := result + [component];
    }
  }

  method RelativePath(path: string, container: string) returns (result: string)
    ensures result == AbsToRel(path, container)
  {
    hide Split, Join;
    var pitems := SplitString('/', path);
    var litems := SplitString('/', container);
    ghost var p, l, i := pitems, litems, 0;
    while pitems != [] && litems != [] && pitems[0] == litems[0]
      invariant i <= |p| && i <= |l| && pitems == p[i..] && litems == l[i..]
      invariant i + Common(pitems, litems) == Common(p, l)
      decreases |pitems|
    {
      pitems, litems, i := pitems[1..], litems[1..], i + 1;
    }
    result := "";
    for k := 0 to |litems|
      invariant result == Ups(k)
    {
      UpsEnd(k + 1);
      result := result + "../";
    }
    JoinEmpty();
    if pitems != [] {
      result := result + Join('/', pitems);
    }
    if result == "" {
      result := ".";
    } else if result[|result| - 1] == '/' {
      result := result[..|result| - 1];
    }
  }
}
