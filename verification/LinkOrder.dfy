// The interfaces of a whole build (src/Abuild-build.cc, createItemInterface): every node
// imports the interfaces of its direct dependencies and then runs its own file.
module LinkOrder {
  import opened Names
  import opened Traversal
  import opened Evaluation
  import opened Paths
  import opened Interfaces

  datatype Statement =
    | Declare(x: string, location: Location, scope: Scope, vtype: VarType, list: ListType, target: string)
    | Assign(x: string, location: Location, values: seq<string>, kind: Kind, flag: string)
    | ResetOf(x: string, location: Location)

  // An item on one platform.  start is what importing the base interface and the plugins
  // gives; file holds the internal assignments and those of the interface file.
  datatype Node = Node(item: string, platform: string, dir: Dir, start: Table, file: seq<Statement>)

  datatype Project = Project(deps: Graph, order: seq<string>, nodes: map<string, Node>)

  type Tables = map<string, Table>

  // ---------- How one interface comes about ----------

  function Run(node: Node, table: Table, s: Statement): Table
  {
    match s
    case Declare(x, location, scope, vtype, list, target) =>
      if x in table then table else table[x := Variable(location, target, scope, vtype, list, [], [])]
    case Assign(x, _, _, _, _) =>
      if x in table then table[x := Assigned(node.dir, table[x], Entry(node, s))] else table
    case ResetOf(x, location) =>
      if x in table then
        table[x := table[x].(history := [],
          resets := WithReset(table[x].resets, Reset(location, node.item, node.platform)))]
      else table
  }

  function Entry(node: Node, s: Statement): Assignment
    requires s.Assign?
  {
    Assignment(s.location, s.kind, s.flag, node.item, node.platform, s.values)
  }

  predicate RunOk(node: Node, table: Table, s: Statement)
  {
    match s
    case Declare(x, location, _, _, _, _) => x !in table || table[x].declared == location
    case Assign(x, _, _, _, _) => x in table && AssignOk(node.dir, table[x], Entry(node, s))
    case ResetOf(x, _) => x in table
  }

  function RunAll(node: Node, table: Table, file: seq<Statement>): Table
  {
    if file == [] then table
    else Run(node, RunAll(node, table, file[..|file| - 1]), file[|file| - 1])
  }

  predicate RunAllOk(node: Node, table: Table, file: seq<Statement>)
  {
    file == [] ||
    var n := |file| - 1;
    RunAllOk(node, table, file[..n]) && RunOk(node, RunAll(node, table, file[..n]), file[n])
  }

  function ImportAll(p: Project, node: Node, tables: Tables, items: seq<string>): Table
    requires forall d :: d in items ==> d in tables && d in p.nodes
  {
    if items == [] then node.start
    else
      var n := |items| - 1;
      Imported(node.dir, ImportAll(p, node, tables, items[..n]), tables[items[n]], p.nodes[items[n]].item)
  }

  predicate ImportAllOk(p: Project, node: Node, tables: Tables, items: seq<string>)
    requires forall d :: d in items ==> d in tables && d in p.nodes
  {
    items == [] ||
    var n := |items| - 1;
    && ImportAllOk(p, node, tables, items[..n])
    && ImportOk(node.dir, ImportAll(p, node, tables, items[..n]), tables[items[n]], p.nodes[items[n]].item)
  }

  ghost predicate GoodProject(p: Project)
  {
    && NoUnknowns(p.deps)
    && (forall n :: n in p.order <==> n in p.deps)
    && p.nodes.Keys == p.deps.Keys
    && Layered(p.deps, p.order)
  }

  // tables holds the interfaces that a build without errors creates.
  ghost predicate Created(p: Project, tables: Tables)
  {
    && GoodProject(p)
    && tables.Keys == p.deps.Keys
    && (forall n :: n in p.deps ==> CreatedAt(p, tables, n))
  }

  ghost predicate CreatedAt(p: Project, tables: Tables, n: string)
    requires GoodProject(p) && tables.Keys == p.deps.Keys && n in p.deps
  {
    DepsAreNodes(p, n);
    var table := ImportAll(p, p.nodes[n], tables, p.deps[n]);
    && ImportAllOk(p, p.nodes[n], tables, p.deps[n])
    && RunAllOk(p.nodes[n], table, p.nodes[n].file)
    && tables[n] == RunAll(p.nodes[n], table, p.nodes[n].file)
  }

  lemma DepsAreNodes(p: Project, n: string)
    requires GoodProject(p) && n in p.deps
    ensures forall d :: d in p.deps[n] ==> d in p.deps
  {
    forall d | d in p.deps[n]
      ensures d in p.deps
    {
      assert !Missing(p.deps, n, d);
      assert Edge(p.deps, n, d);
    }
  }

  // ---------- One list variable ----------

  // x is a recursive list variable that no file resets, declared alike everywhere and
  // not assigned before the imports.
  ghost predicate ListVariable(p: Project, x: string, v: Variable)
  {
    && v.list != Scalar && v.scope == Recursive && v.history == [] && v.resets == []
    && (forall n :: n in p.nodes && x in p.nodes[n].start ==> p.nodes[n].start[x] == v)
    && (forall n, s :: n in p.nodes && s in p.nodes[n].file && s.x == x ==>
          !s.ResetOf? && (s.Declare? ==> s == Declare(x, v.declared, v.scope, v.vtype, v.list, v.target)))
  }

  // The assignments to x made by a file, as they are stored.
  function Own(node: Node, x: string, v: Variable, file: seq<Statement>): seq<Assignment>
  {
    if file == [] then []
    else
      var n := |file| - 1;
      var s := file[n];
      Own(node, x, v, file[..n]) +
        (if s.Assign? && s.x == x then [Entry(node, s).(value := Stored(node.dir, v, s.values))] else [])
  }

  ghost function OwnOf(p: Project, x: string, v: Variable, n: string): seq<Assignment>
    requires n in p.nodes
  {
    Own(p.nodes[n], x, v, p.nodes[n].file)
  }

  // The t-th assignment to x made by node n.
  ghost predicate MadeBy(p: Project, x: string, v: Variable, n: string, t: int, a: Assignment)
  {
    n in p.nodes && 0 <= t < |OwnOf(p, x, v, n)| && OwnOf(p, x, v, n)[t] == a
  }

  // No two assignments to x have the same location and platform.
  ghost predicate LocationsDistinct(p: Project, x: string, v: Variable)
  {
    forall m, s, a, n, t, b ::
      MadeBy(p, x, v, m, s, a) && MadeBy(p, x, v, n, t, b) && SameKey(a, b.location, b.platform) ==>
      m == n && s == t
  }

  // b has to come before a: the file making a depends on the one making b, or makes b earlier.
  ghost predicate Precedes(p: Project, x: string, v: Variable, b: Assignment, a: Assignment)
  {
    exists n, t, m, s :: MadeBy(p, x, v, n, t, b) && MadeBy(p, x, v, m, s, a) && ((n == m && t < s) || Below(p, m, n))
  }

  // n is a direct or indirect dependency of m.
  ghost predicate Below(p: Project, m: string, n: string)
  {
    m in p.deps && exists d :: d in p.deps[m] && Reaches(p.deps, d, n)
  }

  ghost predicate IsMade(p: Project, x: string, v: Variable, a: Assignment)
  {
    exists n, t :: MadeBy(p, x, v, n, t, a)
  }

  ghost predicate AllMade(p: Project, x: string, v: Variable, h: seq<Assignment>)
  {
    forall a :: a in h ==> IsMade(p, x, v, a)
  }

  // Everything in h comes after all that has to come before it.
  ghost predicate InLinkOrder(p: Project, x: string, v: Variable, h: seq<Assignment>)
  {
    forall i :: 0 <= i < |h| ==> Preceded(p, x, v, h[..i], h[i])
  }

  ghost predicate Preceded(p: Project, x: string, v: Variable, before: seq<Assignment>, a: Assignment)
  {
    forall b :: Precedes(p, x, v, b, a) ==> b in before
  }

  ghost predicate Good(p: Project, x: string, v: Variable, h: seq<Assignment>)
  {
    AllMade(p, x, v, h) && InLinkOrder(p, x, v, h) && KeysDistinct(h)
  }

  // ---------- Merging histories ----------

  lemma PushKeepsOrder(p: Project, x: string, v: Variable, h: seq<Assignment>, a: Assignment)
    requires InLinkOrder(p, x, v, h) && Preceded(p, x, v, h, a)
    ensures InLinkOrder(p, x, v, h + [a])
  {
    hide Preceded;
    var r := h + [a];
    forall i | 0 <= i < |r|
      ensures Preceded(p, x, v, r[..i], r[i])
    {
      if i < |h| {
        assert r[..i] == h[..i];
        assert Preceded(p, x, v, h[..i], h[i]);
      } else {
        assert r[..i] == h;
      }
    }
  }

  lemma MadeOnce(p: Project, x: string, v: Variable, a: Assignment, b: Assignment)
    requires LocationsDistinct(p, x, v) && IsMade(p, x, v, a) && IsMade(p, x, v, b)
    requires SameKey(a, b.location, b.platform)
    ensures a == b
  {
    var m, s :| MadeBy(p, x, v, m, s, a);
    var n, t :| MadeBy(p, x, v, n, t, b);
  }

  lemma {:induction false} OwnIsSettled(node: Node, x: string, v: Variable, file: seq<Statement>, t: nat)
    requires t < |Own(node, x, v, file)|
    ensures SettledValue(v.list, v.vtype, Own(node, x, v, file)[t].value)
  {
    hide SettledValue, Stored;
    var n := |file| - 1;
    if t < |Own(node, x, v, file[..n])| {
      OwnIsSettled(node, x, v, file[..n], t);
    } else {
      StoredIsSettled(node.dir, v, file[n].values);
    }
  }

  lemma StoredAgain(p: Project, x: string, v: Variable, dir: Dir, w: Variable, a: Assignment)
    requires IsMade(p, x, v, a) && w.list == v.list != Scalar && w.vtype == v.vtype
    ensures a.(value := Stored(dir, w, a.value)) == a
  {
    hide Own;
    var n, t :| MadeBy(p, x, v, n, t, a);
    OwnIsSettled(p.nodes[n], x, v, p.nodes[n].file, t);
    assert AdjustedAll(dir, v.vtype, a.value) == a.value;
  }

  lemma {:induction false} MergeHistories(
      p: Project, x: string, v: Variable, dir: Dir, w: Variable, calls: seq<Assignment>)
    requires LocationsDistinct(p, x, v) && w.list == v.list != Scalar && w.vtype == v.vtype
    requires Good(p, x, v, w.history) && AllMade(p, x, v, calls) && InLinkOrder(p, x, v, calls)
    ensures var r := AssignedAll(dir, w, calls);
            && r == w.(history := r.history)
            && Good(p, x, v, r.history)
            && (forall a :: a in r.history <==> a in w.history || a in calls)
  {
    hide LocationsDistinct, IsMade, Preceded, Stored, KeysDistinct, SameKey;
    if calls != [] {
      var n := |calls| - 1;
      var before, a := calls[..n], calls[n];
      assert calls == before + [a];
      assert AllMade(p, x, v, before) && InLinkOrder(p, x, v, before) by {
        assert forall i :: 0 <= i < n ==> before[..i] == calls[..i];
      }
      MergeHistories(p, x, v, dir, w, before);
      var r := AssignedAll(dir, w, before);
      assert a in calls;
      if Seen(r.history, a.location, a.platform) {
        var b :| b in r.history && SameKey(b, a.location, a.platform);
        MadeOnce(p, x, v, b, a);
      } else {
        StoredAgain(p, x, v, dir, r, a);
        assert Preceded(p, x, v, calls[..n], calls[n]);
        PrecededMore(p, x, v, before, r.history, a);
        PushKeepsOrder(p, x, v, r.history, a);
        AssignedKeepsKeys(dir, r, a);
      }
    }
  }

  lemma PrecededMore(p: Project, x: string, v: Variable, h: seq<Assignment>, more: seq<Assignment>, a: Assignment)
    requires Preceded(p, x, v, h, a) && forall b :: b in h ==> b in more
    ensures Preceded(p, x, v, more, a)
  {
  }

  // ---------- Imports ----------

  function HistoryOf(table: Table, x: string): seq<Assignment>
  {
    if x in table then table[x].history else []
  }

  // x is declared in table as v, if at all, and its history is good.
  ghost predicate Holds(p: Project, x: string, v: Variable, table: Table)
  {
    (x in table ==> table[x] == v.(history := table[x].history)) && Good(p, x, v, HistoryOf(table, x))
  }

  lemma ImportKeepsOrder(p: Project, x: string, v: Variable, dir: Dir, table: Table, other: Table, owner: string)
    requires LocationsDistinct(p, x, v) && v.list != Scalar && v.scope == Recursive && v.history == [] && v.resets == []
    requires Holds(p, x, v, table) && Holds(p, x, v, other)
    ensures var r := Imported(dir, table, other, owner);
            && Holds(p, x, v, r)
            && (forall a :: a in HistoryOf(r, x) <==> a in HistoryOf(table, x) || a in HistoryOf(other, x))
  {
    hide Good, AssignedAll;
    var r := Imported(dir, table, other, owner);
    EmptyIsGood(p, x, v);
    if x in other {
      var mine := if x in table then table[x] else Declared(other[x]);
      assert r[x] == Merged(dir, mine, other[x], owner);
      assert WithResets([], []) == [];
      assert mine == v.(history := mine.history) && mine.(resets := []) == mine;
      GoodParts(p, x, v, other[x].history);
      MergeHistories(p, x, v, dir, mine, other[x].history);
    }
  }

  lemma EmptyIsGood(p: Project, x: string, v: Variable)
    ensures Good(p, x, v, [])
  {
  }

  lemma GoodParts(p: Project, x: string, v: Variable, h: seq<Assignment>)
    requires Good(p, x, v, h)
    ensures AllMade(p, x, v, h) && InLinkOrder(p, x, v, h)
  {
  }

  lemma {:induction false} ImportAllKeepsOrder(
      p: Project, x: string, v: Variable, node: Node, tables: Tables, items: seq<string>)
    requires LocationsDistinct(p, x, v) && v.list != Scalar && v.scope == Recursive && v.history == [] && v.resets == []
    requires forall d :: d in items ==> d in tables && d in p.nodes && Holds(p, x, v, tables[d])
    requires x in node.start ==> node.start[x] == v
    ensures var r := ImportAll(p, node, tables, items);
            && Holds(p, x, v, r)
            && (forall a :: a in HistoryOf(r, x) <==> exists d :: d in items && a in HistoryOf(tables[d], x))
  {
    hide Holds, LocationsDistinct, Imported, HistoryOf;
    if items == [] {
      StartHolds(p, x, v, node.start);
    } else {
      var n := |items| - 1;
      assert items == items[..n] + [items[n]];
      ImportAllKeepsOrder(p, x, v, node, tables, items[..n]);
      var before := ImportAll(p, node, tables, items[..n]);
      ImportKeepsOrder(p, x, v, node.dir, before, tables[items[n]], p.nodes[items[n]].item);
      var r := ImportAll(p, node, tables, items);
      forall a
        ensures a in HistoryOf(r, x) <==> exists d :: d in items && a in HistoryOf(tables[d], x)
      {
        if d :| d in items && a in HistoryOf(tables[d], x) {
          assert d in items[..n] || d == items[n];
        }
      }
    }
  }

  lemma StartHolds(p: Project, x: string, v: Variable, start: Table)
    requires v.history == [] && (x in start ==> start[x] == v)
    ensures Holds(p, x, v, start) && HistoryOf(start, x) == []
  {
    EmptyIsGood(p, x, v);
  }

  // ---------- The item's own file ----------

  lemma {:induction false} OwnPrefix(node: Node, x: string, v: Variable, file: seq<Statement>, k: nat)
    requires k <= |file|
    ensures Own(node, x, v, file[..k]) <= Own(node, x, v, file)
    decreases |file|
  {
    hide Stored, Entry;
    var n := |file| - 1;
    if k == |file| {
      assert file[..k] == file;
    } else {
      OwnPrefix(node, x, v, file[..n], k);
      assert file[..n][..k] == file[..k];
    }
  }

  // Made by a direct or indirect dependency of n.
  ghost predicate MadeBelow(p: Project, x: string, v: Variable, n: string, a: Assignment)
  {
    exists m, t :: MadeBy(p, x, v, m, t, a) && Below(p, n, m)
  }

  ghost predicate HasAllBelow(p: Project, x: string, v: Variable, n: string, h: seq<Assignment>)
  {
    forall a :: a in h <==> MadeBelow(p, x, v, n, a)
  }

  lemma OwnNotSeen(p: Project, x: string, v: Variable, n: string, h: seq<Assignment>, t: nat)
    requires LocationsDistinct(p, x, v) && n in p.nodes && !Below(p, n, n) && HasAllBelow(p, x, v, n, h)
    requires t < |OwnOf(p, x, v, n)|
    ensures var a := OwnOf(p, x, v, n)[t];
            !Seen(h + OwnOf(p, x, v, n)[..t], a.location, a.platform)
  {
    hide Below, Own;
    var own := OwnOf(p, x, v, n);
    var a := own[t];
    assert MadeBy(p, x, v, n, t, a);
    forall b | b in h + own[..t]
      ensures !SameKey(b, a.location, a.platform)
    {
      if b in h {
        assert MadeBelow(p, x, v, n, b);
        var m, s :| MadeBy(p, x, v, m, s, b) && Below(p, n, m);
      } else {
        var s :| 0 <= s < t && own[s] == b;
        assert MadeBy(p, x, v, n, s, b);
      }
    }
  }

  lemma OwnPreceded(p: Project, x: string, v: Variable, n: string, h: seq<Assignment>, t: nat)
    requires LocationsDistinct(p, x, v) && n in p.nodes && HasAllBelow(p, x, v, n, h)
    requires t < |OwnOf(p, x, v, n)|
    ensures Preceded(p, x, v, h + OwnOf(p, x, v, n)[..t], OwnOf(p, x, v, n)[t])
  {
    hide Below, Own;
    var own := OwnOf(p, x, v, n);
    var a := own[t];
    assert MadeBy(p, x, v, n, t, a);
    forall b | Precedes(p, x, v, b, a)
      ensures b in h + own[..t]
    {
      var n', t', m, s :| MadeBy(p, x, v, n', t', b) && MadeBy(p, x, v, m, s, a)
            && ((n' == m && t' < s) || Below(p, m, n'));
      assert SameKey(a, a.location, a.platform);
      assert m == n && s == t;
      if Below(p, n, n') {
        assert MadeBelow(p, x, v, n, b);
      } else {
        assert own[..t][t'] == b;
      }
    }
  }

  lemma {:induction false} RunKeepsOrder(p: Project, x: string, v: Variable, n: string, table: Table, k: nat)
    requires LocationsDistinct(p, x, v) && ListVariable(p, x, v) && n in p.nodes && !Below(p, n, n)
    requires Holds(p, x, v, table) && HasAllBelow(p, x, v, n, HistoryOf(table, x))
    requires k <= |p.nodes[n].file| && RunAllOk(p.nodes[n], table, p.nodes[n].file[..k])
    ensures var r := RunAll(p.nodes[n], table, p.nodes[n].file[..k]);
            && Holds(p, x, v, r)
            && HistoryOf(r, x) == HistoryOf(table, x) + Own(p.nodes[n], x, v, p.nodes[n].file[..k])
  {
    hide LocationsDistinct, Below, HasAllBelow, Good, AssignOk, Stored, ListVariable, Seen;
    var node := p.nodes[n];
    if k > 0 {
      var file := node.file[..k];
      assert file[..k - 1] == node.file[..k - 1];
      RunKeepsOrder(p, x, v, n, table, k - 1);
      var before := RunAll(node, table, node.file[..k - 1]);
      var s := file[k - 1];
      StatementAllowed(p, x, v, n, s);
      if s.x == x && s.Assign? {
        RunAssign(p, x, v, n, HistoryOf(table, x), before, k);
      } else {
        RunOther(p, x, v, n, HistoryOf(table, x), before, k);
      }
    }
  }

  lemma RunOther(p: Project, x: string, v: Variable, n: string, h: seq<Assignment>, before: Table, k: nat)
    requires ListVariable(p, x, v) && n in p.nodes && 0 < k <= |p.nodes[n].file| && Holds(p, x, v, before)
    requires var s := p.nodes[n].file[k - 1]; !(s.x == x && s.Assign?) && RunOk(p.nodes[n], before, s)
    requires HistoryOf(before, x) == h + Own(p.nodes[n], x, v, p.nodes[n].file[..k - 1])
    ensures var r := Run(p.nodes[n], before, p.nodes[n].file[k - 1]);
            Holds(p, x, v, r) && HistoryOf(r, x) == h + Own(p.nodes[n], x, v, p.nodes[n].file[..k])
  {
    hide Good, AssignOk, Stored, Seen, ListVariable;
    var file := p.nodes[n].file[..k];
    assert file[..k - 1] == p.nodes[n].file[..k - 1] && file[k - 1] == p.nodes[n].file[k - 1];
    StatementAllowed(p, x, v, n, file[k - 1]);
  }

  lemma RunAssign(p: Project, x: string, v: Variable, n: string, h: seq<Assignment>, before: Table, k: nat)
    requires LocationsDistinct(p, x, v) && n in p.nodes && !Below(p, n, n) && HasAllBelow(p, x, v, n, h)
    requires var node := p.nodes[n];
             && 0 < k <= |node.file| && node.file[k - 1].Assign? && node.file[k - 1].x == x
             && Holds(p, x, v, before) && x in before && v.list != Scalar
             && before[x].history == h + Own(node, x, v, node.file[..k - 1])
    ensures var r := Run(p.nodes[n], before, p.nodes[n].file[k - 1]);
            Holds(p, x, v, r) && HistoryOf(r, x) == h + Own(p.nodes[n], x, v, p.nodes[n].file[..k])
  {
    hide LocationsDistinct, Below, HasAllBelow, Good, Stored, Seen, Assigned;
    var node := p.nodes[n];
    var s := node.file[k - 1];
    var sofar := Own(node, x, v, node.file[..k - 1]);
    var t := |sofar|;
    OwnPrefix(node, x, v, node.file, k);
    OwnPrefix(node, x, v, node.file, k - 1);
    var a := Entry(node, s).(value := Stored(node.dir, v, s.values));
    OwnNext(node, x, v, node.file, k);
    assert OwnOf(p, x, v, n)[..t] == sofar && OwnOf(p, x, v, n)[t] == a;
    OwnNotSeen(p, x, v, n, h, t);
    OwnPreceded(p, x, v, n, h, t);
    StoredSame(node.dir, v, before[x], s.values);
    assert MadeBy(p, x, v, n, t, a);
    OwnPushed(p, x, v, node.dir, before[x], Entry(node, s), a);
  }

  lemma OwnNext(node: Node, x: string, v: Variable, file: seq<Statement>, k: nat)
    requires 0 < k <= |file| && file[k - 1].Assign? && file[k - 1].x == x
    ensures Own(node, x, v, file[..k]) ==
            Own(node, x, v, file[..k - 1])
              + [Entry(node, file[k - 1]).(value := Stored(node.dir, v, file[k - 1].values))]
  {
    hide Stored, Entry;
    assert file[..k][..k - 1] == file[..k - 1];
  }

  lemma StatementAllowed(p: Project, x: string, v: Variable, n: string, s: Statement)
    requires ListVariable(p, x, v) && n in p.nodes && s in p.nodes[n].file
    ensures s.x == x ==> !s.ResetOf? && (s.Declare? ==> s == Declare(x, v.declared, v.scope, v.vtype, v.list, v.target))
    ensures v.list != Scalar && v.history == [] && v.resets == []
  {
  }

  lemma OwnPushed(p: Project, x: string, v: Variable, dir: Dir, w: Variable, call: Assignment, a: Assignment)
    requires w.list != Scalar && Good(p, x, v, w.history) && IsMade(p, x, v, a)
    requires a == call.(value := Stored(dir, w, call.value)) && Preceded(p, x, v, w.history, a)
    requires !Seen(w.history, a.location, a.platform)
    ensures Assigned(dir, w, call) == w.(history := w.history + [a]) && Good(p, x, v, w.history + [a])
  {
    hide Preceded, Stored, IsMade;
    PushKeepsOrder(p, x, v, w.history, a);
    AssignedKeepsKeys(dir, w, call);
  }

  // ---------- Below and above ----------

  lemma ReachesSplit(p: Project, n: string, m: string)
    requires GoodProject(p) && n in p.deps
    ensures Reaches(p.deps, n, m) <==> m == n || Below(p, n, m)
  {
    if Reaches(p.deps, n, m) {
      var w :| Walk(p.deps, w, n, m);
      if |w| > 1 {
        ChainTail(p.deps, w);
        assert Walk(p.deps, w[1..], w[1], m);
        assert w[1] in p.deps[n];
      }
    }
    if Below(p, n, m) {
      var d :| d in p.deps[n] && Reaches(p.deps, d, m);
      var w :| Walk(p.deps, w, d, m);
      assert d in p.deps;
      ReachesSelf(p.deps, n);
      ExtendWalk(p.deps, n, n, d);
      ReachesTransitive(p.deps, n, d, m);
    }
    if m == n {
      ReachesSelf(p.deps, n);
    }
  }

  lemma DependencyEarlier(p: Project, n: string, d: string)
    requires GoodProject(p) && n in p.deps && d in p.deps[n]
    ensures d in p.deps && n in p.order && d in p.order && IndexOf(p.order, d) < IndexOf(p.order, n)
  {
    DepsAreNodes(p, n);
    assert Edge(p.deps, n, d);
    assert Earlier(p.order, d, n);
  }

  lemma {:induction false} WalkEarlier(p: Project, w: seq<string>, n: string, m: string)
    requires GoodProject(p) && Walk(p.deps, w, n, m)
    ensures n in p.order && m in p.order && IndexOf(p.order, m) <= IndexOf(p.order, n)
  {
    if |w| > 1 {
      assert w[1] in p.deps[w[0]];
      ChainTail(p.deps, w);
      DependencyEarlier(p, n, w[1]);
      WalkEarlier(p, w[1..], w[1], m);
    }
  }

  lemma NotBelowItself(p: Project, n: string)
    requires GoodProject(p)
    ensures !Below(p, n, n)
  {
    if Below(p, n, n) {
      var d :| d in p.deps[n] && Reaches(p.deps, d, n);
      var w :| Walk(p.deps, w, d, n);
      DependencyEarlier(p, n, d);
      WalkEarlier(p, w, d, n);
    }
  }

  // ---------- The link-order theorem ----------

  // Made by n or by a direct or indirect dependency of n.
  ghost predicate MadeUnder(p: Project, x: string, v: Variable, n: string, a: Assignment)
  {
    exists m, t :: MadeBy(p, x, v, m, t, a) && Reaches(p.deps, n, m)
  }

  ghost predicate HasAllUnder(p: Project, x: string, v: Variable, n: string, h: seq<Assignment>)
  {
    forall a :: a in h <==> MadeUnder(p, x, v, n, a)
  }

  lemma BelowIsUnderDependency(p: Project, x: string, v: Variable, n: string, a: Assignment)
    requires GoodProject(p) && n in p.deps
    ensures MadeBelow(p, x, v, n, a) <==> exists d :: d in p.deps[n] && MadeUnder(p, x, v, d, a)
  {
    hide MadeBy;
    if MadeBelow(p, x, v, n, a) {
      var m, t :| MadeBy(p, x, v, m, t, a) && Below(p, n, m);
      var d :| d in p.deps[n] && Reaches(p.deps, d, m);
      assert MadeUnder(p, x, v, d, a);
    }
    if d :| d in p.deps[n] && MadeUnder(p, x, v, d, a) {
      var m, t :| MadeBy(p, x, v, m, t, a) && Reaches(p.deps, d, m);
      assert Below(p, n, m);
    }
  }

  lemma UnderIsOwnOrBelow(p: Project, x: string, v: Variable, n: string, a: Assignment)
    requires GoodProject(p) && n in p.deps
    ensures MadeUnder(p, x, v, n, a) <==> a in OwnOf(p, x, v, n) || MadeBelow(p, x, v, n, a)
  {
    hide Own, Reaches, Below;
    if MadeUnder(p, x, v, n, a) {
      var m, t :| MadeBy(p, x, v, m, t, a) && Reaches(p.deps, n, m);
      ReachesSplit(p, n, m);
    }
    if a in OwnOf(p, x, v, n) {
      var t :| 0 <= t < |OwnOf(p, x, v, n)| && OwnOf(p, x, v, n)[t] == a;
      assert MadeBy(p, x, v, n, t, a);
      ReachesSplit(p, n, n);
    }
    if MadeBelow(p, x, v, n, a) {
      var m, t :| MadeBy(p, x, v, m, t, a) && Below(p, n, m);
      ReachesSplit(p, n, m);
    }
  }

  // Every interface of an error-free build holds each assignment that the item or one of
  // its direct and indirect dependencies makes to a recursive list variable, exactly once
  // and nothing else, and each comes after those it has to follow.
  lemma {:induction false} LinkOrder(p: Project, tables: Tables, x: string, v: Variable, n: string)
    requires Created(p, tables) && ListVariable(p, x, v) && LocationsDistinct(p, x, v) && n in p.deps
    ensures var h := HistoryOf(tables[n], x);
            && HasAllUnder(p, x, v, n, h)
            && KeysDistinct(h)
            && InLinkOrder(p, x, v, h)
    ensures Holds(p, x, v, tables[n])
    decreases IndexOf(p.order, n)
  {
    hide ListVariable, LocationsDistinct, HasAllUnder, HasAllBelow, MadeUnder, MadeBelow, RunAllOk, ImportAllOk,
         Layered;
    DepsAreNodes(p, n);
    assert CreatedAt(p, tables, n);
    var node := p.nodes[n];
    forall d | d in p.deps[n]
      ensures Holds(p, x, v, tables[d]) && HasAllUnder(p, x, v, d, HistoryOf(tables[d], x))
    {
      DependencyEarlier(p, n, d);
      LinkOrder(p, tables, x, v, d);
    }
    VariableFields(p, x, v, n);
    ImportAllKeepsOrder(p, x, v, node, tables, p.deps[n]);
    var table := ImportAll(p, node, tables, p.deps[n]);
    ImportsHaveAllBelow(p, tables, x, v, n, HistoryOf(table, x));
    NotBelowItself(p, n);
    assert node.file[..|node.file|] == node.file;
    RunKeepsOrder(p, x, v, n, table, |node.file|);
    FileAddsOwn(p, x, v, n, HistoryOf(table, x));
  }

  lemma VariableFields(p: Project, x: string, v: Variable, n: string)
    requires ListVariable(p, x, v) && n in p.nodes
    ensures v.list != Scalar && v.scope == Recursive && v.history == [] && v.resets == []
    ensures x in p.nodes[n].start ==> p.nodes[n].start[x] == v
  {
  }

  lemma ImportsHaveAllBelow(p: Project, tables: Tables, x: string, v: Variable, n: string, h: seq<Assignment>)
    requires GoodProject(p) && tables.Keys == p.deps.Keys && n in p.deps && (forall d :: d in p.deps[n] ==> d in p.deps)
    requires forall d :: d in p.deps[n] ==> HasAllUnder(p, x, v, d, HistoryOf(tables[d], x))
    requires forall a :: a in h <==> exists d :: d in p.deps[n] && a in HistoryOf(tables[d], x)
    ensures HasAllBelow(p, x, v, n, h)
  {
    hide MadeUnder, MadeBelow, HistoryOf, GoodProject;
    forall a: Assignment
      ensures a in h <==> MadeBelow(p, x, v, n, a)
    {
      BelowIsUnderDependency(p, x, v, n, a);
    }
  }

  lemma FileAddsOwn(p: Project, x: string, v: Variable, n: string, h: seq<Assignment>)
    requires GoodProject(p) && n in p.deps && n in p.nodes && HasAllBelow(p, x, v, n, h)
    ensures HasAllUnder(p, x, v, n, h + OwnOf(p, x, v, n))
  {
    hide MadeUnder, MadeBelow, Own, GoodProject;
    forall a: Assignment
      ensures a in h + OwnOf(p, x, v, n) <==> MadeUnder(p, x, v, n, a)
    {
      UnderIsOwnOrBelow(p, x, v, n, a);
    }
  }

  // ---------- What is read ----------

  lemma {:induction false} WordsOfTwo(a: seq<Assignment>, b: seq<Assignment>)
    ensures Words(a + b) == Words(a) + Words(b)
    ensures WordsReversed(a + b) == WordsReversed(b) + WordsReversed(a)
  {
    hide Words, WordsReversed;
    if b == [] {
      assert a + b == a;
      WordsOfNone();
    } else {
      var n := |b| - 1;
      WordsOfTwo(a, b[..n]);
      WordsPush(a + b[..n], b[n]);
      WordsPush(b[..n], b[n]);
      assert (a + b[..n]) + [b[n]] == a + b && b[..n] + [b[n]] == b;
    }
  }

  lemma WordsPush(a: seq<Assignment>, b: Assignment)
    ensures Words(a + [b]) == Words(a) + b.value
    ensures WordsReversed(a + [b]) == b.value + WordsReversed(a)
  {
    assert (a + [b])[..|a|] == a;
  }

  lemma WordsOfNone()
    ensures Words([]) == [] && WordsReversed([]) == []
  {
  }

  lemma WordsOfOne(a: Assignment)
    ensures Words([a]) == a.value && WordsReversed([a]) == a.value
  {
    assert [a][..0] == [];
  }

  // Where the words of the visible assignment at position k stand in the value: behind those
  // of the visible ones that come before it in the value.
  function StartsAt(list: ListType, flags: Flags, h: seq<Assignment>, k: nat): nat
    requires k < |h|
  {
    if list == Prepend then |WordsReversed(Filtered(flags, h[k + 1..]))| else |Words(Filtered(flags, h[..k]))|
  }

  ghost predicate StandsAt(value: seq<string>, start: nat, words: seq<string>)
  {
    start + |words| <= |value| && value[start..start + |words|] == words
  }

  lemma WordsStand(list: ListType, flags: Flags, h: seq<Assignment>, k: nat)
    requires list != Scalar && k < |h| && Visible(flags, h[k])
    ensures StandsAt(Value(list, Filtered(flags, h)), StartsAt(list, flags, h, k), h[k].value)
  {
    hide Filtered, Visible, Words, WordsReversed;
    var l, r := Filtered(flags, h[..k]), Filtered(flags, h[k + 1..]);
    FilteredOne(flags, h[k]);
    FilteredAppend(flags, h[..k], [h[k]]);
    FilteredAppend(flags, h[..k] + [h[k]], h[k + 1..]);
    assert h[..k] + [h[k]] + h[k + 1..] == h;
    WordsOfOne(h[k]);
    WordsOfTwo(l, [h[k]]);
    WordsOfTwo(l + [h[k]], r);
    assert Words(Filtered(flags, h)) == Words(l) + (h[k].value + Words(r));
    assert WordsReversed(Filtered(flags, h)) == WordsReversed(r) + (h[k].value + WordsReversed(l));
  }

  // Earlier entries stand before later ones in an append list, behind them in a prepend list.
  lemma StartsInOrder(flags: Flags, h: seq<Assignment>, i: nat, j: nat)
    requires i < j < |h| && Visible(flags, h[i]) && Visible(flags, h[j])
    ensures StartsAt(Append, flags, h, i) + |h[i].value| <= StartsAt(Append, flags, h, j)
    ensures StartsAt(Prepend, flags, h, j) + |h[j].value| <= StartsAt(Prepend, flags, h, i)
  {
    hide Filtered, Visible, Words, WordsReversed;
    FilteredOne(flags, h[i]);
    FilteredOne(flags, h[j]);
    WordsOfOne(h[i]);
    WordsOfOne(h[j]);
    var l, m, r := Filtered(flags, h[..i]), Filtered(flags, h[i + 1..j]), Filtered(flags, h[j + 1..]);
    FilteredAppend(flags, h[..i], [h[i]]);
    FilteredAppend(flags, h[..i] + [h[i]], h[i + 1..j]);
    assert h[..i] + [h[i]] + h[i + 1..j] == h[..j];
    WordsOfTwo(l, [h[i]]);
    WordsOfTwo(l + [h[i]], m);
    FilteredAppend(flags, h[i + 1..j], [h[j]]);
    FilteredAppend(flags, h[i + 1..j] + [h[j]], h[j + 1..]);
    assert h[i + 1..j] + [h[j]] + h[j + 1..] == h[i + 1..];
    WordsOfTwo(m, [h[j]]);
    WordsOfTwo(m + [h[j]], r);
  }

  // The words of entry i stand before those of entry j in an append list, behind them in
  // a prepend list.
  ghost predicate InListOrder(list: ListType, flags: Flags, h: seq<Assignment>, i: nat, j: nat)
    requires i < |h| && j < |h|
  {
    var value := Value(list, Filtered(flags, h));
    var (before, after) := (StartsAt(list, flags, h, i), StartsAt(list, flags, h, j));
    && StandsAt(value, before, h[i].value) && StandsAt(value, after, h[j].value)
    && (list == Append ==> before + |h[i].value| <= after)
    && (list == Prepend ==> after + |h[j].value| <= before)
  }

  ghost predicate WordsInOrder(list: ListType, flags: Flags, h: seq<Assignment>, b: Assignment, a: Assignment)
  {
    forall i: nat, j: nat :: i < |h| && j < |h| && h[i] == b && h[j] == a ==> InListOrder(list, flags, h, i, j)
  }

  lemma EarlierInList(list: ListType, flags: Flags, h: seq<Assignment>, k: nat, m: nat)
    requires list != Scalar && KeysDistinct(h) && k < m < |h| && Visible(flags, h[k]) && Visible(flags, h[m])
    ensures WordsInOrder(list, flags, h, h[k], h[m])
  {
    hide Visible, StandsAt, StartsAt, Value, Filtered;
    StartsInOrder(flags, h, k, m);
    WordsStand(list, flags, h, k);
    WordsStand(list, flags, h, m);
    forall i: nat, j: nat | i < |h| && j < |h| && h[i] == h[k] && h[j] == h[m]
      ensures InListOrder(list, flags, h, i, j)
    {
      OnePlace(h, i, k);
      OnePlace(h, j, m);
    }
  }

  lemma OnePlace(h: seq<Assignment>, i: nat, k: nat)
    requires KeysDistinct(h) && i < |h| && k < |h| && h[i] == h[k]
    ensures i == k
  {
  }

  // Both assignments are in the interface, once each.  In an append list the words of an
  // item end before those of what depends on it start; in a prepend list it is the other
  // way round.
  lemma ListOrder(
      p: Project, tables: Tables, x: string, v: Variable, n: string, flags: Flags, b: Assignment, a: Assignment)
    requires Created(p, tables) && ListVariable(p, x, v) && LocationsDistinct(p, x, v) && n in p.deps
    requires MadeUnder(p, x, v, n, a) && Precedes(p, x, v, b, a) && Visible(flags, a) && Visible(flags, b)
    ensures x in tables[n] && tables[n][x].list == v.list
    ensures a in tables[n][x].history && b in tables[n][x].history
    ensures WordsInOrder(v.list, flags, tables[n][x].history, b, a)
  {
    hide MadeUnder, Precedes, Visible, CreatedAt, GoodProject, LocationsDistinct, KeysDistinct, WordsInOrder;
    LinkOrder(p, tables, x, v, n);
    var h := HistoryOf(tables[n], x);
    var m :| 0 <= m < |h| && h[m] == a;
    assert Preceded(p, x, v, h[..m], h[m]);
    var k :| 0 <= k < m && h[k] == b;
    EarlierInList(v.list, flags, h, k, m);
  }

  // ---------- Resets ----------

  // The assignments to x that a file asks for.
  function Asked(node: Node, x: string, file: seq<Statement>): seq<Assignment>
  {
    if file == [] then []
    else
      var n := |file| - 1;
      Asked(node, x, file[..n]) + (if file[n].Assign? && file[n].x == x then [Entry(node, file[n])] else [])
  }

  // After a reset a variable holds what the file assigns to it from there on, its fallbacks
  // newest first and the rest oldest first, and nothing of what was imported or assigned before.
  lemma {:induction false} ResetForgets(
      node: Node, table: Table, before: seq<Statement>, r: Statement, after: seq<Statement>)
    requires r.ResetOf? && r.x in RunAll(node, table, before)
    requires forall s :: s in after ==> !(s.ResetOf? && s.x == r.x)
    ensures var v, w := RunAll(node, table, before)[r.x], RunAll(node, table, before + [r] + after);
            && r.x in w && w[r.x].declared == v.declared && w[r.x].list == v.list && w[r.x].vtype == v.vtype
            && w[r.x].history ==
               Arranged(v.list, WithStored(node.dir, v, Effective(Asked(node, r.x, after))))
  {
    hide Arranged, WithStored, Effective, Assigned;
    ResetStarts(node, table, before, r, after);
    var v := RunAll(node, table, before)[r.x];
    var cleared := v.(history := [], resets := WithReset(v.resets, Reset(r.location, node.item, node.platform)));
    HistoryExact(node.dir, cleared, Asked(node, r.x, after));
    WithStoredSame(node.dir, v, cleared, Effective(Asked(node, r.x, after)));
  }

  lemma WithStoredSame(dir: Dir, v: Variable, w: Variable, calls: seq<Assignment>)
    requires v.list == w.list && v.vtype == w.vtype
    ensures WithStored(dir, v, calls) == WithStored(dir, w, calls)
  {
  }

  lemma {:induction false} ResetStarts(
      node: Node, table: Table, before: seq<Statement>, r: Statement, after: seq<Statement>)
    requires r.ResetOf? && r.x in RunAll(node, table, before)
    requires forall s :: s in after ==> !(s.ResetOf? && s.x == r.x)
    ensures var v, w := RunAll(node, table, before)[r.x], RunAll(node, table, before + [r] + after);
            r.x in w && w[r.x] ==
              AssignedAll(node.dir,
                v.(history := [], resets := WithReset(v.resets, Reset(r.location, node.item, node.platform))),
                Asked(node, r.x, after))
  {
    hide Assigned, Entry, WithReset;
    var file := before + [r] + after;
    if after == [] {
      assert file == before + [r] && file[..|file| - 1] == before;
    } else {
      var n := |after| - 1;
      ResetStarts(node, table, before, r, after[..n]);
      assert file[..|file| - 1] == before + [r] + after[..n] && file[|file| - 1] == after[n];
      assert after[n] in after;
      var asked := Asked(node, r.x, after[..n]);
      if after[n].Assign? && after[n].x == r.x {
        assert Asked(node, r.x, after) == asked + [Entry(node, after[n])];
        assert (asked + [Entry(node, after[n])])[..|asked|] == asked;
      } else {
        assert Asked(node, r.x, after) == asked;
      }
    }
  }
}
