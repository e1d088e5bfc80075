// Build item interfaces (src/Interface.cc): variables as ordered logs of assignments.
module Interfaces {
  import opened Text
  import opened Paths

  datatype VarType = Boolean | String | Filename
  datatype ListType = Scalar | Append | Prepend
  datatype Kind = Normal | Override | Fallback
  datatype Scope = Recursive | NonRecursive | Local

  datatype Location = Location(file: string, line: nat, column: nat)

  datatype Assignment = Assignment(
      location: Location, kind: Kind, flag: string, item: string, platform: string, value: seq<string>)

  datatype Reset = Reset(location: Location, item: string, platform: string)

  datatype Variable = Variable(
    declared: Location, target: string, scope: Scope, vtype: VarType, list: ListType,
    resets: seq<Reset>, history: seq<Assignment>)

  type Table = map<string, Variable>

  // ---------- Values ----------

  // normalizeFilename, on a file system without symbolic links.
  function NormalizedFilename(dir: Dir, name: string): string
    requires name != ""
  {
    var n := Slashed(name);
    Canonicalize(map[], "/", if Absolute(n) then n else if n == "." then dir else dir + "/" + n)
  }

  function Adjusted(dir: Dir, vtype: VarType, value: string): string
  {
    match vtype
    case Boolean => if value == "true" then "1" else if value == "false" then "0" else value
    case String => value
    case Filename => if value == "" then "" else NormalizedFilename(dir, value)
  }

  predicate Acceptable(vtype: VarType, value: string)
  {
    match vtype
    case Boolean => value in {"0", "1", "true", "false"}
    case String => true
    case Filename => value != ""
  }

  function AdjustedAll(dir: Dir, vtype: VarType, values: seq<string>): (r: seq<string>)
    ensures |r| == |values|
    ensures forall i :: 0 <= i < |r| ==> r[i] == Adjusted(dir, vtype, values[i])
  {
    seq(|values|, i requires 0 <= i < |values| => Adjusted(dir, vtype, values[i]))
  }

  // The words stored for an assignment: an empty assignment to a scalar is one empty word.
  function Stored(dir: Dir, v: Variable, values: seq<string>): seq<string>
  {
    AdjustedAll(dir, v.vtype, Filled(v.list, values))
  }

  function Filled(list: ListType, values: seq<string>): seq<string>
  {
    if list == Scalar && values == [] then [""] else values
  }

  // ---------- Assignment ----------

  predicate SameKey(a: Assignment, location: Location, platform: string)
  {
    a.location == location && a.platform == platform
  }

  predicate Seen(history: seq<Assignment>, location: Location, platform: string)
  {
    exists a :: a in history && SameKey(a, location, platform)
  }

  function Pushed(list: ListType, history: seq<Assignment>, a: Assignment): seq<Assignment>
  {
    if list == Scalar && a.kind == Fallback then [a] + history else history + [a]
  }

  // The check for an earlier normal assignment to a scalar: it looks at the first entry only.
  predicate ConflictFound(history: seq<Assignment>, a: Assignment)
  {
    && a.kind == Normal && history != [] && history[0].kind == Normal
    && !(history[0].location == a.location && history[0].value == a.value)
  }

  function Assigned(dir: Dir, v: Variable, a: Assignment): Variable
  {
    if Seen(v.history, a.location, a.platform) then v
    else v.(history := Pushed(v.list, v.history, a.(value := Stored(dir, v, a.value))))
  }

  predicate AssignOk(dir: Dir, v: Variable, a: Assignment)
  {
    Seen(v.history, a.location, a.platform) ||
    var values := Filled(v.list, a.value);
    && (v.list == Scalar ==> |values| == 1 && !ConflictFound(v.history, a.(value := Stored(dir, v, a.value))))
    && (v.list != Scalar ==> a.kind == Normal)
    && (forall i :: 0 <= i < |values| ==> Acceptable(v.vtype, values[i]))
  }

  function AssignedAll(dir: Dir, v: Variable, calls: seq<Assignment>): Variable
  {
    if calls == [] then v
    else Assigned(dir, AssignedAll(dir, v, calls[..|calls| - 1]), calls[|calls| - 1])
  }

  predicate AssignAllOk(dir: Dir, v: Variable, calls: seq<Assignment>)
  {
    calls == [] ||
    var n := |calls| - 1;
    AssignAllOk(dir, v, calls[..n]) && AssignOk(dir, AssignedAll(dir, v, calls[..n]), calls[n])
  }

  // ---------- Resets ----------

  function WithReset(resets: seq<Reset>, r: Reset): seq<Reset>
  {
    if r in resets then resets else resets + [r]
  }

  function WithResets(resets: seq<Reset>, more: seq<Reset>): seq<Reset>
  {
    if more == [] then resets
    else WithReset(WithResets(resets, more[..|more| - 1]), more[|more| - 1])
  }

  // ---------- Import ----------

  // The assignments of a variable that its importers see.
  function Exported(v: Variable, owner: string): (r: seq<Assignment>)
  {
    if v.scope == Recursive then v.history else OfItem(v.history, owner)
  }

  function OfItem(history: seq<Assignment>, owner: string): seq<Assignment>
  {
    if history == [] then []
    else
      var n := |history| - 1;
      OfItem(history[..n], owner) + (if history[n].item == owner then [history[n]] else [])
  }

  function Declared(v: Variable): Variable
  {
    v.(resets := [], history := [])
  }

  // One variable of an interface, imported into one that already has it.
  function Merged(dir: Dir, mine: Variable, theirs: Variable, owner: string): Variable
  {
    if mine.declared == theirs.declared then
      AssignedAll(dir, mine.(resets := WithResets(mine.resets, theirs.resets)), Exported(theirs, owner))
    else mine
  }

  // Import acts on each variable by itself; local variables are not imported.
  function ImportedVariable(dir: Dir, table: Table, x: string, other: Table, owner: string): Variable
    requires x in table || (x in other && other[x].scope != Local)
  {
    if x in other && other[x].scope != Local then
      Merged(dir, if x in table then table[x] else Declared(other[x]), other[x], owner)
    else table[x]
  }

  function Imported(dir: Dir, table: Table, other: Table, owner: string): Table
  {
    map x | x in table.Keys + Importable(other) :: ImportedVariable(dir, table, x, other, owner)
  }

  function Importable(other: Table): set<string>
  {
    set x | x in other && other[x].scope != Local
  }

  predicate MergeOk(dir: Dir, mine: Variable, theirs: Variable, owner: string)
  {
    && mine.declared == theirs.declared
    && AssignAllOk(dir, mine.(resets := WithResets(mine.resets, theirs.resets)), Exported(theirs, owner))
  }

  predicate ImportOk(dir: Dir, table: Table, other: Table, owner: string)
  {
    forall x :: x in Importable(other) ==>
      MergeOk(dir, if x in table then table[x] else Declared(other[x]), other[x], owner)
  }

  // ---------- Reading ----------

  // The flags that are set, by item.
  type Flags = set<(string, string)>

  predicate Visible(flags: Flags, a: Assignment)
  {
    a.flag == "" || (a.item, a.flag) in flags
  }

  function Filtered(flags: Flags, history: seq<Assignment>): (r: seq<Assignment>)
  {
    if history == [] then []
    else
      var n := |history| - 1;
      Filtered(flags, history[..n]) + (if Visible(flags, history[n]) then [history[n]] else [])
  }

  function Words(history: seq<Assignment>): seq<string>
  {
    if history == [] then [] else Words(history[..|history| - 1]) + history[|history| - 1].value
  }

  function WordsReversed(history: seq<Assignment>): seq<string>
  {
    if history == [] then [] else history[|history| - 1].value + WordsReversed(history[..|history| - 1])
  }

  function Value(list: ListType, visible: seq<Assignment>): seq<string>
  {
    if visible == [] then []
    else match list
      case Scalar => visible[|visible| - 1].value
      case Append => Words(visible)
      case Prepend => WordsReversed(visible)
  }

  // ---------- Keys are distinct ----------

  ghost predicate KeysDistinct(history: seq<Assignment>)
  {
    forall i, j :: 0 <= i < j < |history| ==> !SameKey(history[i], history[j].location, history[j].platform)
  }

  lemma AssignedKeepsKeys(dir: Dir, v: Variable, a: Assignment)
    requires KeysDistinct(v.history)
    ensures KeysDistinct(Assigned(dir, v, a).history)
  {
    var h := Assigned(dir, v, a).history;
    if !Seen(v.history, a.location, a.platform) {
      forall i, j | 0 <= i < j < |h|
        ensures !SameKey(h[i], h[j].location, h[j].platform)
      {
        if v.list == Scalar && a.kind == Fallback {
          assert h[1..] == v.history && !SameKey(v.history[j - 1], a.location, a.platform);
        }
      }
    }
  }

  // ---------- What a scalar's history is ----------

  // The calls that took effect: for each location and platform the first one.
  function Effective(calls: seq<Assignment>): (r: seq<Assignment>)
  {
    if calls == [] then []
    else
      var n := |calls| - 1;
      var r := Effective(calls[..n]);
      if Seen(r, calls[n].location, calls[n].platform) then r else r + [calls[n]]
  }

  // The fallbacks among them, newest first, and the others, oldest first.
  function Fallbacks(calls: seq<Assignment>): seq<Assignment>
  {
    if calls == [] then []
    else
      var n := |calls| - 1;
      (if calls[n].kind == Fallback then [calls[n]] else []) + Fallbacks(calls[..n])
  }

  function Firm(calls: seq<Assignment>): seq<Assignment>
  {
    if calls == [] then []
    else
      var n := |calls| - 1;
      Firm(calls[..n]) + (if calls[n].kind == Fallback then [] else [calls[n]])
  }

  function WithStored(dir: Dir, v: Variable, calls: seq<Assignment>): (r: seq<Assignment>)
    ensures |r| == |calls|
    ensures forall i :: 0 <= i < |r| ==> r[i] == calls[i].(value := Stored(dir, v, calls[i].value))
  {
    seq(|calls|, i requires 0 <= i < |calls| => calls[i].(value := Stored(dir, v, calls[i].value)))
  }

  lemma {:induction false} SplitMembers(calls: seq<Assignment>, a: Assignment)
    ensures a in Fallbacks(calls) + Firm(calls) <==> a in calls
  {
    if calls != [] {
      var n := |calls| - 1;
      SplitMembers(calls[..n], a);
      assert calls == calls[..n] + [calls[n]];
    }
  }

  lemma SplitSeen(calls: seq<Assignment>, location: Location, platform: string)
    ensures Seen(Fallbacks(calls) + Firm(calls), location, platform) <==> Seen(calls, location, platform)
  {
    hide Fallbacks, Firm;
    forall a: Assignment
      ensures a in Fallbacks(calls) + Firm(calls) <==> a in calls
    {
      SplitMembers(calls, a);
    }
  }

  lemma StoredSeen(dir: Dir, v: Variable, calls: seq<Assignment>, location: Location, platform: string)
    ensures Seen(WithStored(dir, v, calls), location, platform) <==> Seen(calls, location, platform)
  {
    hide Stored;
    var r := WithStored(dir, v, calls);
    if a :| a in calls && SameKey(a, location, platform) {
      var i :| 0 <= i < |calls| && calls[i] == a;
      assert r[i] in r && SameKey(r[i], location, platform);
    }
    if a :| a in r && SameKey(a, location, platform) {
      var i :| 0 <= i < |r| && r[i] == a;
      assert calls[i] in calls && SameKey(calls[i], location, platform);
    }
  }

  ghost function Arranged(list: ListType, calls: seq<Assignment>): seq<Assignment>
  {
    if list == Scalar then Fallbacks(calls) + Firm(calls) else calls
  }

  lemma SplitPush(calls: seq<Assignment>, a: Assignment)
    ensures Fallbacks(calls + [a]) == (if a.kind == Fallback then [a] else []) + Fallbacks(calls)
    ensures Firm(calls + [a]) == Firm(calls) + (if a.kind == Fallback then [] else [a])
  {
    assert (calls + [a])[..|calls|] == calls;
  }

  lemma ArrangedPush(list: ListType, calls: seq<Assignment>, a: Assignment)
    ensures Arranged(list, calls + [a]) == Pushed(list, Arranged(list, calls), a)
  {
    hide Fallbacks, Firm;
    SplitPush(calls, a);
    var f, n := Fallbacks(calls), Firm(calls);
    assert ([a] + f) + (n + []) == [a] + (f + n);
    assert ([] + f) + (n + [a]) == (f + n) + [a];
  }

  // After any sequence of assignments, repeated ones included, the history of a scalar is
  // its fallbacks, newest first, then its other assignments, oldest first; the history of
  // a list is its assignments in order.  Only the first with each location and platform counts.
  lemma {:induction false} HistoryExact(dir: Dir, v: Variable, calls: seq<Assignment>)
    requires v.history == []
    ensures AssignedAll(dir, v, calls) == v.(history := Arranged(v.list, WithStored(dir, v, Effective(calls))))
  {
    hide Arranged, Stored, Pushed, Seen;
    if calls == [] {
      ArrangedEmpty(v.list);
    } else {
      var n := |calls| - 1;
      HistoryExact(dir, v, calls[..n]);
      var before := Effective(calls[..n]);
      ArrangedSeen(dir, v, before, calls[n].location, calls[n].platform);
      var a := calls[n].(value := Stored(dir, v, calls[n].value));
      ArrangedPush(v.list, WithStored(dir, v, before), a);
      assert WithStored(dir, v, before + [calls[n]]) == WithStored(dir, v, before) + [a];
      StoredSame(dir, v, AssignedAll(dir, v, calls[..n]), calls[n].value);
    }
  }

  lemma ArrangedEmpty(list: ListType)
    ensures Arranged(list, []) == []
  {
  }

  lemma StoredSame(dir: Dir, v: Variable, w: Variable, values: seq<string>)
    requires v.list == w.list && v.vtype == w.vtype
    ensures Stored(dir, v, values) == Stored(dir, w, values)
  {
  }

  lemma ArrangedSeen(dir: Dir, v: Variable, calls: seq<Assignment>, location: Location, platform: string)
    ensures Seen(Arranged(v.list, WithStored(dir, v, calls)), location, platform) <==> Seen(calls, location, platform)
  {
    hide Stored, Seen, Fallbacks, Firm;
    StoredSeen(dir, v, calls, location, platform);
    SplitSeen(WithStored(dir, v, calls), location, platform);
  }

  // ---------- The value of a scalar ----------

  // Of the calls that took effect, the one that decides: the latest visible one that is
  // no fallback, or else the earliest visible fallback.
  ghost predicate Wins(flags: Flags, calls: seq<Assignment>, k: nat)
  {
    && k < |calls| && Visible(flags, calls[k])
    && (if calls[k].kind == Fallback then
          forall j :: 0 <= j < |calls| && j != k && Visible(flags, calls[j]) ==> calls[j].kind == Fallback && k < j
        else
          forall j :: k < j < |calls| && Visible(flags, calls[j]) ==> calls[j].kind == Fallback)
  }

  lemma {:induction false} FilteredAppend(flags: Flags, a: seq<Assignment>, b: seq<Assignment>)
    ensures Filtered(flags, a + b) == Filtered(flags, a) + Filtered(flags, b)
  {
    if b == [] {
      assert a + b == a;
    } else {
      var n := |b| - 1;
      assert (a + b)[..|a + b| - 1] == a + b[..n];
      FilteredAppend(flags, a, b[..n]);
    }
  }

  lemma FilteredOne(flags: Flags, a: Assignment)
    ensures Filtered(flags, [a]) == if Visible(flags, a) then [a] else []
  {
    assert [a][..0] == [];
  }

  lemma {:induction false} FilteredMembers(flags: Flags, h: seq<Assignment>, a: Assignment)
    ensures a in Filtered(flags, h) <==> a in h && Visible(flags, a)
  {
    if h != [] {
      var n := |h| - 1;
      FilteredMembers(flags, h[..n], a);
      assert h == h[..n] + [h[n]];
    }
  }

  // getVariable on a scalar, in terms of the calls that took effect.
  lemma {:induction false} ScalarValueExact(flags: Flags, calls: seq<Assignment>, k: nat)
    requires Wins(flags, calls, k)
    ensures Value(Scalar, Filtered(flags, Arranged(Scalar, calls))) == calls[k].value
  {
    hide Visible, Filtered, Arranged;
    var n := |calls| - 1;
    var before, c := calls[..n], calls[n];
    assert calls == before + [c];
    ArrangedPush(Scalar, before, c);
    FilteredOne(flags, c);
    if c.kind == Fallback {
      FilteredAppend(flags, [c], Arranged(Scalar, before));
    } else {
      FilteredAppend(flags, Arranged(Scalar, before), [c]);
    }
    if k < n {
      assert Wins(flags, before, k) by {
        assert forall j :: 0 <= j < n ==> before[j] == calls[j];
      }
      ScalarValueExact(flags, before, k);
      WinnerVisible(flags, before, k);
    } else if c.kind == Fallback {
      NoneVisible(flags, before);
    }
  }

  lemma WinnerVisible(flags: Flags, calls: seq<Assignment>, k: nat)
    requires Wins(flags, calls, k)
    ensures Filtered(flags, Arranged(Scalar, calls)) != []
  {
    hide Visible, Filtered;
    SplitMembers(calls, calls[k]);
    FilteredMembers(flags, Arranged(Scalar, calls), calls[k]);
  }

  lemma NoneVisible(flags: Flags, calls: seq<Assignment>)
    requires forall j :: 0 <= j < |calls| ==> !Visible(flags, calls[j])
    ensures Filtered(flags, Arranged(Scalar, calls)) == []
  {
    hide Visible, Filtered;
    var r := Filtered(flags, Arranged(Scalar, calls));
    if r != [] {
      FilteredMembers(flags, Arranged(Scalar, calls), r[0]);
      SplitMembers(calls, r[0]);
    }
  }

  // Some call wins as soon as one is visible.
  lemma {:induction false} SomeoneWins(flags: Flags, calls: seq<Assignment>)
    requires exists j :: 0 <= j < |calls| && Visible(flags, calls[j])
    ensures exists k: nat :: Wins(flags, calls, k)
  {
    hide Visible;
    var n := |calls| - 1;
    var before := calls[..n];
    if Visible(flags, calls[n]) && calls[n].kind != Fallback {
      assert Wins(flags, calls, n);
    } else if j :| 0 <= j < n && Visible(flags, before[j]) {
      SomeoneWins(flags, before);
      var k: nat :| Wins(flags, before, k);
      assert forall j :: 0 <= j < n ==> before[j] == calls[j];
      assert Wins(flags, calls, k);
    } else {
      assert forall j :: 0 <= j < n ==> before[j] == calls[j];
      assert Wins(flags, calls, n);
    }
  }

  // ---------- The check for a second normal assignment ----------

  ghost predicate Differs(h: Assignment, a: Assignment)
  {
    h.kind == Normal && !(h.location == a.location && h.value == a.value)
  }

  // The comment above the check, and the one in the header: a scalar has one normal value.
  ghost predicate SecondNormal(history: seq<Assignment>, a: Assignment)
  {
    a.kind == Normal && exists h :: h in history && Differs(h, a)
  }

  // Behind a leading normal entry every normal entry repeats its location and value.
  ghost predicate LeadingAgrees(history: seq<Assignment>)
  {
    history != [] && history[0].kind == Normal ==>
      forall h :: h in history && h.kind == Normal ==> !Differs(history[0], h)
  }

  // As long as every assignment to a scalar was accepted, whatever their kinds.
  lemma {:induction false} AcceptedLeadingAgrees(dir: Dir, v: Variable, calls: seq<Assignment>)
    requires v.history == [] && v.list == Scalar && AssignAllOk(dir, v, calls)
    ensures LeadingAgrees(AssignedAll(dir, v, calls).history)
  {
    hide Stored, Seen, Acceptable;
    if calls != [] {
      var n := |calls| - 1;
      AcceptedLeadingAgrees(dir, v, calls[..n]);
      AssignedAllFields(dir, v, calls[..n]);
      var before := AssignedAll(dir, v, calls[..n]);
      var a := calls[n].(value := Stored(dir, before, calls[n].value));
      assert Assigned(dir, before, calls[n]).history in {before.history, [a] + before.history, before.history + [a]};
    }
  }

  ghost predicate HasKind(history: seq<Assignment>, kind: Kind)
  {
    exists a :: a in history && a.kind == kind
  }

  ghost predicate CheckExact(history: seq<Assignment>)
  {
    forall a :: ConflictFound(history, a) <==> SecondNormal(history, a)
  }

  // After assignments to a scalar that were all accepted, the check finds every second
  // normal assignment, and nothing else, exactly when there is no normal entry or the
  // first entry is one.
  lemma CheckExactOverHistory(history: seq<Assignment>)
    requires LeadingAgrees(history)
    ensures CheckExact(history) <==>
            !HasKind(history, Normal) || history[0].kind == Normal
  {
    if history != [] && history[0].kind != Normal {
      if h :| h in history && h.kind == Normal {
        var a := h.(value := h.value + [""]);
        assert Differs(h, a) && SecondNormal(history, a) && !ConflictFound(history, a);
      }
    } else {
      forall a
        ensures ConflictFound(history, a) <==> SecondNormal(history, a)
      {
        FoundIsSecond(history, a);
      }
    }
  }

  // The check never complains without reason.
  lemma FoundIsSecond(history: seq<Assignment>, a: Assignment)
    ensures ConflictFound(history, a) ==> SecondNormal(history, a)
  {
    if ConflictFound(history, a) {
      assert history[0] in history && Differs(history[0], a);
    }
  }

  // The same in terms of the calls that took effect: the check is exact when none of them
  // is normal, or when none is a fallback and the first is normal.
  lemma ConflictCheckExact(dir: Dir, v: Variable, calls: seq<Assignment>)
    requires v.history == [] && v.list == Scalar && AssignAllOk(dir, v, calls)
    ensures var took := Effective(calls);
            CheckExact(AssignedAll(dir, v, calls).history) <==>
            !HasKind(took, Normal) || (took[0].kind == Normal && !HasKind(took, Fallback))
  {
    hide Stored, Seen, AssignAllOk, AssignedAll, LeadingAgrees, CheckExact, Effective, WithStored;
    AcceptedLeadingAgrees(dir, v, calls);
    HistoryExact(dir, v, calls);
    var took := Effective(calls);
    var stored := WithStored(dir, v, took);
    CheckExactOverHistory(Fallbacks(stored) + Firm(stored));
    StoredKinds(dir, v, took);
    ArrangedKinds(stored);
    assert HasKind(Fallbacks(stored) + Firm(stored), Normal) <==> HasKind(stored, Normal);
  }

  lemma StoredKinds(dir: Dir, v: Variable, calls: seq<Assignment>)
    ensures var r := WithStored(dir, v, calls);
            && (r != [] <==> calls != []) && (r != [] ==> r[0].kind == calls[0].kind)
            && (forall k :: HasKind(r, k) <==> HasKind(calls, k))
  {
    hide Stored;
    var r := WithStored(dir, v, calls);
    forall k
      ensures HasKind(r, k) <==> HasKind(calls, k)
    {
      if a :| a in r && a.kind == k {
        var i :| 0 <= i < |r| && r[i] == a;
        assert calls[i] in calls;
      }
      if a :| a in calls && a.kind == k {
        var i :| 0 <= i < |calls| && calls[i] == a;
        assert r[i] in r;
      }
    }
  }

  // The first entry of an arranged history is a fallback if there is one, or else the first call.
  lemma {:induction false} ArrangedKinds(calls: seq<Assignment>)
    ensures var r := Fallbacks(calls) + Firm(calls);
            && (r != [] <==> calls != [])
            && (r != [] ==>
                  (r[0].kind == Fallback <==> HasKind(calls, Fallback))
                  && (r[0].kind != Fallback ==> r[0] == calls[0]))
    ensures forall a :: a in Fallbacks(calls) + Firm(calls) <==> a in calls
  {
    hide Fallbacks, Firm;
    forall a
      ensures a in Fallbacks(calls) + Firm(calls) <==> a in calls
    {
      SplitMembers(calls, a);
    }
    if calls != [] {
      var n := |calls| - 1;
      var before, c := calls[..n], calls[n];
      ArrangedKinds(before);
      assert calls == before + [c];
      SplitPush(before, c);
      var r := Fallbacks(before) + Firm(before);
      assert Fallbacks(calls) + Firm(calls) == if c.kind == Fallback then [c] + r else r + [c];
      assert HasKind(calls, Fallback) <==> c.kind == Fallback || HasKind(before, Fallback);
    } else {
      NothingArranged();
    }
  }

  lemma NothingArranged()
    ensures Fallbacks([]) + Firm([]) == []
  {
  }

  ghost const HERE: Location := Location("a", 1, 1)
  ghost const THERE: Location := Location("b", 1, 1)
  ghost const ELSEWHERE: Location := Location("c", 1, 1)

  // A fallback hides an earlier normal assignment from the check: a second one, with
  // another value, is accepted, and is the value read.
  lemma SecondNormalAccepted(dir: Dir)
    ensures var v := Variable(HERE, "all", Recursive, String, Scalar, [], []);
            var calls := [Assignment(HERE, Fallback, "", "a", "p", ["0"]),
                  Assignment(THERE, Normal, "", "b", "p", ["1"]),
                          Assignment(ELSEWHERE, Normal, "", "c", "p", ["2"])];
            && SecondNormal(AssignedAll(dir, v, calls[..2]).history, calls[2])
            && AssignOk(dir, AssignedAll(dir, v, calls[..2]), calls[2])
            && Value(Scalar, Filtered({}, AssignedAll(dir, v, calls).history)) == ["2"]
  {
    var v := Variable(HERE, "all", Recursive, String, Scalar, [], []);
    var a, b, c := Assignment(HERE, Fallback, "", "a", "p", ["0"]), Assignment(THERE, Normal, "", "b", "p", ["1"]),
                   Assignment(ELSEWHERE, Normal, "", "c", "p", ["2"]);
    var calls := [a, b, c];
    assert calls[..2] == [a, b] && [a, b][..1] == [a] && [a][..0] == [];
    assert Stored(dir, v, ["0"]) == ["0"] && Stored(dir, v, ["1"]) == ["1"] && Stored(dir, v, ["2"]) == ["2"];
    var v1, v2 := v.(history := [a]), v.(history := [a, b]);
    assert AssignedAll(dir, v, []) == v && Assigned(dir, v, a) == v1;
    assert Assigned(dir, v1, b) == v2;
    assert AssignedAll(dir, v, [a, b]) == v2;
    assert b in v2.history && Differs(b, c);
    assert Assigned(dir, v2, c) == v.(history := [a, b, c]);
    assert AssignedAll(dir, v, calls) == v.(history := [a, b, c]);
    assert Filtered({}, calls) == Filtered({}, calls[..2]) + [c];
  }

  // ---------- Import ----------

  lemma SeenIsLeftAlone(dir: Dir, v: Variable, calls: seq<Assignment>)
    requires forall a :: a in calls ==> Seen(v.history, a.location, a.platform)
    ensures AssignedAll(dir, v, calls) == v && AssignAllOk(dir, v, calls)
  {
    if calls != [] {
      var n := |calls| - 1;
      assert calls[n] in calls;
      SeenIsLeftAlone(dir, v, calls[..n]);
    }
  }

  lemma AssignedKeepsSeen(dir: Dir, v: Variable, a: Assignment, location: Location, platform: string)
    ensures var h := Assigned(dir, v, a).history;
            Seen(h, location, platform) <==> Seen(v.history, location, platform) || SameKey(a, location, platform)
  {
    hide Stored;
    var a' := a.(value := Stored(dir, v, a.value));
    var h := Assigned(dir, v, a).history;
    if !Seen(v.history, a.location, a.platform) {
      assert forall b :: b in h <==> b == a' || b in v.history;
      assert SameKey(a', location, platform) <==> SameKey(a, location, platform);
    }
  }

  lemma {:induction false} AllAreSeen(dir: Dir, v: Variable, calls: seq<Assignment>, a: Assignment)
    requires a in calls
    ensures Seen(AssignedAll(dir, v, calls).history, a.location, a.platform)
  {
    hide Assigned, Seen;
    var n := |calls| - 1;
    AssignedKeepsSeen(dir, AssignedAll(dir, v, calls[..n]), calls[n], a.location, a.platform);
    if a in calls[..n] {
      AllAreSeen(dir, v, calls[..n], a);
    } else {
      assert calls == calls[..n] + [calls[n]];
    }
  }

  lemma {:induction false} ResetsAgain(resets: seq<Reset>, more: seq<Reset>)
    requires forall r :: r in more ==> r in resets
    ensures WithResets(resets, more) == resets
  {
    if more != [] {
      assert more[|more| - 1] in more;
      ResetsAgain(resets, more[..|more| - 1]);
    }
  }

  lemma {:induction false} ResetsIn(resets: seq<Reset>, more: seq<Reset>, r: Reset)
    requires r in more || r in resets
    ensures r in WithResets(resets, more)
  {
    if more != [] {
      var n := |more| - 1;
      assert more == more[..n] + [more[n]];
      if r != more[n] {
        ResetsIn(resets, more[..n], r);
      }
    }
  }

  lemma {:induction false} AssignedAllFields(dir: Dir, v: Variable, calls: seq<Assignment>)
    ensures AssignedAll(dir, v, calls) == v.(history := AssignedAll(dir, v, calls).history)
  {
    if calls != [] {
      AssignedAllFields(dir, v, calls[..|calls| - 1]);
    }
  }

  lemma MergedTwice(dir: Dir, mine: Variable, theirs: Variable, owner: string)
    ensures Merged(dir, Merged(dir, mine, theirs, owner), theirs, owner) == Merged(dir, mine, theirs, owner)
    ensures mine.declared == theirs.declared ==> MergeOk(dir, Merged(dir, mine, theirs, owner), theirs, owner)
  {
    hide AssignedAll, WithResets, Exported, Seen, AssignAllOk;
    if mine.declared == theirs.declared {
      var start := mine.(resets := WithResets(mine.resets, theirs.resets));
      var calls := Exported(theirs, owner);
      var once := AssignedAll(dir, start, calls);
      AssignedAllFields(dir, start, calls);
      forall r | r in theirs.resets
        ensures r in once.resets
      {
        ResetsIn(mine.resets, theirs.resets, r);
      }
      ResetsAgain(once.resets, theirs.resets);
      assert once.(resets := once.resets) == once;
      forall a | a in calls
        ensures Seen(once.history, a.location, a.platform)
      {
        AllAreSeen(dir, start, calls, a);
      }
      SeenIsLeftAlone(dir, once, calls);
    }
  }

  // Importing an interface a second time changes nothing, and reports nothing that
  // the first time did not.
  lemma ImportTwice(dir: Dir, table: Table, other: Table, owner: string)
    ensures var once := Imported(dir, table, other, owner);
            && Imported(dir, once, other, owner) == once
            && (ImportOk(dir, table, other, owner) ==> ImportOk(dir, once, other, owner))
  {
    hide Merged, MergeOk;
    var once := Imported(dir, table, other, owner);
    var twice := Imported(dir, once, other, owner);
    assert twice.Keys == once.Keys;
    forall x | x in once
      ensures twice[x] == once[x]
    {
      if x in Importable(other) {
        MergedTwice(dir, if x in table then table[x] else Declared(other[x]), other[x], owner);
      }
    }
    if ImportOk(dir, table, other, owner) {
      forall x | x in Importable(other)
        ensures MergeOk(dir, once[x], other[x], owner)
      {
        var mine := if x in table then table[x] else Declared(other[x]);
        MergedTwice(dir, mine, other[x], owner);
        assert MergeOk(dir, mine, other[x], owner);
        DeclaredAlike(dir, mine, other[x], owner);
      }
    }
  }

  lemma DeclaredAlike(dir: Dir, mine: Variable, theirs: Variable, owner: string)
    requires MergeOk(dir, mine, theirs, owner)
    ensures mine.declared == theirs.declared
  {
  }

  // ---------- Import into a fresh interface ----------

  // What has been stored once is stored again as it is, whatever the directory.
  lemma AdjustedSettles(dir: Dir, there: Dir, vtype: VarType, value: string)
    ensures Adjusted(there, vtype, Adjusted(dir, vtype, value)) == Adjusted(dir, vtype, value)
  {
    hide Canonicalize, Slashed;
    if vtype == Filename && value != "" {
      var n := Slashed(value);
      var full := if Absolute(n) then n else if n == "." then dir else dir + "/" + n;
      assert full != "";
      CanonicalizeIdempotent("/", full);
      var r := Canonicalize(map[], "/", full);
      SlashedSame(r);
      CanonicalIsAbsolute(r);
    }
  }

  lemma SlashedSame(path: string)
    requires '\\' !in path
    ensures Slashed(path) == path
  {
  }

  lemma CanonicalIsAbsolute(path: string)
    requires IsCanonical(path)
    ensures Absolute(path)
  {
    var parts :| Clean(parts) && path == Spelled(parts);
    CanonicalParts(parts);
    assert Absolute(Spelled(parts)) by {
      if |parts| > 1 {
        assert Join('/', parts)[0] == '/';
      }
    }
  }

  ghost predicate SettledValue(list: ListType, vtype: VarType, values: seq<string>)
  {
    (list == Scalar ==> values != []) && forall dir: Dir :: AdjustedAll(dir, vtype, values) == values
  }

  ghost predicate Settled(v: Variable)
  {
    forall a :: a in v.history ==> SettledValue(v.list, v.vtype, a.value)
  }

  lemma StoredIsSettled(dir: Dir, v: Variable, values: seq<string>)
    ensures SettledValue(v.list, v.vtype, Stored(dir, v, values))
  {
    hide Adjusted;
    var r := Stored(dir, v, values);
    forall there: Dir
      ensures AdjustedAll(there, v.vtype, r) == r
    {
      forall i | 0 <= i < |r|
        ensures AdjustedAll(there, v.vtype, r)[i] == r[i]
      {
        AdjustedSettles(dir, there, v.vtype, Filled(v.list, values)[i]);
      }
    }
  }

  lemma AssignedKeepsSettled(dir: Dir, v: Variable, a: Assignment)
    requires Settled(v)
    ensures Settled(Assigned(dir, v, a))
  {
    hide SettledValue, Stored;
    StoredIsSettled(dir, v, a.value);
  }

  lemma {:induction false} EffectiveDistinct(calls: seq<Assignment>)
    requires KeysDistinct(calls)
    ensures Effective(calls) == calls
  {
    if calls != [] {
      var n := |calls| - 1;
      EffectiveDistinct(calls[..n]);
      assert calls == calls[..n] + [calls[n]];
      assert !Seen(calls[..n], calls[n].location, calls[n].platform);
    }
  }

  lemma StoredSettled(dir: Dir, v: Variable, calls: seq<Assignment>)
    requires forall a :: a in calls ==> SettledValue(v.list, v.vtype, a.value)
    ensures WithStored(dir, v, calls) == calls
  {
    var r := WithStored(dir, v, calls);
    forall i | 0 <= i < |r|
      ensures r[i] == calls[i]
    {
      assert calls[i] in calls;
    }
  }

  // A fresh interface importing a recursive variable gets the same assignments; those of
  // a list in the same order, the fallbacks of a scalar in the opposite order.
  lemma FreshImport(dir: Dir, theirs: Variable, owner: string)
    requires theirs.scope == Recursive && KeysDistinct(theirs.history) && Settled(theirs)
    ensures Merged(dir, Declared(theirs), theirs, owner).history == Arranged(theirs.list, theirs.history)
  {
    hide Arranged, AssignedAll, Effective, Settled, KeysDistinct, WithStored;
    var v := Declared(theirs).(resets := WithResets([], theirs.resets));
    HistoryExact(dir, v, theirs.history);
    EffectiveDistinct(theirs.history);
    SettledFor(v, theirs);
    StoredSettled(dir, v, theirs.history);
  }

  lemma SettledFor(v: Variable, theirs: Variable)
    requires Settled(theirs) && v.list == theirs.list && v.vtype == theirs.vtype
    ensures forall a :: a in theirs.history ==> SettledValue(v.list, v.vtype, a.value)
  {
  }

  lemma FreshListValue(dir: Dir, theirs: Variable, owner: string, flags: Flags)
    requires theirs.scope == Recursive && theirs.list != Scalar && KeysDistinct(theirs.history) && Settled(theirs)
    ensures var copy := Merged(dir, Declared(theirs), theirs, owner);
            Value(theirs.list, Filtered(flags, copy.history)) == Value(theirs.list, Filtered(flags, theirs.history))
  {
    FreshImport(dir, theirs, owner);
  }

  // Fallbacks come before everything else.
  ghost predicate FallbacksFirst(history: seq<Assignment>)
  {
    forall i, j :: 0 <= i < j < |history| && history[j].kind == Fallback ==> history[i].kind == Fallback
  }

  // The value of a scalar survives import into a fresh interface, except when nothing
  // but fallbacks is visible: then the importer reads the latest one, the importee the
  // earliest one.
  lemma FreshScalarValue(dir: Dir, theirs: Variable, owner: string, flags: Flags)
    requires theirs.scope == Recursive && theirs.list == Scalar && KeysDistinct(theirs.history) && Settled(theirs)
    requires FallbacksFirst(theirs.history)
    ensures var copy := Merged(dir, Declared(theirs), theirs, owner);
            var visible := Filtered(flags, theirs.history);
            && (visible == [] ==> Filtered(flags, copy.history) == [])
            && (visible != [] ==>
                  Value(Scalar, Filtered(flags, copy.history)) ==
                    (if visible[|visible| - 1].kind == Fallback then visible[0].value
                     else Value(Scalar, visible)))
  {
    hide Visible, KeysDistinct, Settled, Merged, Filtered, FallbacksFirst;
    FreshImport(dir, theirs, owner);
    var h := theirs.history;
    var visible := Filtered(flags, h);
    if visible == [] {
      forall j | 0 <= j < |h|
        ensures !Visible(flags, h[j])
      {
        FilteredMembers(flags, h, h[j]);
      }
      NoneVisible(flags, h);
    } else {
      var first, last := Ends(flags, h);
      EndWins(flags, h, first, last);
      ScalarValueExact(flags, h, if h[last].kind == Fallback then first else last);
    }
  }

  // The first and the last visible entry.
  lemma {:induction false} Ends(flags: Flags, h: seq<Assignment>) returns (first: nat, last: nat)
    requires Filtered(flags, h) != []
    ensures first <= last < |h| && Visible(flags, h[first]) && Visible(flags, h[last])
    ensures forall j :: 0 <= j < |h| && Visible(flags, h[j]) ==> first <= j <= last
    ensures var visible := Filtered(flags, h); h[first] == visible[0] && h[last] == visible[|visible| - 1]
  {
    hide Visible;
    var n := |h| - 1;
    var before := h[..n];
    assert forall j :: 0 <= j < n ==> before[j] == h[j];
    if Filtered(flags, before) == [] {
      forall j | 0 <= j < n
        ensures !Visible(flags, h[j])
      {
        FilteredMembers(flags, before, before[j]);
      }
      first, last := n, n;
    } else {
      first, last := Ends(flags, before);
      if Visible(flags, h[n]) {
        last := n;
      }
    }
  }

  lemma EndWins(flags: Flags, h: seq<Assignment>, first: nat, last: nat)
    requires first <= last < |h| && Visible(flags, h[first]) && Visible(flags, h[last]) && FallbacksFirst(h)
    requires forall j :: 0 <= j < |h| && Visible(flags, h[j]) ==> first <= j <= last
    ensures Wins(flags, h, if h[last].kind == Fallback then first else last)
  {
    hide Visible;
  }
}
