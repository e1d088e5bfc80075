// What interface variables hold, told from the words assigned and the assignments imported
// (src/Interface.cc).
module InterfaceLaws {
  import opened Text
  import opened Paths
  import opened Interfaces
  import opened InterfaceObjects
  import PathRewriting

  // ---------- Words ----------

  // A boolean is stored as "1" or "0"; exactly the words that can be are accepted.
  lemma BooleanStored(dir: Dir, w: string)
    ensures Adjusted(dir, Boolean, w) == "1" <==> w in {"1", "true"}
    ensures Adjusted(dir, Boolean, w) == "0" <==> w in {"0", "false"}
    ensures Acceptable(Boolean, w) <==> Adjusted(dir, Boolean, w) in {"0", "1"}
    ensures !Acceptable(Boolean, w) ==> Adjusted(dir, Boolean, w) == w
  {
    assert "1"[0] != "0"[0] && |"true"| == 4 && |"false"| == 5;
  }

  lemma AbsoluteCanonical(path: string)
    requires path != "" && path[0] == '/' && '\\' !in path
    ensures Canonicalize(map[], "/", path) == Spelled(TakenAll([], Split('/', path)))
  {
    SlashedSame(path);
    NoLinks([], Split('/', path));
  }

  lemma CanonicalHasNoBackslash(l: seq<string>)
    requires Clean(l) && Free('\\', l)
    ensures '\\' !in Spelled(l) && Directory(Spelled(l))
  {
    JoinKeepsFree('\\', l);
    CanonicalParts(l);
  }

  // A relative name that is not "." and has no backslash.
  lemma RelativeStored(l: seq<string>, name: string)
    requires Clean(l) && Free('\\', l) && name != "" && name != "." && name[0] != '/' && '\\' !in name
    ensures '\\' !in Spelled(l) && Directory(Spelled(l))
    ensures Adjusted(Spelled(l), Filename, name) == Spelled(TakenAll(l, Split('/', name)))
  {
    hide Split, Spelled, TakenAll;
    CanonicalHasNoBackslash(l);
    SlashedSame(name);
    var whole := Spelled(l) + "/" + name;
    AbsoluteCanonical(whole);
    SplitSplits('/', Spelled(l), name);
    TakenAllAppend([], Split('/', Spelled(l)), Split('/', name));
    CanonicalParts(l);
  }

  lemma NotSpecial(parts: seq<string>)
    requires parts != [] && Free('/', parts) && Free('\\', parts) && parts[0] != "" && parts[0] != "."
    ensures var name := Join('/', parts);
            name != "" && name != "." && name[0] != '/' && '\\' !in name && Split('/', name) == parts
  {
    SplitJoined('/', parts);
    JoinKeepsFree('\\', parts);
    SplitOnce('/', ".", "");
    SplitOnce('/', "", "");
  }

  lemma UpsAndPlain(k: nat, r: seq<string>)
    requires Free('\\', r) && k + |r| > 0 && forall i :: 0 <= i < |r| ==> Plain(r[i])
    ensures var parts := Repeat("..", k) + r;
            Free('/', parts) && Free('\\', parts) && parts[0] != "" && parts[0] != "."
  {
  }

  // In the directory with components l the name k times "..", then r, is the path that drops k
  // components of l, as far as there are some, and goes on with r.
  lemma FilenameStored(l: seq<string>, k: nat, r: seq<string>)
    requires Clean(l) && Free('\\', l) && Free('\\', r) && k + |r| > 0
    requires forall i :: 0 <= i < |r| ==> Plain(r[i])
    ensures Directory(Spelled(l))
    ensures Adjusted(Spelled(l), Filename, Join('/', Repeat("..", k) + r)) ==
            Spelled(l[..if k < |l| then |l| - k else 1] + r)
  {
    hide Split, Spelled, TakenAll, Join;
    var parts := Repeat("..", k) + r;
    UpsAndPlain(k, r);
    NotSpecial(parts);
    RelativeStored(l, Join('/', parts));
    TakenAllAppend(l, Repeat("..", k), r);
    TakeUps(l, k);
    TakePlain(l[..if k < |l| then |l| - k else 1], r);
  }

  // "." is the directory itself, and a canonical name stays as it is in every directory.
  lemma FilenameFixed(l: seq<string>, p: seq<string>)
    requires Clean(l) && Free('\\', l) && Clean(p) && Free('\\', p)
    ensures Directory(Spelled(l))
    ensures Adjusted(Spelled(l), Filename, ".") == Spelled(l)
    ensures Adjusted(Spelled(l), Filename, Spelled(p)) == Spelled(p)
  {
    hide Split, Spelled, TakenAll, Canonicalize;
    CanonicalHasNoBackslash(l);
    CanonicalHasNoBackslash(p);
    SlashedSame(".");
    SlashedSame(Spelled(p));
    CanonicalStays("/", Spelled(l));
    CanonicalStays("/", Spelled(p));
  }

  // Both separators mean the same.
  lemma SeparatorsAlike(dir: Dir, a: string, b: string)
    requires a != "" && |a| == |b|
    requires forall i :: 0 <= i < |a| ==> a[i] == b[i] || (a[i] in "/\\" && b[i] in "/\\")
    ensures Adjusted(dir, Filename, a) == Adjusted(dir, Filename, b)
  {
    hide Canonicalize;
    assert Slashed(a) == Slashed(b);
  }

  // For every name: what is stored is the end of the rewriting of the name's components behind
  // those of the directory.
  lemma FilenameIsNormalForm(dir: Dir, name: string) returns (states: seq<PathRewriting.State>)
    requires name != ""
    ensures PathRewriting.IsRewriting(map[], states) && PathRewriting.Normal(map[], states[|states| - 1])
    ensures states[0].whole ==
            if name[0] in "/\\" then Split('/', Slashed(name))
            else if name == "." then Split('/', dir)
            else Split('/', dir) + Split('/', Slashed(name))
    ensures Adjusted(dir, Filename, name) == Spelled(states[|states| - 1].whole)
  {
    hide Split, Canonicalize, PathRewriting.IsRewriting, PathRewriting.Normal;
    var n := Slashed(name);
    SlashedDot(name);
    var full := if name[0] in "/\\" then n else if name == "." then dir else dir + "/" + n;
    SlashedFull(dir, name);
    states := PathRewriting.CanonicalizeIsNormalForm(map[], "/", full);
    SplitSplits('/', dir, n);
  }

  lemma SlashedDot(name: string)
    requires name != ""
    ensures Slashed(name) == "." <==> name == "."
    ensures Slashed(name) != "" && (Absolute(Slashed(name)) <==> name[0] in "/\\")
  {
    if name != "." && |name| == 1 {
      assert Slashed(name)[0] == '.' <==> name[0] == '.';
    }
  }

  lemma SlashedFull(dir: Dir, name: string)
    requires name != ""
    ensures var n := Slashed(name);
            var full := if name[0] in "/\\" then n else if name == "." then dir else dir + "/" + n;
            full != "" && full[0] == '/' && Slashed(full) == full
  {
  }

  // A file name is accepted exactly if it is stored as a canonical path.
  lemma FilenameAccepted(dir: Dir, w: string)
    ensures Acceptable(Filename, w) <==> IsCanonical(Adjusted(dir, Filename, w))
  {
    hide Canonicalize;
    if w == "" {
      assert !IsCanonical("") by { NothingCanonical(); }
    } else {
      CanonicalizeShape(map[], "/", if Absolute(Slashed(w)) then Slashed(w) else if Slashed(w) == "." then dir
                                    else dir + "/" + Slashed(w));
    }
  }

  lemma NothingCanonical()
    ensures !IsCanonical("")
  {
    forall parts | Clean(parts)
      ensures Spelled(parts) != ""
    {
      CanonicalParts(parts);
    }
  }

  // An assignment stores its words in order; an empty one to a scalar one empty word.
  lemma StoredWords(dir: Dir, v: Variable, values: seq<string>)
    ensures values != [] || v.list != Scalar ==>
              |Stored(dir, v, values)| == |values|
              && forall i :: 0 <= i < |values| ==> Stored(dir, v, values)[i] == Adjusted(dir, v.vtype, values[i])
    ensures values == [] && v.list == Scalar ==> Stored(dir, v, values) == [""]
  {
    assert "" != "true" && "" != "false";
  }

  // ---------- Acceptance ----------

  // What an assignment to a variable has to look like.
  ghost predicate RightForm(vtype: VarType, list: ListType, a: Assignment)
  {
    && (vtype == Boolean ==> forall w :: w in a.value ==> w in {"0", "1", "false", "true"})
    && (vtype == Filename ==> "" !in a.value)
    && (list == Scalar ==> |a.value| == 1 || (a.value == [] && vtype == String))
    && (list != Scalar ==> a.kind == Normal)
  }

  // A normal assignment to a scalar comes too late: nothing but assignments that are no
  // fallbacks came before, the first of them normal with another place or value.
  ghost predicate TooLate(dir: Dir, v: Variable, before: seq<Assignment>, a: Assignment)
  {
    && v.list == Scalar && a.kind == Normal
    && before != [] && before[0].kind == Normal && (forall b :: b in before ==> b.kind != Fallback)
    && (before[0].location != a.location || Stored(dir, v, before[0].value) != Stored(dir, v, a.value))
  }

  ghost predicate AllRight(dir: Dir, v: Variable, took: seq<Assignment>)
  {
    forall i :: 0 <= i < |took| ==> RightForm(v.vtype, v.list, took[i]) && !TooLate(dir, v, took[..i], took[i])
  }

  // Assignments to a new variable are all accepted if and only if those that take effect have
  // the right form and none comes too late.
  lemma {:induction false} AcceptedExact(dir: Dir, v: Variable, calls: seq<Assignment>)
    requires v.history == []
    ensures AssignAllOk(dir, v, calls) <==> AllRight(dir, v, Effective(calls))
  {
    hide Stored, Seen, RightForm, TooLate, ConflictFound, Acceptable, Filled, Arranged, WithStored;
    if calls != [] {
      var n := |calls| - 1;
      var before, a := Effective(calls[..n]), calls[n];
      AcceptedExact(dir, v, calls[..n]);
      HistoryExact(dir, v, calls[..n]);
      ArrangedSeen(dir, v, before, a.location, a.platform);
      if !Seen(before, a.location, a.platform) {
        FormExact(dir, v, a);
        LateExact(dir, v, before, a);
        StoredSame(dir, v, AssignedAll(dir, v, calls[..n]), a.value);
        AllRightNext(dir, v, before, a);
      }
    }
  }

  lemma AllRightNext(dir: Dir, v: Variable, before: seq<Assignment>, a: Assignment)
    ensures AllRight(dir, v, before + [a]) <==>
            AllRight(dir, v, before) && RightForm(v.vtype, v.list, a) && !TooLate(dir, v, before, a)
  {
    hide RightForm, TooLate;
    var took := before + [a];
    assert took[..|before|] == before && took[|before|] == a;
    assert forall i :: 0 <= i < |before| ==> took[i] == before[i] && took[..i] == before[..i];
  }

  lemma FormExact(dir: Dir, v: Variable, a: Assignment)
    ensures RightForm(v.vtype, v.list, a) <==>
            var values := Filled(v.list, a.value);
            && (v.list == Scalar ==> |values| == 1) && (v.list != Scalar ==> a.kind == Normal)
            && (forall i :: 0 <= i < |values| ==> Acceptable(v.vtype, values[i]))
  {
    hide Acceptable;
    WordsAcceptable(v.vtype, Filled(v.list, a.value));
    if v.list == Scalar && a.value == [] {
      assert Filled(v.list, a.value) == [""] && "" in [""];
      assert |"true"| == 4 && |"0"| == 1;
    }
  }

  lemma WordsAcceptable(vtype: VarType, values: seq<string>)
    ensures (forall i :: 0 <= i < |values| ==> Acceptable(vtype, values[i])) <==>
            && (vtype == Boolean ==> forall w :: w in values ==> w in {"0", "1", "false", "true"})
            && (vtype == Filename ==> "" !in values)
  {
    hide Acceptable;
    forall w
      ensures Acceptable(vtype, w) <==>
              (vtype == Boolean ==> w in {"0", "1", "false", "true"}) && (vtype == Filename ==> w != "")
    {
      WordAcceptable(vtype, w);
    }
    assert forall i :: 0 <= i < |values| ==> values[i] in values;
    if forall i :: 0 <= i < |values| ==> Acceptable(vtype, values[i]) {
      forall w | w in values
        ensures Acceptable(vtype, w)
      {
        var i :| 0 <= i < |values| && values[i] == w;
      }
    }
  }

  lemma WordAcceptable(vtype: VarType, w: string)
    ensures Acceptable(vtype, w) <==>
            (vtype == Boolean ==> w in {"0", "1", "false", "true"}) && (vtype == Filename ==> w != "")
  {
  }

  lemma LateExact(dir: Dir, v: Variable, before: seq<Assignment>, a: Assignment)
    ensures TooLate(dir, v, before, a) <==>
            v.list == Scalar
            && ConflictFound(Arranged(v.list, WithStored(dir, v, before)), a.(value := Stored(dir, v, a.value)))
  {
    hide Stored, Fallbacks, Firm;
    var stored := WithStored(dir, v, before);
    ArrangedKinds(stored);
    StoredKinds(dir, v, before);
    assert HasKind(stored, Fallback) <==> HasKind(before, Fallback);
  }

  // ---------- Flags ----------

  // keep are the positions, in order, of the assignments that have no flag or whose flag is set
  // for the item they come from.
  ghost predicate ShownAt(flags: Flags, h: seq<Assignment>, keep: seq<nat>)
  {
    && (forall i, j :: 0 <= i < j < |keep| ==> keep[i] < keep[j])
    && (forall k :: k in keep ==> k < |h|)
    && (forall k :: 0 <= k < |h| ==> (k in keep <==> h[k].flag == "" || (h[k].item, h[k].flag) in flags))
  }

  lemma {:induction false} FilteredExact(flags: Flags, h: seq<Assignment>) returns (keep: seq<nat>)
    ensures ShownAt(flags, h, keep) && |Filtered(flags, h)| == |keep|
    ensures forall i :: 0 <= i < |keep| ==> keep[i] < |h| && Filtered(flags, h)[i] == h[keep[i]]
  {
    if h == [] {
      keep := [];
    } else {
      var n := |h| - 1;
      keep := FilteredExact(flags, h[..n]);
      forall k | k in keep
        ensures k < n
      {
      }
      if h[n].flag == "" || (h[n].item, h[n].flag) in flags {
        keep := keep + [n];
      }
    }
  }

  // ---------- Import ----------

  // keep are the positions, in order, of the assignments made by an item.
  ghost predicate OwnAt(h: seq<Assignment>, owner: string, keep: seq<nat>)
  {
    && (forall i, j :: 0 <= i < j < |keep| ==> keep[i] < keep[j])
    && (forall k :: k in keep ==> k < |h|)
    && (forall k :: 0 <= k < |h| ==> (k in keep <==> h[k].item == owner))
  }

  lemma {:induction false} OfItemExact(h: seq<Assignment>, owner: string) returns (keep: seq<nat>)
    ensures OwnAt(h, owner, keep) && |OfItem(h, owner)| == |keep|
    ensures forall i :: 0 <= i < |keep| ==> keep[i] < |h| && OfItem(h, owner)[i] == h[keep[i]]
  {
    if h == [] {
      keep := [];
    } else {
      var n := |h| - 1;
      keep := OfItemExact(h[..n], owner);
      if h[n].item == owner {
        keep := keep + [n];
      }
    }
  }

  // A fresh interface gets of a variable that is not recursive the assignments that its owner
  // made; those of a list in their order.
  lemma FreshOwn(dir: Dir, theirs: Variable, owner: string)
    requires theirs.scope == NonRecursive && WellKept(theirs)
    ensures Merged(dir, Declared(theirs), theirs, owner).history ==
            Arranged(theirs.list, OfItem(theirs.history, owner))
  {
    hide Arranged, AssignedAll, Effective, SettledValue, KeysDistinct, WithStored, OfItem;
    var calls := OfItem(theirs.history, owner);
    OfItemKeys(theirs.history, owner);
    var v := Declared(theirs).(resets := WithResets([], theirs.resets));
    HistoryExact(dir, v, calls);
    EffectiveDistinct(calls);
    StoredSettled(dir, v, calls);
  }

  // So nothing of it reaches those that import the interface from there.
  lemma NotSecondHand(dir: Dir, theirs: Variable, owner: string, next: string)
    requires theirs.scope == NonRecursive && WellKept(theirs) && owner != next
    ensures var copy := Merged(dir, Declared(theirs), theirs, owner);
            Merged(dir, Declared(copy), copy, next).history == []
  {
    hide AssignedAll, WellKept, Arranged;
    var copy := Merged(dir, Declared(theirs), theirs, owner);
    var start := Declared(theirs).(resets := WithResets([], theirs.resets));
    AssignedAllFields(dir, start, OfItem(theirs.history, owner));
    FreshOwn(dir, theirs, owner);
    var keep := OfItemExact(theirs.history, owner);
    forall a | a in copy.history
      ensures a.item != next
    {
      ArrangedMembers(theirs.list, OfItem(theirs.history, owner), a);
      var i :| 0 <= i < |keep| && OfItem(theirs.history, owner)[i] == a;
      assert keep[i] in keep;
    }
    NoneOfItem(copy.history, next);
    NoAssignments(dir, Declared(copy).(resets := WithResets([], copy.resets)));
  }

  lemma ArrangedMembers(list: ListType, calls: seq<Assignment>, a: Assignment)
    ensures a in Arranged(list, calls) <==> a in calls
  {
    SplitMembers(calls, a);
  }

  lemma {:induction false} NoneOfItem(h: seq<Assignment>, owner: string)
    requires forall a :: a in h ==> a.item != owner
    ensures OfItem(h, owner) == []
  {
    if h != [] {
      NoneOfItem(h[..|h| - 1], owner);
    }
  }

  // Importing adds the variables that are not local, and changes no others; a variable declared
  // in two places stays as it was, and that is an error.
  lemma ImportedExact(dir: Dir, table: Table, other: Table, owner: string)
    ensures var r := Imported(dir, table, other, owner);
            && (forall x :: x in r <==> x in table || (x in other && other[x].scope != Local))
            && (forall x :: x in table && (x !in other || other[x].scope == Local) ==> r[x] == table[x])
            && (forall x :: x in table && x in other && other[x].scope != Local
                            && table[x].declared != other[x].declared ==>
                  r[x] == table[x] && !ImportOk(dir, table, other, owner))
            && (forall x :: x !in table && x in other && other[x].scope != Local && WellKept(other[x]) ==>
                  r[x].(resets := [], history := []) == other[x].(resets := [], history := [])
                  && r[x].history == Arranged(other[x].list,
                       if other[x].scope == Recursive then other[x].history else OfItem(other[x].history, owner)))
  {
    hide AssignedAll, OfItem, AssignAllOk, Arranged, WellKept;
    var r := Imported(dir, table, other, owner);
    forall x | x !in table && x in other && other[x].scope != Local && WellKept(other[x])
      ensures r[x].(resets := [], history := []) == other[x].(resets := [], history := [])
      ensures r[x].history == Arranged(other[x].list,
                if other[x].scope == Recursive then other[x].history else OfItem(other[x].history, owner))
    {
      var theirs := other[x];
      AssignedAllFields(dir, Declared(theirs).(resets := WithResets([], theirs.resets)), Exported(theirs, owner));
      if theirs.scope == Recursive {
        KeptIs(theirs);
        FreshImport(dir, theirs, owner);
      } else {
        FreshOwn(dir, theirs, owner);
      }
    }
    forall x | x in table && x in other && other[x].scope != Local && table[x].declared != other[x].declared
      ensures r[x] == table[x] && !ImportOk(dir, table, other, owner)
    {
      assert x in Importable(other);
    }
  }

  lemma KeptIs(v: Variable)
    requires WellKept(v)
    ensures KeysDistinct(v.history) && Settled(v)
  {
  }
}
