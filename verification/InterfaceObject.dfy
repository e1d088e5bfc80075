// The Interface class (src/Interface.cc) with its symbol table changed in place.
module InterfaceObjects {
  import opened Names
  import opened Paths
  import opened Interfaces

  // What every symbol table satisfies.
  ghost predicate WellKept(v: Variable)
  {
    KeysDistinct(v.history) && Settled(v) && (v.list == Scalar ==> FallbacksFirst(v.history))
  }

  // An assignment met before, on the same platform, has the value it had then.
  ghost predicate Agrees(dir: Dir, v: Variable, a: Assignment)
  {
    forall h :: h in v.history && SameKey(h, a.location, a.platform) ==> h.value == Stored(dir, v, a.value)
  }

  ghost predicate ImportAgrees(dir: Dir, table: Table, other: Table, owner: string)
  {
    forall x :: x in table && x in Importable(other) ==>
      forall a :: a in Exported(other[x], owner) ==> Agrees(dir, table[x], a)
  }

  datatype VariableInfo = VariableInfo(
    target: string, vtype: VarType, scope: Scope, list: ListType, initialized: bool, value: seq<string>)

  lemma AssignedKeepsWellKept(dir: Dir, v: Variable, a: Assignment)
    requires WellKept(v)
    ensures WellKept(Assigned(dir, v, a))
  {
    hide KeysDistinct, Settled, Stored, Seen;
    AssignedKeepsKeys(dir, v, a);
    AssignedKeepsSettled(dir, v, a);
    var r := Assigned(dir, v, a);
    if v.list == Scalar && r != v {
      forall i, j | 0 <= i < j < |r.history| && r.history[j].kind == Fallback
        ensures r.history[i].kind == Fallback
      {
        if a.kind == Fallback && i > 0 {
          assert v.history[j - 1] == r.history[j] && v.history[i - 1] == r.history[i];
        }
      }
    }
  }

  lemma {:induction false} OfItemKeys(history: seq<Assignment>, owner: string)
    requires KeysDistinct(history)
    ensures KeysDistinct(OfItem(history, owner))
    ensures forall a :: a in OfItem(history, owner) ==> a in history
  {
    hide SameKey;
    if history != [] {
      var n := |history| - 1;
      OfItemKeys(history[..n], owner);
      var h := history[..n];
      assert history == h + [history[n]];
      assert forall a :: a in h ==> !SameKey(a, history[n].location, history[n].platform);
    }
  }

  lemma {:induction false} AssignedAllMembers(dir: Dir, v: Variable, calls: seq<Assignment>, h: Assignment)
    requires h in AssignedAll(dir, v, calls).history
    ensures h in v.history || exists a :: a in calls && SameKey(h, a.location, a.platform)
  {
    hide Seen, Stored, SameKey;
    if calls != [] {
      var n := |calls| - 1;
      var w := AssignedAll(dir, v, calls[..n]);
      assert calls == calls[..n] + [calls[n]];
      if h in w.history {
        AssignedAllMembers(dir, v, calls[..n], h);
      } else {
        PushedKey(dir, w, calls[n], h);
      }
    }
  }

  lemma PushedKey(dir: Dir, v: Variable, a: Assignment, h: Assignment)
    requires h in Assigned(dir, v, a).history && h !in v.history
    ensures SameKey(h, a.location, a.platform)
  {
  }

  // While an interface is being imported its assignments keep agreeing with what is there.
  lemma AgreesAlong(dir: Dir, v: Variable, calls: seq<Assignment>, j: nat)
    requires KeysDistinct(calls) && j < |calls| && Agrees(dir, v, calls[j])
    ensures Agrees(dir, AssignedAll(dir, v, calls[..j]), calls[j])
  {
    hide Stored;
    var w := AssignedAll(dir, v, calls[..j]);
    AssignedAllFields(dir, v, calls[..j]);
    StoredSame(dir, v, w, calls[j].value);
    forall h | h in w.history && SameKey(h, calls[j].location, calls[j].platform)
      ensures h in v.history
    {
      AssignedAllMembers(dir, v, calls[..j], h);
    }
  }

  // The exported assignments among the first i.
  ghost function ExportedTo(v: Variable, owner: string, i: nat): seq<Assignment>
    requires i <= |v.history|
  {
    Exported(v.(history := v.history[..i]), owner)
  }

  lemma ExportedStart(v: Variable, owner: string)
    ensures ExportedTo(v, owner, 0) == []
  {
  }

  lemma ExportedEnd(v: Variable, owner: string)
    ensures ExportedTo(v, owner, |v.history|) == Exported(v, owner)
  {
    assert v.history[..|v.history|] == v.history;
  }

  lemma {:induction false} OfItemPrefix(history: seq<Assignment>, owner: string, i: nat)
    requires i <= |history|
    ensures OfItem(history[..i], owner) <= OfItem(history, owner)
    decreases |history|
  {
    var n := |history| - 1;
    if i == |history| {
      assert history[..i] == history;
    } else {
      OfItemPrefix(history[..n], owner, i);
      assert history[..n][..i] == history[..i];
    }
  }

  lemma ExportedNext(v: Variable, owner: string, i: nat)
    requires i < |v.history|
    ensures var a := v.history[i];
            ExportedTo(v, owner, i + 1) ==
              ExportedTo(v, owner, i) + (if v.scope == Recursive || a.item == owner then [a] else [])
    ensures ExportedTo(v, owner, i + 1) <= Exported(v, owner)
  {
    assert v.history[..i + 1][..i] == v.history[..i];
    OfItemPrefix(v.history, owner, i + 1);
  }

  lemma ExportedKeys(v: Variable, owner: string)
    requires WellKept(v)
    ensures KeysDistinct(Exported(v, owner))
  {
    OfItemKeys(v.history, owner);
  }

  lemma NoAssignments(dir: Dir, v: Variable)
    ensures AssignedAll(dir, v, []) == v && AssignAllOk(dir, v, [])
  {
  }

  lemma AssignedAllNext(dir: Dir, v: Variable, calls: seq<Assignment>, n: nat)
    requires n < |calls|
    ensures AssignedAll(dir, v, calls[..n + 1]) == Assigned(dir, AssignedAll(dir, v, calls[..n]), calls[n])
    ensures AssignAllOk(dir, v, calls[..n + 1]) <==>
            AssignAllOk(dir, v, calls[..n]) && AssignOk(dir, AssignedAll(dir, v, calls[..n]), calls[n])
  {
    assert calls[..n + 1][..n] == calls[..n];
  }

  lemma AgreesAfterResets(dir: Dir, mine: Variable, resets: seq<Reset>, calls: seq<Assignment>)
    requires mine.history == [] || forall a :: a in calls ==> Agrees(dir, mine, a)
    ensures forall a :: a in calls ==> Agrees(dir, mine.(resets := resets), a)
  {
    hide Stored;
    forall a | a in calls
      ensures Agrees(dir, mine.(resets := resets), a)
    {
      StoredSame(dir, mine, mine.(resets := resets), a.value);
    }
  }

  // The part of a symbol table that has been visited.
  ghost function Part(table: Table, names: seq<string>): Table
  {
    map x | x in table && x in names :: table[x]
  }

  lemma PartNext(other: Table, names: seq<string>, i: nat)
    requires i < |names| && Distinct(names) && names[i] in other
    ensures names[i] !in Part(other, names[..i])
    ensures Part(other, names[..i + 1]) == Part(other, names[..i])[names[i] := other[names[i]]]
  {
    assert names[..i + 1] == names[..i] + [names[i]];
  }

  lemma PartEnd(other: Table, names: seq<string>)
    requires forall x :: x in other ==> x in names
    ensures Part(other, names[..0]) == map[] && Part(other, names) == other
  {
  }

  lemma ImportNothing(dir: Dir, table: Table, owner: string)
    ensures Imported(dir, table, map[], owner) == table && ImportOk(dir, table, map[], owner)
  {
  }

  lemma ImportLocal(dir: Dir, table: Table, a: Table, x: string, theirs: Variable, owner: string)
    requires x !in a && theirs.scope == Local
    ensures Imported(dir, table, a[x := theirs], owner) == Imported(dir, table, a, owner)
    ensures ImportOk(dir, table, a[x := theirs], owner) <==> ImportOk(dir, table, a, owner)
  {
    hide Merged, MergeOk;
    assert Importable(a[x := theirs]) == Importable(a);
  }

  ghost function MineOrDeclared(table: Table, x: string, theirs: Variable): Variable
  {
    if x in table then table[x] else Declared(theirs)
  }

  lemma ImportOne(dir: Dir, table: Table, a: Table, x: string, theirs: Variable, owner: string)
    requires x !in a && theirs.scope != Local
    ensures Imported(dir, table, a[x := theirs], owner) ==
            Imported(dir, table, a, owner)[x := Merged(dir, MineOrDeclared(table, x, theirs), theirs, owner)]
  {
    hide Merged;
    var b := a[x := theirs];
    assert Importable(b) == Importable(a) + {x};
    var l, r := Imported(dir, table, b, owner), Imported(dir, table, a, owner);
    assert l.Keys == r.Keys + {x};
    assert l[x] == Merged(dir, MineOrDeclared(table, x, theirs), theirs, owner);
    assert forall y :: y in l && y != x ==> l[y] == r[y];
  }

  lemma ImportOneOk(dir: Dir, table: Table, a: Table, x: string, theirs: Variable, owner: string)
    requires x !in a && theirs.scope != Local
    ensures ImportOk(dir, table, a[x := theirs], owner) <==>
            ImportOk(dir, table, a, owner) && MergeOk(dir, MineOrDeclared(table, x, theirs), theirs, owner)
  {
    hide MergeOk;
    assert Importable(a[x := theirs]) == Importable(a) + {x};
  }

  // What has not been visited yet is as it was.
  lemma ImportLeaves(dir: Dir, table: Table, a: Table, x: string, owner: string)
    requires x !in a
    ensures x in Imported(dir, table, a, owner) <==> x in table
    ensures x in table ==> Imported(dir, table, a, owner)[x] == table[x]
  {
    hide Merged;
  }

  lemma AgreesAt(dir: Dir, table: Table, other: Table, owner: string, x: string)
    requires ImportAgrees(dir, table, other, owner) && x in table && x in other && other[x].scope != Local
    ensures forall a :: a in Exported(other[x], owner) ==> Agrees(dir, table[x], a)
  {
    hide Agrees, Exported;
    assert x in Importable(other);
  }

  class Interface {
    const itemName: string
    const itemPlatform: string
    var localDirectory: Dir
    var targetType: string
    var symbolTable: Table

    constructor (itemName: string, itemPlatform: string, localDirectory: Dir)
      ensures Valid() && symbolTable == map[]
      ensures this.itemName == itemName && this.itemPlatform == itemPlatform && this.localDirectory == localDirectory
    {
      this.itemName, this.itemPlatform, this.localDirectory := itemName, itemPlatform, localDirectory;
      targetType := "all";
      symbolTable := map[];
    }

    ghost predicate Valid()
      reads this
    {
      forall x :: x in symbolTable ==> WellKept(symbolTable[x])
    }

    method DeclareVariable(location: Location, x: string, target: string, scope: Scope, vtype: VarType, list: ListType)
        returns (ok: bool)
      requires Valid()
      modifies this`symbolTable
      ensures Valid()
      ensures ok == (x !in old(symbolTable) || old(symbolTable)[x].declared == location)
      ensures symbolTable == if x in old(symbolTable) then old(symbolTable)
                             else old(symbolTable)[x := Variable(location, target, scope, vtype, list, [], [])]
    {
      ok := true;
      if x in symbolTable {
        if symbolTable[x].declared != location {
          ok := false;
        }
      } else {
        symbolTable := symbolTable[x := Variable(location, target, scope, vtype, list, [], [])];
      }
    }

    method AdjustValue(vtype: VarType, value: string) returns (r: string, ok: bool)
      ensures r == Adjusted(localDirectory, vtype, value) && ok == Acceptable(vtype, value)
    {
      hide NormalizedFilename;
      r, ok := value, true;
      match vtype {
        case Boolean =>
          if value == "1" || value == "0" {
          } else if value == "true" {
            r := "1";
          } else if value == "false" {
            r := "0";
          } else {
            ok := false;
          }
        case Filename =>
          if value == "" {
            ok := false;
          } else {
            r := NormalizedFilename(localDirectory, value);
          }
        case String =>
      }
    }

    method AdjustValues(v: Variable, ovalues: seq<string>) returns (values: seq<string>, ok: bool)
      ensures values == Stored(localDirectory, v, ovalues)
      ensures ok == (var given := Filled(v.list, ovalues);
                     (v.list == Scalar ==> |given| == 1) && forall i :: 0 <= i < |given| ==>
                       Acceptable(v.vtype, given[i]))
    {
      hide Adjusted, Acceptable;
      ok, values := true, ovalues;
      if v.list == Scalar {
        if values == [] {
          values := values + [""];
        }
        if |values| != 1 {
          ok := false;
        }
      }
      ghost var given := values;
      var i := 0;
      while i < |values|
        invariant i <= |values| == |given|
        invariant forall k :: 0 <= k < i ==> values[k] == Adjusted(localDirectory, v.vtype, given[k])
        invariant forall k :: i <= k < |values| ==> values[k] == given[k]
        invariant ok == ((v.list == Scalar ==> |given| == 1) && forall k :: 0 <= k < i ==>
                    Acceptable(v.vtype, given[k]))
      {
        var value, good := AdjustValue(v.vtype, values[i]);
        values := values[i := value];
        if !good {
          ok := false;
        }
        i := i + 1;
      }
    }

    method AssignVariable(x: string, a: Assignment) returns (ok: bool)
      requires Valid() && (x in symbolTable ==> Agrees(localDirectory, symbolTable[x], a))
      modifies this`symbolTable
      ensures Valid()
      ensures ok == (x in old(symbolTable) && AssignOk(localDirectory, old(symbolTable)[x], a))
      ensures symbolTable == if x in old(symbolTable)
                             then old(symbolTable)[x := Assigned(localDirectory, old(symbolTable)[x], a)]
                             else old(symbolTable)
    {
      ok := true;
      if x !in symbolTable {
        return false;
      }
      var v := symbolTable[x];
      AssignedKeepsWellKept(localDirectory, v, a);
      var i := 0;
      while i < |v.history| && !SameKey(v.history[i], a.location, a.platform)
        invariant i <= |v.history|
        invariant forall h :: h in v.history[..i] ==> !SameKey(h, a.location, a.platform)
      {
        i := i + 1;
      }
      var values;
      values, ok := AdjustValues(v, a.value);
      if i < |v.history| {
        // An assignment that has been seen before.
        assert v.history[i] in v.history && v.history[i].value == values;
        assert symbolTable == symbolTable[x := v];
        return true;
      }
      assert v.history[..i] == v.history;
      var assignment := a.(value := values);
      if v.list == Scalar {
        if a.kind == Normal {
          var previous := FirstIfNormal(v.history);
          if previous != [] && !(previous[0].location == a.location && values == previous[0].value) {
            ok := false;
          }
        }
      } else if a.kind != Normal {
        ok := false;
      }
      if v.list == Scalar && a.kind == Fallback {
        v := v.(history := [assignment] + v.history);
      } else {
        v := v.(history := v.history + [assignment]);
      }
      symbolTable := symbolTable[x := v];
    }

    // The search for a previous normal assignment: its loop is left after the first entry.
    static method FirstIfNormal(history: seq<Assignment>) returns (previous: seq<Assignment>)
      ensures previous == if history != [] && history[0].kind == Normal then history[..1] else []
    {
      previous := [];
      if |history| > 0 && history[0].kind == Normal {
        previous := [history[0]];
      }
    }

    method ResetVariable(x: string, r: Reset, clear: bool) returns (ok: bool)
      requires Valid()
      modifies this`symbolTable
      ensures Valid()
      ensures ok == (x in old(symbolTable))
      ensures symbolTable ==
              if x in old(symbolTable)
              then old(symbolTable)[x := old(symbolTable)[x].(resets := WithReset(old(symbolTable)[x].resets, r),
                                                              history := if clear then []
                                                                else old(symbolTable)[x].history)]
              else old(symbolTable)
    {
      if x !in symbolTable {
        return false;
      }
      ok := true;
      var v := symbolTable[x];
      if clear {
        v := v.(history := []);
      }
      if r !in v.resets {
        v := v.(resets := v.resets + [r]);
      }
      symbolTable := symbolTable[x := v];
    }

    method ImportResets(x: string, resets: seq<Reset>)
      requires Valid() && x in symbolTable
      modifies this`symbolTable
      ensures Valid()
      ensures symbolTable ==
              old(symbolTable)[x := old(symbolTable)[x].(resets := WithResets(old(symbolTable)[x].resets, resets))]
    {
      hide WellKept;
      ghost var before, mine := symbolTable, symbolTable[x];
      var i := 0;
      while i < |resets|
        invariant i <= |resets| && Valid()
        invariant symbolTable == before[x := mine.(resets := WithResets(mine.resets, resets[..i]))]
      {
        assert resets[..i + 1][..i] == resets[..i];
        var ok := ResetVariable(x, resets[i], false);
        i := i + 1;
      }
      assert resets[..i] == resets;
    }

    method ImportAssignments(x: string, theirs: Variable, owner: string) returns (ok: bool)
      requires Valid() && WellKept(theirs) && x in symbolTable
      requires forall a :: a in Exported(theirs, owner) ==> Agrees(localDirectory, symbolTable[x], a)
      modifies this`symbolTable
      ensures Valid()
      ensures symbolTable ==
              old(symbolTable)[x := AssignedAll(localDirectory, old(symbolTable)[x], Exported(theirs, owner))]
      ensures ok == AssignAllOk(localDirectory, old(symbolTable)[x], Exported(theirs, owner))
    {
      hide WellKept, Agrees, AssignedAll, AssignAllOk, Assigned, AssignOk, OfItem, Exported;
      ghost var before, mine := symbolTable, symbolTable[x];
      ghost var calls := Exported(theirs, owner);
      ghost var n := 0;
      NoAssignments(localDirectory, mine);
      ExportedStart(theirs, owner);
      assert before[x := mine] == before;
      ok := true;
      var i := 0;
      while i < |theirs.history|
        invariant i <= |theirs.history| && Valid() && n <= |calls|
        invariant ExportedTo(theirs, owner, i) == calls[..n]
        invariant symbolTable == before[x := AssignedAll(localDirectory, mine, calls[..n])]
        invariant ok == AssignAllOk(localDirectory, mine, calls[..n])
      {
        ExportedNext(theirs, owner, i);
        var a := theirs.history[i];
        if theirs.scope == Recursive || a.item == owner {
          ExportedKeys(theirs, owner);
          assert calls[n] == a && a in calls;
          AgreesAlong(localDirectory, mine, calls, n);
          AssignedAllNext(localDirectory, mine, calls, n);
          var good := AssignVariable(x, a);
          if !good {
            ok := false;
          }
          n := n + 1;
        }
        i := i + 1;
      }
      ExportedEnd(theirs, owner);
      assert calls[..n] == calls;
    }

    method ImportVariable(x: string, theirs: Variable, owner: string) returns (ok: bool)
      requires Valid() && WellKept(theirs)
      requires x in symbolTable ==> forall a :: a in Exported(theirs, owner) ==>
                 Agrees(localDirectory, symbolTable[x], a)
      modifies this`symbolTable
      ensures Valid()
      ensures var mine := MineOrDeclared(old(symbolTable), x, theirs);
              && ok == MergeOk(localDirectory, mine, theirs, owner)
              && symbolTable == old(symbolTable)[x := Merged(localDirectory, mine, theirs, owner)]
    {
      hide WellKept, AssignedAll, AssignAllOk, Exported, Stored, WithResets;
      ghost var before := symbolTable;
      ghost var mine := MineOrDeclared(symbolTable, x, theirs);
      ok := DeclareVariable(theirs.declared, x, theirs.target, theirs.scope, theirs.vtype, theirs.list);
      assert symbolTable == before[x := mine];
      if ok {
        ImportResets(x, theirs.resets);
        AgreesAfterResets(localDirectory, mine, symbolTable[x].resets, Exported(theirs, owner));
        ok := ImportAssignments(x, theirs, owner);
      }
    }

    method ImportInterface(other: Interface) returns (ok: bool)
      requires Valid() && other.Valid() && other != this
      requires ImportAgrees(localDirectory, symbolTable, other.symbolTable, other.itemName)
      modifies this`symbolTable
      ensures Valid()
      ensures symbolTable == Imported(localDirectory, old(symbolTable), other.symbolTable, other.itemName)
      ensures ok == ImportOk(localDirectory, old(symbolTable), other.symbolTable, other.itemName)
    {
      hide WellKept, Merged, MergeOk, Exported, Agrees, Imported, ImportOk, ImportAgrees, Part, SortedKeys, Declared,
           Distinct;
      ghost var before := symbolTable;
      ok := true;
      var names := KeysInOrder(other.symbolTable.Keys);
      SortedKeysDistinct(other.symbolTable.Keys);
      PartEnd(other.symbolTable, names);
      ImportNothing(localDirectory, before, other.itemName);
      var i := 0;
      while i < |names|
        invariant i <= |names| && Valid()
        invariant symbolTable == Imported(localDirectory, before, Part(other.symbolTable, names[..i]), other.itemName)
        invariant ok == ImportOk(localDirectory, before, Part(other.symbolTable, names[..i]), other.itemName)
      {
        ghost var part := Part(other.symbolTable, names[..i]);
        var x := names[i];
        assert x in names;
        var theirs := other.symbolTable[x];
        PartNext(other.symbolTable, names, i);
        if theirs.scope != Local {
          ImportOne(localDirectory, before, part, x, theirs, other.itemName);
          ImportOneOk(localDirectory, before, part, x, theirs, other.itemName);
          ImportLeaves(localDirectory, before, part, x, other.itemName);
          if x in symbolTable {
            AgreesAt(localDirectory, before, other.symbolTable, other.itemName, x);
          }
          var good := ImportVariable(x, theirs, other.itemName);
          if !good {
            ok := false;
          }
        } else {
          ImportLocal(localDirectory, before, part, x, theirs, other.itemName);
        }
        i := i + 1;
      }
      assert names[..i] == names;
    }

    // getVariable
    method GetVariable(x: string, flags: Flags) returns (known: bool, info: VariableInfo)
      ensures known == (x in symbolTable)
      ensures known ==> var v := symbolTable[x];
              var visible := Filtered(flags, v.history);
              info == VariableInfo(v.target, v.vtype, v.scope, v.list, visible != [], Value(v.list, visible))
    {
      known, info := false, VariableInfo("", String, Local, Scalar, false, []);
      if x !in symbolTable {
        return;
      }
      known := true;
      var v := symbolTable[x];
      var visible := [];
      var i := 0;
      while i < |v.history|
        invariant i <= |v.history| && visible == Filtered(flags, v.history[..i])
      {
        assert v.history[..i + 1][..i] == v.history[..i];
        if Visible(flags, v.history[i]) {
          visible := visible + [v.history[i]];
        }
        i := i + 1;
      }
      assert v.history[..i] == v.history;
      var value := [];
      if visible != [] {
        match v.list {
          case Scalar =>
            value := visible[|visible| - 1].value;
          case Append =>
            value := AppendWords(visible);
          case Prepend =>
            value := PrependWords(visible);
        }
      }
      info := VariableInfo(v.target, v.vtype, v.scope, v.list, visible != [], value);
    }

    // In order of assignment, every word goes to the end.
    static method AppendWords(visible: seq<Assignment>) returns (value: seq<string>)
      ensures value == Words(visible)
    {
      value := [];
      for i := 0 to |visible|
        invariant value == Words(visible[..i])
      {
        assert visible[..i + 1][..i] == visible[..i];
        var words := visible[i].value;
        for k := 0 to |words|
          invariant value == Words(visible[..i]) + words[..k]
        {
          value := value + [words[k]];
        }
        assert words[..|words|] == words;
      }
      assert visible[..|visible|] == visible;
    }

    // In order of assignment, the words go to the front, the last one of each first.
    static method PrependWords(visible: seq<Assignment>) returns (value: seq<string>)
      ensures value == WordsReversed(visible)
    {
      value := [];
      for i := 0 to |visible|
        invariant value == WordsReversed(visible[..i])
      {
        assert visible[..i + 1][..i] == visible[..i];
        var words := visible[i].value;
        for k := |words| downto 0
          invariant value == words[k..] + WordsReversed(visible[..i])
        {
          value := [words[k]] + value;
        }
        assert words[0..] == words;
      }
      assert visible[..|visible|] == visible;
    }
  }
}
