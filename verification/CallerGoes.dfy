/**
  A call that goes before the calls made from it: what the table of callers or
  callees shows then, and what it is left with when these calls are told of
  later.
*/
module CallerGoes {
  import opened Statistics
  import opened CallTables
  import opened Hierarchy
  import opened FlatSums
  import opened CallQueries
  import opened Folds
  import opened Indexes
  import opened GroupByViews
  import opened StaleRows
  import opened JoinViews
  import opened DerivedStatistics

  /**
    With everything in step, a call goes. Right after that, rows are those of the groups as filed; and these are the
    groups of the query exactly when nobody sees that a caller has gone.
  */
  method CallGoes(table: DerivedTable, id: Id)
    requires table.Valid() && table.dirty == {} && id in table.records && id !in table.selection.Values
    modifies table.Repr()
    ensures table.Coherent() && table.records == old(table.records) - {id} && table.selection == old(table.selection)
    ensures table.calls.view.uindex.Valid() && forall key ::
      (exists r :: r in table.calls.view.rows && table.calls.view.rows[r].key == key) <==> table.FiledGroup(key) != {}
    ensures (forall key :: table.FiledGroup(key) == QueryGroup(table.kind, table.records, table.Chosen(), key))
       <==> Unseen(table.kind, old(table.records), table.Chosen(), id)
    ensures Unseen(table.kind, old(table.records), table.Chosen(), id) ==> table.Shows()
  {
    hide DerivedTable.Coherent, DerivedTable.Valid, DerivedTable.FiledGroup, DerivedTable.Shows, QueryGroup, Unseen;
    hide Harmless, Acyclic, DerivedTable.Astray, RowsKept, AddressesOf;
    ghost var before, chosen := table.records, table.Chosen();
    table.ValidIsCoherent();
    forall key ensures table.FiledGroup(key) == QueryGroup(table.kind, before, chosen, key) {
      table.FiledIsQuery(key);
    }
    AddressesStay(before, table.selection, before[id]);
    RecordOf(before, id);
    table.Remove(id);
    GroupsStay(table.kind, before, chosen, id);
    table.ResultIsFiled();
    if Unseen(table.kind, before, chosen, id) {
      table.ShowsWhatIsFiled();
    }
  }

  /**
    A caller that goes before the only call of its group leaves that group's row behind: when the call goes, its
    group comes out as that of calls nobody made, and the row is not found. The query finds no such group.
  */
  method CallerFirst(table: DerivedTable, p: Id, c: Id) returns (ghost row: Handle)
    requires table.Valid() && table.kind == Callers && table.dirty == {}
    requires p in table.records && c in table.records && table.records[c].parentId == p && table.records[p].address != 0
    requires p !in table.selection.Values && c !in table.selection.Values
    requires QueryGroup(Callers, table.records, table.Chosen(),
                        GroupKey(table.records[p].address, table.records[c].threadId)) == {c}
    modifies table.Repr()
    ensures table.Coherent() && table.records == old(table.records) - {p} - {c}
    ensures table.selection == old(table.selection)
    ensures var key := old(GroupKey(table.records[p].address, table.records[c].threadId));
      && row in table.calls.view.rows && table.calls.view.rows[row].key == key
      && QueryGroup(Callers, table.records, table.Chosen(), key) == {}
  {
    hide DerivedTable.Coherent, DerivedTable.Valid, DerivedTable.FiledGroup, QueryGroup, Harmless, Acyclic;
    hide DerivedTable.Astray, AddressesOf;
    ghost var before, chosen := table.records, table.Chosen();
    ghost var key := GroupKey(before[p].address, before[c].threadId);
    table.ValidIsCoherent();
    table.FiledIsQuery(key);
    AddressesStay(before, table.selection, before[p]);
    AddressesStay(before - {p}, table.selection, before[c]);
    RecordOf(before, p);
    RecordOf(before, c);
    NotItsOwnCaller(before, c);
    table.Remove(p);
    row := FiledHasRow(table, key);
    GoneFrom(Callers, before, p, c);
    table.Remove(c);
    GroupShrinks(before, chosen, p, c, key);
  }

  /** Calls left by their caller are those of nobody, so that no group of somebody gets more of them. */
  lemma GroupShrinks(before: Records, chosen: set<Address>, p: Id, c: Id, key: GroupKey)
    requires Acyclic(before) && key.address != 0
    ensures QueryGroup(Callers, before - {p} - {c}, chosen, key) <= QueryGroup(Callers, before, chosen, key) - {c}
  {
    var after := before - {p} - {c};
    forall i | i in QueryGroup(Callers, after, chosen, key) ensures i in QueryGroup(Callers, before, chosen, key) {
      assert ParentAddress(after, i) == ParentAddress(before, i);
    }
  }

  // ---- A caller and its call ----

  function Called(id: Id, caller: Id, address: Address): CallStatistics {
    CallStatistics(id, 1, caller, address, Zero())
  }

  lemma TwoCalls()
    ensures var p, c := Called(1, 0, 7), Called(2, 1, 9);
      && Acyclic(map[1 := p]) && Acyclic(map[1 := p, 2 := c]) && Acyclic(map[2 := c])
      && Childless(map[], 1) && Childless(map[1 := p], 2)
      && map[1 := p][2 := c] - {1} == map[2 := c]
      && ParentAddress(map[1 := p, 2 := c], 2) == 7 && ParentAddress(map[2 := c], 2) == 0
  {
  }

  lemma TwoCallsQueried(key: GroupKey)
    ensures QueryGroup(Callers, map[1 := Called(1, 0, 7), 2 := Called(2, 1, 9)], {9}, key)
         == if key == GroupKey(7, 1) then {2} else {}
    ensures QueryGroup(Callers, map[2 := Called(2, 1, 9)], {9}, key) == if key == GroupKey(0, 1) then {2} else {}
  {
  }

  method CallerAndCall() returns (table: DerivedTable)
    ensures table.Valid() && table.kind == Callers && table.dirty == {} && table.selection == map[]
    ensures fresh(table.Repr())
    ensures table.records == map[1 := Called(1, 0, 7), 2 := Called(2, 1, 9)]
  {
    hide DerivedTable.Coherent, DerivedTable.Valid, Acyclic, PathsRight, Childless, RowsKept;
    TwoCalls();
    table := new DerivedTable(Callers);
    table.ValidIsCoherent();
    table.Append(Called(1, 0, 7));
    table.ValidIsCoherent();
    table.Append(Called(2, 1, 9));
  }

  ghost predicate RowOf(rows: map<Handle, Row<GroupKey, FunctionStatistics>>, key: GroupKey) {
    exists r :: r in rows && rows[r].key == key
  }

  /** Selected after its caller has gone, a call is found among those nobody made; so it is by the query. */
  method SelectedAfterCaller() returns (table: DerivedTable)
    ensures table.Valid() && table.Shows()
    ensures forall key :: RowOf(table.calls.view.rows, key) <==> key == GroupKey(0, 1)
  {
    hide *;
    TwoCalls();
    table := CallerAndCall();
    LeaveAlone(table);
    SelectCalled(table);
    table.ResultIsQuery();
    ShownOfCalled(table);
  }

  lemma ShownOfCalled(table: DerivedTable)
    requires table.Shows() && table.kind == Callers && table.records == map[2 := Called(2, 1, 9)]
    requires table.Chosen() == {9}
    ensures forall key :: RowOf(table.calls.view.rows, key) <==> key == GroupKey(0, 1)
  {
    hide Acyclic, QueryGroup, Query, DerivedTable.Chosen;
    forall key ensures RowOf(table.calls.view.rows, key) <==> key == GroupKey(0, 1) {
      TwoCallsQueried(key);
    }
  }

  /** The caller goes, with nothing selected yet. */
  method LeaveAlone(table: DerivedTable)
    requires table.Valid() && table.kind == Callers && table.dirty == {} && table.selection == map[]
    requires table.records == map[1 := Called(1, 0, 7), 2 := Called(2, 1, 9)]
    modifies table.Repr()
    ensures table.Valid() && table.dirty == {} && table.selection == map[]
    ensures table.records == map[2 := Called(2, 1, 9)]
  {
    hide DerivedTable.Coherent, DerivedTable.Valid, Acyclic, PathsRight, RowsKept, DerivedTable.Astray;
    hide DerivedTable.FiledGroup;
    table.ValidIsCoherent();
    table.Remove(1);
    assert table.Chosen() == {};
  }

  method SelectCalled(table: DerivedTable)
    requires table.Valid() && table.dirty == {} && table.selection == map[]
    requires 2 in table.records && table.records[2] == Called(2, 1, 9)
    modifies table.Repr()
    ensures table.Valid() && table.dirty == {} && table.records == old(table.records)
    ensures table.selection == map[0 := 2] && table.Chosen() == {9}
  {
    hide DerivedTable.Coherent, DerivedTable.Valid, Acyclic, PathsRight, RowsKept;
    hide DerivedTable.AllAstray, DerivedTable.GroupsTold;
    table.ValidIsCoherent();
    table.Select(0, 2);
    OneSelected(table.records, table.selection, 0, 2);
  }

  lemma OneSelected(records: Records, selection: map<Handle, Id>, h: Handle, id: Id)
    requires selection == map[h := id] && id in records
    ensures AddressesOf(records, selection).Values == {records[id].address}
  {
    assert h in AddressesOf(records, selection);
  }

  /** A call that is selected while its caller is there, and left by it then: its row is still its caller's. */
  method CallerGone() returns (table: DerivedTable, ghost row: Handle)
    ensures table.Coherent() && table.kind == Callers && table.dirty == {} && fresh(table.Repr())
    ensures table.records == map[2 := Called(2, 1, 9)] && table.selection == map[0 := 2]
    ensures table.calls.view.uindex.Valid()
    ensures table.FiledGroup(GroupKey(7, 1)) == {2} && table.FiledGroup(GroupKey(0, 1)) == {}
    ensures row in table.calls.view.rows && table.calls.view.rows[row] == Row(GroupKey(7, 1), Zero())
  {
    hide *;
    TwoCalls();
    table := CallerAndCall();
    SelectCalled(table);
    row := LeaveSelected(table);
  }

  method LeaveSelected(table: DerivedTable) returns (ghost row: Handle)
    requires table.Valid() && table.kind == Callers && table.dirty == {}
    requires table.records == map[1 := Called(1, 0, 7), 2 := Called(2, 1, 9)]
    requires table.selection == map[0 := 2] && table.Chosen() == {9}
    modifies table.Repr()
    ensures table.Coherent() && table.dirty == {} && table.selection == old(table.selection)
    ensures table.records == map[2 := Called(2, 1, 9)]
    ensures table.calls.view.uindex.Valid()
    ensures table.FiledGroup(GroupKey(7, 1)) == {2} && table.FiledGroup(GroupKey(0, 1)) == {}
    ensures row in table.calls.view.rows && table.calls.view.rows[row] == Row(GroupKey(7, 1), Zero())
  {
    hide DerivedTable.Coherent, DerivedTable.Valid, Acyclic, PathsRight, RowsKept, DerivedTable.Astray, Harmless;
    hide DerivedTable.FiledGroup, Measures, Fold, DerivedTable.Chosen, AddFlat, QueryGroup;
    table.ValidIsCoherent();
    table.FiledIsQuery(GroupKey(7, 1));
    table.FiledIsQuery(GroupKey(0, 1));
    TwoCallsQueried(GroupKey(7, 1));
    TwoCallsQueried(GroupKey(0, 1));
    table.Remove(1);
    row := FiledHasRow(table, GroupKey(7, 1));
    NothingCounted(table.records, table.paths);
  }

  lemma FiledHasRow(table: DerivedTable, key: GroupKey) returns (row: Handle)
    requires table.Coherent() && table.dirty == {} && table.stale == {} && table.calls.view.uindex.Valid()
    requires table.FiledGroup(key) != {}
    ensures table.FiledGroup(key) <= Measures(table.records, table.paths).Keys
    ensures row in table.calls.view.rows && table.calls.view.rows[row]
      == Row(key, Fold(table.FiledGroup(key), Measures(table.records, table.paths), Zero(), AddFlat))
  {
    hide DerivedTable.Coherent, DerivedTable.FiledGroup, Measures, Fold, AddFlat;
    table.ResultIsFiled();
    row :| row in table.calls.view.rows && table.calls.view.rows[row].key == key;
  }

  lemma NothingCounted(records: Records, paths: map<Id, nat>)
    requires 2 in records && records[2].statistics == Zero() && 2 in Measures(records, paths)
    ensures Fold({2}, Measures(records, paths), Zero(), AddFlat) == Zero()
  {
  }

  /**
    What is written to such a call and committed afterwards goes by: its row keeps what it had, and a row of nothing
    comes into being for the calls nobody made. The query has one row, of what was written.
  */
  method CommittedAfterCaller(statistics: FunctionStatistics) returns (table: DerivedTable)
    ensures table.Coherent() && table.dirty == {} && table.Chosen() == {9}
    ensures table.records == map[2 := Called(2, 1, 9).(statistics := statistics)]
    ensures exists r :: r in table.calls.view.rows && table.calls.view.rows[r] == Row(GroupKey(7, 1), Zero())
    ensures exists r :: r in table.calls.view.rows && table.calls.view.rows[r] == Row(GroupKey(0, 1), Zero())
    ensures forall key :: QueryGroup(Callers, table.records, {9}, key) == if key == GroupKey(0, 1) then {2} else {}
  {
    hide *;
    ghost var row;
    table, row := CallerGone();
    CommitCalled(table, statistics, row);
    CalledQueried(statistics);
  }

  lemma CalledQueried(statistics: FunctionStatistics)
    ensures var records := map[2 := Called(2, 1, 9).(statistics := statistics)];
      forall key :: QueryGroup(Callers, records, {9}, key) == if key == GroupKey(0, 1) then {2} else {}
  {
  }

  method CommitCalled(table: DerivedTable, statistics: FunctionStatistics, ghost row: Handle)
    requires table.Coherent() && table.kind == Callers && table.dirty == {}
    requires table.records == map[2 := Called(2, 1, 9)] && table.selection == map[0 := 2]
    requires table.calls.view.uindex.Valid()
    requires table.FiledGroup(GroupKey(7, 1)) == {2} && table.FiledGroup(GroupKey(0, 1)) == {}
    requires row in table.calls.view.rows && table.calls.view.rows[row] == Row(GroupKey(7, 1), Zero())
    modifies table.Repr()
    ensures table.Coherent() && table.dirty == {} && table.Chosen() == {9}
    ensures table.records == map[2 := Called(2, 1, 9).(statistics := statistics)]
    ensures row in table.calls.view.rows && table.calls.view.rows[row] == Row(GroupKey(7, 1), Zero())
    ensures exists r :: r in table.calls.view.rows && table.calls.view.rows[r] == Row(GroupKey(0, 1), Zero())
  {
    hide DerivedTable.Coherent, DerivedTable.Valid, Acyclic, PathsRight, DerivedTable.Astray, DerivedTable.FiledGroup;
    hide DerivedTable.ShowsFiled, LeftPairs, Measures, AddFlat;
    table.FiledHasPairs(GroupKey(7, 1), 2);
    table.Write(2, statistics);
    table.Commit(2);
    table.FiledRow(GroupKey(0, 1));
    OneSelected(table.records, table.selection, 0, 2);
  }

  /** Taken out of the selection, such a call leaves its row behind for good, with nothing selected at all. */
  method UnselectedAfterCaller() returns (table: DerivedTable)
    ensures table.Coherent() && table.dirty == {} && table.Chosen() == {} && table.kind == Callers
    ensures RowOf(table.calls.view.rows, GroupKey(7, 1))
    ensures forall key :: QueryGroup(Callers, table.records, {}, key) == {}
  {
    hide *;
    ghost var row;
    table, row := CallerGone();
    UnselectCalled(table, row);
    NothingQueried(table.records);
  }

  lemma NothingQueried(records: Records)
    ensures forall key :: QueryGroup(Callers, records, {}, key) == {}
  {
  }

  method UnselectCalled(table: DerivedTable, ghost row: Handle)
    requires table.Coherent() && table.kind == Callers && table.dirty == {}
    requires table.records == map[2 := Called(2, 1, 9)] && table.selection == map[0 := 2]
    requires row in table.calls.view.rows && table.calls.view.rows[row] == Row(GroupKey(7, 1), Zero())
    modifies table.Repr()
    ensures table.Coherent() && table.dirty == {} && table.Chosen() == {} && table.records == old(table.records)
    ensures RowOf(table.calls.view.rows, GroupKey(7, 1))
  {
    hide DerivedTable.Coherent, DerivedTable.Valid, Acyclic, PathsRight, DerivedTable.AllAstray;
    hide DerivedTable.GroupsTold;
    table.Known();
    OneGroupTold(table);
    table.Unselect(0);
    assert table.selection.Keys == {};
    assert row in table.calls.view.rows;
  }

  lemma OneGroupTold(table: DerivedTable)
    requires table.kind == Callers && table.records == map[2 := Called(2, 1, 9)] && table.calls.lindex.Valid()
    ensures table.GroupsTold(9) <= {GroupKey(0, 1)}
  {
    hide Index.Valid, Index.Keys, Matching;
  }
}
