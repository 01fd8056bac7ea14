/**
  Whatever happens to the hierarchy and to the selection, in whatever order
  calls go: what the table of callers or callees holds then.
*/
module DerivedRuns {
  import opened Statistics
  import opened CallTables
  import opened Hierarchy
  import opened FlatSums
  import opened CallQueries
  import opened Indexes
  import opened GroupByViews
  import opened DerivedStatistics

  datatype Command =
    | Append(record: CallStatistics)
    | Write(id: Id, statistics: FunctionStatistics)
    | Commit(id: Id)
    | Remove(id: Id)
    | Select(row: Handle, id: Id)
    | Unselect(row: Handle)
    | ClearSelection
    | ClearHierarchy

  /**
    Next to what was done to the tables: whether calls are filed as they come out, and whether calls all went after
    those made from them, since the hierarchy was cleared last.
  */
  datatype State = State(records: Records, selection: map<Handle, Id>, dirty: set<Handle>, inStep: bool, whole: bool)

  function Start(): State {
    State(map[], map[], {}, true, true)
  }

  /** A call comes before those made from it; a call that is selected stays. */
  ghost predicate Allowed(s: State, c: Command) {
    match c
    case Append(r) => r.id !in s.records && Acyclic(s.records[r.id := r]) && Childless(s.records, r.id)
    case Write(id, _) => id in s.records
    case Commit(id) => id in s.records
    case Remove(id) => id in s.records && id !in s.selection.Values
    case Select(row, id) => row !in s.selection && id in s.records
    case Unselect(row) => row in s.selection
    case ClearSelection => true
    case ClearHierarchy => s.selection == map[]
  }

  /** With nothing selected there is nothing a write could have left undecided. */
  function Step(kind: Kind, s: State, c: Command): State {
    match c
    case Append(r) => s.(records := s.records[r.id := r])
    case Write(id, statistics) =>
      if id !in s.records then s else
      s.(records := s.records[id := s.records[id].(statistics := statistics)], dirty := s.dirty + {id})
    case Commit(id) => s.(dirty := s.dirty - {id})
    case Remove(id) =>
      if id !in s.records then s else
      State(s.records - {id}, s.selection, s.dirty - {id},
        s.inStep && Harmless(kind, s.records, AddressesOf(s.records, s.selection).Values, id),
        s.whole && Childless(s.records, id))
    case Select(row, id) => s.(selection := s.selection[row := id])
    case Unselect(row) => s.(selection := s.selection - {row})
    case ClearSelection => s.(selection := map[], dirty := {})
    case ClearHierarchy => Start()
  }

  function Play(kind: Kind, s: State, commands: seq<Command>): State
    decreases |commands|
  {
    if commands == [] then s else Play(kind, Step(kind, s, commands[0]), commands[1..])
  }

  ghost predicate AllAllowed(kind: Kind, s: State, commands: seq<Command>)
    decreases |commands|
  {
    commands == [] || (Allowed(s, commands[0]) && AllAllowed(kind, Step(kind, s, commands[0]), commands[1..]))
  }

  ghost predicate Holds(table: DerivedTable, s: State)
    reads table.Repr()
  {
    && table.Coherent() && table.records == s.records && table.selection == s.selection && table.dirty == s.dirty
    && (s.inStep ==> table.Valid())
    && Acyclic(s.records) && (s.whole ==> PathsRight(s.records, table.paths))
  }

  /** Every row sums up its calls with recursion counted once. */
  ghost predicate RowsAreFlat(table: DerivedTable)
    reads table, table.calls.view
  {
    var rows, records := table.calls.view.rows, table.records;
    Acyclic(records) && forall r :: r in rows ==>
      var group := QueryGroup(table.kind, records, table.Chosen(), rows[r].key);
      && rows[r].value.timesCalled == FiniteSums.Sum(group, TimesCalled(records))
      && rows[r].value.exclusiveTime == FiniteSums.Sum(group, Exclusive(records))
      && rows[r].value.inclusiveTime == FiniteSums.Sum(Outermost(records, group), Inclusive(records))
      && IsLongest(records, Outermost(records, group), rows[r].value.maxCallTime)
  }

  method Do(table: DerivedTable, ghost s: State, c: Command)
    requires Holds(table, s) && Allowed(s, c)
    modifies table.Repr()
    ensures Holds(table, Step(table.kind, s, c))
  {
    hide DerivedTable.Valid, DerivedTable.Coherent, Acyclic, Childless, Harmless, PathsRight, StaleRows.RowsKept;
    hide DerivedTable.Astray, DerivedTable.AllAstray, DerivedTable.GroupsTold, DerivedTable.FiledGroup;
    hide DerivedTable.ShowsFiled, AddressesOf, GroupOf;
    table.Known();
    match c {
    case Append(r) => table.Append(r);
    case Write(id, statistics) => table.Write(id, statistics);
    case Commit(id) => table.Commit(id);
    case Remove(id) =>
      RecordOf(table.records, id);
      AddressesStay(table.records, table.selection, table.records[id]);
      table.Remove(id);
    case Select(row, id) => table.Select(row, id);
    case Unselect(row) => table.Unselect(row);
    case ClearSelection =>
      table.ClearSelection();
      assert table.selection == map[];
    case ClearHierarchy =>
      table.ClearHierarchy();
      assert table.records == map[];
      StartHolds(table);
    }
    table.Known();
  }

  /**
    Over every run. With every write committed at its end: groups that were not told in another's place have their
    row, of what is filed under them; if calls are filed as they come out these are the rows of the one-shot query; and
    if calls went after those made from them, these count recursion once by the hierarchy as it is.
  */
  method Run(kind: Kind, commands: seq<Command>) returns (table: DerivedTable)
    requires AllAllowed(kind, Start(), commands)
    ensures table.kind == kind && Holds(table, Play(kind, Start(), commands))
    ensures table.dirty == {} ==> table.RowsAreFiled()
    ensures var s := Play(kind, Start(), commands);
      s.dirty == {} && s.inStep ==> table.Shows() && (s.whole ==> RowsAreFlat(table))
  {
    hide DerivedTable.Valid, DerivedTable.Coherent, DerivedTable.Shows, DerivedTable.RowsAreFiled, RowsAreFlat;
    hide Allowed, Step, Holds;
    table := new DerivedTable(kind);
    StartHolds(table);
    ghost var s := Start();
    assert commands[0..] == commands;
    for i := 0 to |commands|
      invariant Holds(table, s) && table.kind == kind && fresh(table.Repr())
      invariant AllAllowed(kind, s, commands[i..])
      invariant Play(kind, s, commands[i..]) == Play(kind, Start(), commands)
    {
      assert commands[i..][0] == commands[i] && commands[i..][1..] == commands[i + 1..];
      Do(table, s, commands[i]);
      s := Step(kind, s, commands[i]);
    }
    RowsShown(table, s);
  }

  lemma StartHolds(table: DerivedTable)
    requires table.Valid() && table.records == map[] && table.selection == map[] && table.dirty == {}
    requires table.paths == map[]
    ensures Holds(table, Start())
  {
    hide DerivedTable.Valid, DerivedTable.Coherent;
    table.ValidIsCoherent();
  }

  lemma RowsShown(table: DerivedTable, s: State)
    requires Holds(table, s)
    ensures table.dirty == {} ==> table.RowsAreFiled()
    ensures s.dirty == {} && s.inStep ==> table.Shows() && (s.whole ==> RowsAreFlat(table))
  {
    hide DerivedTable.Valid, DerivedTable.Coherent, Acyclic, PathsRight, DerivedTable.RowsAreFiled, RowsAreFlat;
    hide DerivedTable.Shows;
    table.Known();
    if s.dirty == {} {
      table.ResultIsFiled();
      if s.inStep {
        table.ResultIsQuery();
        if s.whole {
          ShownIsFlat(table);
        }
      }
    }
  }

  lemma ShownIsFlat(table: DerivedTable)
    requires table.Shows() && Acyclic(table.records) && PathsRight(table.records, table.paths)
    ensures RowsAreFlat(table)
  {
    hide Acyclic, PathsRight, QueryGroup, Query, Outermost, IsLongest, FiniteSums.Sum, TimesCalled, Exclusive;
    hide Inclusive, DerivedTable.Chosen;
    forall r | r in table.calls.view.rows {
      QueryIsFlat(table.kind, table.records, table.paths, table.Chosen(), table.calls.view.rows[r].key);
    }
  }
}
