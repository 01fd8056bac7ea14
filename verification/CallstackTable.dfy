/**
  The calls of all threads together: one row for each callstack, hanging off the
  row of the callstack without its innermost call.
*/
module CallstackTables {
  import opened Statistics
  import opened CallTables
  import opened FiniteSums
  import opened FlatSums
  import opened Folds
  import opened Indexes
  import opened GroupByViews

  /** The thread all rows are attributed to. */
  const CUMULATIVE: ThreadId := 0xFFFF_FFFF

  ghost function Callstacks(records: Records): map<Handle, Path>
    requires Hierarchical(records)
  {
    map id | id in records :: PathTo(records, id)
  }

  function Measured(records: Records): map<Handle, FunctionStatistics> {
    map id | id in records :: records[id].statistics
  }

  function SumFunctions(): Aggregator<FunctionStatistics, FunctionStatistics> {
    Aggregator(Zero(), (sum: FunctionStatistics, s: FunctionStatistics) => Add(sum, s))
  }

  lemma SumFunctionsCommutes()
    ensures LeftCommutative(SumFunctions().step)
  {
    var step := SumFunctions().step;
    forall v: FunctionStatistics, a: FunctionStatistics, b: FunctionStatistics
      ensures step(step(v, a), b) == step(step(v, b), a)
    {
      assert Add(Add(v, a), b) == Add(Add(v, b), a);
    }
  }

  /** The rows as a table grouped by the callstack recomputed from the rows themselves. */
  ghost function AsRows(rows: Records): map<Handle, Row<Path, FunctionStatistics>>
    requires Hierarchical(rows)
  {
    map r | r in rows :: Row(PathTo(rows, r), rows[r].statistics)
  }

  ghost predicate Cumulative(rows: Records) {
    Hierarchical(rows) && forall r :: r in rows ==> rows[r].threadId == CUMULATIVE
  }

  lemma RowsCreate(rows: Records, r: CallStatistics)
    requires Hierarchical(rows) && r.id !in rows && Hierarchical(rows[r.id := r])
    ensures AsRows(rows[r.id := r]) == AsRows(rows)[r.id := Row(PathTo(rows[r.id := r], r.id), r.statistics)]
    ensures Callstacks(rows[r.id := r]) == Callstacks(rows)[r.id := PathTo(rows[r.id := r], r.id)]
  {
    hide Hierarchical, PathTo;
    forall id | id in rows ensures PathTo(rows[r.id := r], id) == PathTo(rows, id) {
      PathStays(rows, rows[r.id := r], id);
    }
  }

  lemma RowsAssign(rows: Records, id: Id, s: FunctionStatistics)
    requires Hierarchical(rows) && id in rows
    ensures var after := rows[id := rows[id].(statistics := s)];
      && Hierarchical(after)
      && AsRows(after) == AsRows(rows)[id := Row(PathTo(rows, id), s)]
      && Callstacks(after) == Callstacks(rows)
      && PathTo(after, id) == PathTo(rows, id) && after.Keys == rows.Keys
      && (Cumulative(rows) ==> Cumulative(after))
  {
    hide Hierarchical, PathTo;
    var after := rows[id := rows[id].(statistics := s)];
    PathStep(rows, id);
    ModificationKeepsHierarchy(rows, rows[id].(statistics := s));
    forall i | i in rows ensures PathTo(after, i) == PathTo(rows, i) {
      PathStays(rows, after, i);
    }
  }

  class CallstackTable {
    /** The source records by callstack. */
    const uindex: Index<Path>
    /** The rows by callstack. */
    const aindex: Index<Path>
    var rows: Records
    var nextId: Id

    ghost function Repr(): set<object> {
      {this, uindex, aindex}
    }

    ghost predicate Valid()
      reads this, uindex, aindex
    {
      && uindex != aindex && uindex.Valid() && RowsValid()
    }

    ghost predicate RowsValid()
      reads this, aindex
    {
      && aindex.Valid() && Cumulative(rows) && nextId >= 1
      && aindex.Keys() == Callstacks(rows) && forall r :: r in rows ==> r < nextId
    }

    /** Exact for the committed records of the source, but for the callstacks of dirty ones. */
    ghost predicate IsExact(source: Records, dirty: set<Id>)
      reads this, uindex, aindex
    {
      && Valid() && Hierarchical(source)
      && uindex.Keys() == Callstacks(source)
      && Exact(uindex.Keys(), AsRows(rows), Measured(source), SumFunctions(), dirty)
    }

    constructor ()
      ensures IsExact(map[], {}) && rows == map[] && fresh(Repr())
    {
      hide Exact, Hierarchical, Callstacks, AsRows, Cumulative, Measured, Index.Valid, Index.Keys, SumFunctions;
      NothingGrouped();
      uindex := new Index();
      aindex := new Index();
      rows, nextId := map[], 1;
    }

    method OnCreated(source: Records, r: CallStatistics, ghost dirty: set<Id>) returns (row: Id)
      requires IsExact(source, dirty) && r.id !in source && Hierarchical(source[r.id := r])
      modifies Repr()
      ensures IsExact(source[r.id := r], dirty - {r.id})
      ensures row in rows && PathTo(rows, row) == PathTo(source[r.id := r], r.id)
    {
      hide Exact, Covers, Fold, LeftCommutative, Hierarchical, PathTo, Callstacks, AsRows, Measured;
      hide SumFunctions, Index.Valid, Index.Keys;
      var after := source[r.id := r];
      ghost var keys := uindex.Keys();
      RowsCreate(source, r);
      MeasuredKeys(source);
      MeasuredKeys(after);
      SumFunctionsCommutes();
      ExactCovers(keys, AsRows(rows), Measured(source), SumFunctions(), dirty);
      MeasuredSame(source, after);
      WriteKeepsExact(keys, AsRows(rows), Measured(source), Measured(after), SumFunctions(), dirty, {});
      assert dirty + {} == dirty;
      var key := Callstack(after, r.id);
      uindex.Created(r.id, key);
      row := UpdateRow(after, r.id, key, keys, dirty);
    }

    /** Commits what was written to a record. */
    method OnModified(source: Records, id: Id, ghost dirty: set<Id>) returns (row: Id)
      requires IsExact(source, dirty) && id in source
      modifies Repr()
      ensures IsExact(source, dirty - {id}) && row in rows && PathTo(rows, row) == PathTo(source, id)
    {
      hide Exact, Covers, Fold, LeftCommutative, Hierarchical, PathTo, AsRows, Cumulative, Measured;
      hide SumFunctions, Index.Valid, Index.Keys;
      ghost var keys := uindex.Keys();
      var key := Callstack(source, id);
      assert keys[id := key] == keys;
      row := UpdateRow(source, id, key, keys, dirty);
    }

    /** Writing to a source record leaves its callstack's row behind until the record is committed. */
    lemma Written(source: Records, id: Id, s: FunctionStatistics, dirty: set<Id>)
      requires IsExact(source, dirty) && id in source
      ensures IsExact(source[id := source[id].(statistics := s)], dirty + {id})
    {
      hide Exact, Covers, Fold, LeftCommutative, Hierarchical, PathTo, Callstacks, AsRows, Measured;
      hide SumFunctions, Index.Valid, Index.Keys;
      RowsAssign(source, id, s);
      var after := source[id := source[id].(statistics := s)];
      MeasuredKeys(source);
      MeasuredKeys(after);
      SumFunctionsCommutes();
      ExactCovers(uindex.Keys(), AsRows(rows), Measured(source), SumFunctions(), dirty);
      MeasuredSame(source, after);
      WriteKeepsExact(uindex.Keys(), AsRows(rows), Measured(source), Measured(after), SumFunctions(), dirty, {id});
    }

    /** Recomputes the row of a record's callstack, the record included. */
    method UpdateRow(source: Records, id: Id, key: Path, ghost keys: map<Handle, Path>,
        ghost dirty: set<Id>) returns (row: Id)
      requires uindex != aindex && uindex.Valid() && RowsValid()
      requires Hierarchical(source) && id in source && key == PathTo(source, id)
      requires Exact(keys, AsRows(rows), Measured(source), SumFunctions(), dirty)
      requires uindex.Keys() == keys[id := key] == Callstacks(source) && (id in keys ==> keys[id] == key)
      modifies this, aindex
      ensures IsExact(source, dirty - {id}) && row in rows && PathTo(rows, row) == key
    {
      hide Exact, Covers, Fold, LeftCommutative, Hierarchical, PathTo, Callstacks, AsRows, RowFor, Measured;
      hide SumFunctions, Index.Valid, Index.Keys;
      ghost var before := AsRows(rows);
      ExactCovers(keys, before, Measured(source), SumFunctions(), dirty);
      ParentGrouped(source, id, keys, before, dirty);
      var group := uindex.EqualRange(key);
      MeasuredKeys(source);
      row := Upsert(key);
      var sum := Aggregate(group, source);
      assert AsRows(rows)[row := Row(key, sum)] == before[row := Row(key, sum)];
      RowsAssign(rows, row, sum);
      rows := rows[row := rows[row].(statistics := sum)];
      CommitExact(keys, before, Measured(source), SumFunctions(), dirty, id, key, row);
    }

    method Aggregate(group: set<Id>, source: Records) returns (sum: FunctionStatistics)
      requires group <= source.Keys
      ensures group <= Measured(source).Keys
      ensures sum == Fold(group, Measured(source), SumFunctions().zero, SumFunctions().step)
    {
      sum := Zero();
      var rest := group;
      assert group - rest == {};
      SumFunctionsCommutes();
      while rest != {}
        invariant rest <= group && sum == Fold(group - rest, Measured(source), SumFunctions().zero, SumFunctions().step)
      {
        var id :| id in rest;
        FoldRemove(group - (rest - {id}), Measured(source), SumFunctions().zero, SumFunctions().step, id);
        assert group - (rest - {id}) - {id} == group - rest;
        sum := Add(sum, source[id].statistics);
        rest := rest - {id};
      }
      assert group - rest == group;
    }

    /** Finds the row of a callstack or creates one; the row of the shorter callstack is there to hang it off. */
    method Upsert(key: Path) returns (row: Id)
      requires RowsValid() && key != []
      requires |key| > 1 ==> exists r :: r in AsRows(rows) && AsRows(rows)[r].key == key[..|key| - 1]
      modifies this, aindex
      ensures RowsValid() && row in rows && RowFor(old(AsRows(rows)), row, key)
      ensures exists s :: AsRows(rows) == old(AsRows(rows))[row := Row(key, s)]
      ensures PathTo(rows, row) == key
    {
      hide Hierarchical, PathTo, Index.Valid, Index.Keys;
      var isNew;
      row, isNew := aindex.Locate(key, nextId);
      if isNew {
        row := Create(key);
      } else {
        assert AsRows(rows) == AsRows(rows)[row := Row(key, rows[row].statistics)];
      }
    }

    method Create(key: Path) returns (row: Id)
      requires RowsValid() && key != [] && Matching(aindex.Keys(), key) == {}
      requires |key| > 1 ==> exists r :: r in AsRows(rows) && AsRows(rows)[r].key == key[..|key| - 1]
      modifies this, aindex
      ensures RowsValid() && row in rows && RowFor(old(AsRows(rows)), row, key)
      ensures AsRows(rows) == old(AsRows(rows))[row := Row(key, Zero())] && PathTo(rows, row) == key
    {
      hide Hierarchical, PathTo, Index.Valid, Index.Keys;
      var parentId := 0;
      NoRow(rows);
      if |key| > 1 {
        var parent := aindex.Find(key[..|key| - 1]);
        assert parent.Some? by {
          var r :| r in AsRows(rows) && AsRows(rows)[r].key == key[..|key| - 1];
          assert r in Matching(aindex.Keys(), key[..|key| - 1]);
        }
        parentId := parent.value;
      }
      row := nextId;
      ghost var before := rows;
      var r := CallStatistics(row, CUMULATIVE, parentId, key[|key| - 1], Zero());
      forall s | s in before ensures PathTo(before, s) != key {
        assert s !in Matching(aindex.Keys(), key);
      }
      NewCallstack(before, r, key);
      RowsCreate(before, r);
      nextId := nextId + 1;
      rows := rows[row := r];
      aindex.Created(row, key);
    }
  }

  lemma NothingGrouped()
    ensures Hierarchical(map[]) && Callstacks(map[]) == map[] && AsRows(map[]) == map[] && Cumulative(map[])
    ensures Exact<FunctionStatistics, Path, FunctionStatistics>(map[], map[], Measured(map[]), SumFunctions(), {})
  {
  }

  method Callstack(records: Records, id: Id) returns (key: Path)
    requires Hierarchical(records) && id in records
    ensures key == PathTo(records, id)
    decreases id
  {
    var r := records[id];
    key := [];
    assert HangsOff(records, id);
    if r.parentId != 0 {
      key := Callstack(records, r.parentId);
    }
    key := key + [r.address];
  }

  lemma MeasuredSame(before: Records, after: Records)
    ensures forall id :: id in before && id in after && before[id].statistics == after[id].statistics ==>
      id in Measured(before) && id in Measured(after) && Measured(before)[id] == Measured(after)[id]
  {
  }

  lemma MeasuredKeys(source: Records)
    ensures Measured(source).Keys == source.Keys
    ensures Hierarchical(source) ==> Callstacks(source).Keys == source.Keys
  {
  }

  /** The call a record was made from is grouped already, so the row to hang a new row off is there. */
  lemma ParentGrouped(source: Records, id: Id, keys: map<Handle, Path>, rows: map<Handle, Row<Path,
      FunctionStatistics>>, dirty: set<Id>)
    requires Hierarchical(source) && id in source && Covers(keys, rows)
    requires keys[id := PathTo(source, id)] == Callstacks(source)
    ensures var key := PathTo(source, id);
      key != [] && (|key| > 1 ==> exists r :: r in rows && rows[r].key == key[..|key| - 1])
  {
    var key := PathTo(source, id);
    PathStep(source, id);
    var parent := source[id].parentId;
    assert key[..|key| - 1] == PathTo(source, parent);
    if |key| > 1 {
      assert parent in source && parent != id by {
        assert HangsOff(source, id);
      }
      assert parent in Callstacks(source);
      assert parent in keys && keys[parent] == key[..|key| - 1];
    }
  }

  lemma NoRow(rows: Records)
    requires Hierarchical(rows)
    ensures PathTo(rows, 0) == []
  {
  }

  lemma NewCallstack(rows: Records, r: CallStatistics, key: Path)
    requires Cumulative(rows) && r.id !in rows && r.id != 0 && key != []
    requires r.threadId == CUMULATIVE && r.address == key[|key| - 1]
    requires r.parentId == 0 || (r.parentId in rows && r.parentId < r.id)
    requires PathTo(rows, r.parentId) == key[..|key| - 1]
    requires forall id :: id in rows ==> PathTo(rows, id) != key
    ensures Cumulative(rows[r.id := r]) && PathTo(rows[r.id := r], r.id) == key
  {
    assert key == key[..|key| - 1] + [key[|key| - 1]];
    forall id | id in rows ensures KeyOf(rows[id]) != KeyOf(r) {
      PathStep(rows, id);
    }
    CreationKeepsHierarchy(rows, r);
    PathStep(rows[r.id := r], r.id);
    PathStays(rows, rows[r.id := r], r.parentId);
  }

  // ---- What the rows add up to ----

  lemma FoldStep(source: Records, group: set<Id>, id: Id)
    requires group <= source.Keys && id in group
    ensures Measured(source).Keys == source.Keys
    ensures Fold(group, Measured(source), Zero(), SumFunctions().step)
         == Add(Fold(group - {id}, Measured(source), Zero(), SumFunctions().step), source[id].statistics)
  {
    SumFunctionsCommutes();
    hide LeftCommutative, Fold;
    FoldRemove(group, Measured(source), Zero(), SumFunctions().step, id);
  }

  lemma SumsStep(source: Records, group: set<Id>, id: Id)
    requires group <= source.Keys && id in group
    ensures var s := source[id].statistics;
      && Sum(group, TimesCalled(source)) == Sum(group - {id}, TimesCalled(source)) + s.timesCalled
      && Sum(group, Inclusive(source)) == Sum(group - {id}, Inclusive(source)) + s.inclusiveTime
      && Sum(group, Exclusive(source)) == Sum(group - {id}, Exclusive(source)) + s.exclusiveTime
  {
    hide Sum;
    SumRemove(group, TimesCalled(source), id);
    SumRemove(group, Inclusive(source), id);
    SumRemove(group, Exclusive(source), id);
  }

  lemma NoSum(source: Records)
    ensures Fold({}, Measured(source), Zero(), SumFunctions().step) == Zero()
    ensures Sum<Id>({}, TimesCalled(source)) == Sum<Id>({}, Inclusive(source)) == Sum<Id>({}, Exclusive(source)) == 0
    ensures IsLongest(source, {}, 0)
  {
  }

  lemma {:induction false} FoldIsSum(source: Records, group: set<Id>)
    requires group <= source.Keys
    ensures Measured(source).Keys == source.Keys
    ensures var sum := Fold(group, Measured(source), Zero(), SumFunctions().step);
      && sum.timesCalled == Sum(group, TimesCalled(source))
      && sum.inclusiveTime == Sum(group, Inclusive(source))
      && sum.exclusiveTime == Sum(group, Exclusive(source))
      && IsLongest(source, group, sum.maxCallTime)
  {
    hide Fold, Sum, IsLongest, SumFunctions, TimesCalled, Inclusive, Exclusive, Max;
    if group == {} {
      NoSum(source);
    } else {
      var id :| id in group;
      FoldIsSum(source, group - {id});
      FoldStep(source, group, id);
      SumsStep(source, group, id);
      var before := Fold(group - {id}, Measured(source), Zero(), SumFunctions().step);
      LongestStep(source, group - {id}, id, before.maxCallTime);
      assert group - {id} + {id} == group;
    }
  }

  ghost function WithCallstack(source: Records, callstack: Path): set<Id>
    requires Hierarchical(source)
  {
    set id | id in source && PathTo(source, id) == callstack
  }

  lemma CallsOfRow(table: CallstackTable, source: Records, r: Id)
    requires table.IsExact(source, {}) && r in table.rows
    ensures Hierarchical(source) && Hierarchical(table.rows)
    ensures var calls := WithCallstack(source, PathTo(table.rows, r));
      calls != {} && calls == Matching(table.uindex.Keys(), PathTo(table.rows, r))
  {
    hide Fold, LeftCommutative, Hierarchical, PathTo, Index.Valid, Index.Keys;
    assert Matching(table.uindex.Keys(), AsRows(table.rows)[r].key) != {};
  }

  /** A row sums up the calls that have its callstack, and its longest call is the longest of theirs. */
  lemma RowIsItsCalls(table: CallstackTable, source: Records, r: Id)
    requires table.IsExact(source, {}) && r in table.rows
    ensures Hierarchical(source) && Hierarchical(table.rows)
    ensures var calls, s := WithCallstack(source, PathTo(table.rows, r)), table.rows[r].statistics;
      && calls != {} && calls <= source.Keys
      && s.timesCalled == Sum(calls, TimesCalled(source))
      && s.inclusiveTime == Sum(calls, Inclusive(source))
      && s.exclusiveTime == Sum(calls, Exclusive(source))
      && IsLongest(source, calls, s.maxCallTime)
  {
    hide *;
    CallsOfRow(table, source, r);
    RowValue(table, source, r);
    FoldIsSum(source, WithCallstack(source, PathTo(table.rows, r)));
  }

  /** The row a record is accounted at. */
  ghost function RowOf(table: CallstackTable, source: Records, id: Id): Id
    requires table.IsExact(source, {})
    reads table, table.uindex, table.aindex
  {
    if id !in source then 0 else
    assert id in Callstacks(source);
    var r :| r in AsRows(table.rows) && AsRows(table.rows)[r].key == PathTo(source, id);
    r
  }

  /** The row of a call hangs off the row of the call it was made from: regrouping keeps the shape of the tree. */
  lemma RegroupingKeepsShape(table: CallstackTable, source: Records, id: Id)
    requires table.IsExact(source, {}) && id in source
    ensures var r := RowOf(table, source, id);
      && r in table.rows && PathTo(table.rows, r) == PathTo(source, id)
      && table.rows[r].parentId == RowOf(table, source, source[id].parentId)
  {
    var rows, r, parent := table.rows, RowOf(table, source, id), source[id].parentId;
    PathStep(source, id);
    PathStep(rows, r);
    var p, q := PathTo(source, parent), PathTo(rows, rows[r].parentId);
    assert (p + [source[id].address])[..|p|] == p && (q + [rows[r].address])[..|q|] == q;
    assert HangsOff(source, id);
    assert p == q;
    var r' := RowOf(table, source, parent);
    if parent == 0 {
      assert rows[r].parentId == 0;
    } else {
      PathInjective(rows, rows[r].parentId, r');
    }
  }

  /** Calls and times are neither lost nor counted twice by regrouping. */
  lemma RegroupingConserves(table: CallstackTable, source: Records)
    requires table.IsExact(source, {})
    ensures Sum(table.rows.Keys, TimesCalled(table.rows)) == Sum(source.Keys, TimesCalled(source))
    ensures Sum(table.rows.Keys, Inclusive(table.rows)) == Sum(source.Keys, Inclusive(source))
    ensures Sum(table.rows.Keys, Exclusive(table.rows)) == Sum(source.Keys, Exclusive(source))
  {
    hide Exact, Covers, Fold, LeftCommutative, Sum, FiberSum, Inclusive, Exclusive, TimesCalled, Hierarchical, PathTo;
    hide Index.Valid, Index.Keys, CallstackTable.IsExact;
    var rows := table.rows;
    var fiber := map id | id in source :: RowOf(table, source, id);
    var rowOf: Id -> Id := id => if id in fiber then fiber[id] else 0;
    forall r | r in rows
      ensures FiberSum<Id, Id>(source.Keys, TimesCalled(source), rowOf)(r) == TimesCalled(rows)(r)
      ensures FiberSum<Id, Id>(source.Keys, Inclusive(source), rowOf)(r) == Inclusive(rows)(r)
      ensures FiberSum<Id, Id>(source.Keys, Exclusive(source), rowOf)(r) == Exclusive(rows)(r)
    {
      RowSums(table, source, r, rowOf);
    }
    SumFibers<Id, Id>(source.Keys, TimesCalled(source), rows.Keys, rowOf);
    SumFibers<Id, Id>(source.Keys, Inclusive(source), rows.Keys, rowOf);
    SumFibers<Id, Id>(source.Keys, Exclusive(source), rows.Keys, rowOf);
    SumAgree<Id>(rows.Keys, FiberSum<Id, Id>(source.Keys, TimesCalled(source), rowOf), TimesCalled(rows));
    SumAgree<Id>(rows.Keys, FiberSum<Id, Id>(source.Keys, Inclusive(source), rowOf), Inclusive(rows));
    SumAgree<Id>(rows.Keys, FiberSum<Id, Id>(source.Keys, Exclusive(source), rowOf), Exclusive(rows));
  }

  lemma RowSums(table: CallstackTable, source: Records, r: Id, rowOf: Id -> Id)
    requires table.IsExact(source, {}) && r in table.rows
    requires forall id :: id in source ==> rowOf(id) == RowOf(table, source, id)
    ensures FiberSum<Id, Id>(source.Keys, TimesCalled(source), rowOf)(r) == TimesCalled(table.rows)(r)
    ensures FiberSum<Id, Id>(source.Keys, Inclusive(source), rowOf)(r) == Inclusive(table.rows)(r)
    ensures FiberSum<Id, Id>(source.Keys, Exclusive(source), rowOf)(r) == Exclusive(table.rows)(r)
  {
    hide Exact, Covers, Fold, LeftCommutative, Sum, Inclusive, Exclusive, TimesCalled, Hierarchical, PathTo;
    hide Index.Valid, Index.Keys;
    var rows := table.rows;
    var group := Matching(table.uindex.Keys(), PathTo(rows, r));
    forall id | id in source ensures rowOf(id) == r <==> PathTo(source, id) == PathTo(rows, r) {
      if PathTo(source, id) == PathTo(rows, r) {
        PathInjective(rows, RowOf(table, source, id), r);
      }
    }
    assert Fiber(source.Keys, rowOf, r) == group;
    FoldIsSum(source, group);
    RowValue(table, source, r);
    RowMeasures(rows, r);
  }

  lemma RowValue(table: CallstackTable, source: Records, r: Id)
    requires table.IsExact(source, {}) && r in table.rows
    ensures var group := Matching(table.uindex.Keys(), PathTo(table.rows, r));
      group <= source.Keys && Measured(source).Keys == source.Keys
      && table.rows[r].statistics == Fold(group, Measured(source), Zero(), SumFunctions().step)
  {
    hide Fold, LeftCommutative, Hierarchical, PathTo, Index.Valid, Index.Keys;
    assert AsRows(table.rows)[r].value == table.rows[r].statistics;
    assert Matching(table.uindex.Keys(), AsRows(table.rows)[r].key) !! {};
  }

  lemma RowMeasures(rows: Records, r: Id)
    requires r in rows
    ensures TimesCalled(rows)(r) == rows[r].statistics.timesCalled
    ensures Inclusive(rows)(r) == rows[r].statistics.inclusiveTime
    ensures Exclusive(rows)(r) == rows[r].statistics.exclusiveTime
  {
  }
}
