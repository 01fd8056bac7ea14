/**
  A table that holds one aggregated row for each key found among the records of
  an underlying table, kept up to date by the underlying table's notifications.
*/
module GroupByViews {
  import opened Folds
  import opened Indexes

  datatype Row<K, V> = Row(key: K, value: V)

  /** What the aggregated table tells its own listeners. */
  datatype RowEvent =
    | RowCreated(row: Handle)
    | RowModified(row: Handle)
    | RowRemoved(row: Handle)
    /** A row was created and removed again without having been committed. */
    | RowDiscarded(row: Handle)

  /** How a group is aggregated: from an initial value, record by record. */
  datatype Aggregator<!T, !V> = Aggregator(zero: V, step: (V, T) -> V)

  ghost function Aggregated<T(!new), K, V(!new)>(
      keys: map<Handle, K>, values: map<Handle, T>, aggregator: Aggregator<T, V>, key: K): V
    requires keys.Keys <= values.Keys
  {
    Fold(Matching(keys, key), values, aggregator.zero, aggregator.step)
  }

  /** Exactly one row for each key there is. */
  ghost predicate Covers<K, V>(keys: map<Handle, K>, rows: map<Handle, Row<K, V>>) {
    && (forall r, s :: r in rows && s in rows && rows[r].key == rows[s].key ==> r == s)
    && (forall r :: r in rows ==> Matching(keys, rows[r].key) != {})
    && (forall h :: h in keys ==> exists r :: r in rows && rows[r].key == keys[h])
  }

  /** A record that is written but not committed leaves the row of its group undecided, and no other. */
  ghost predicate Exact<T(!new), K, V(!new)>(
      keys: map<Handle, K>, rows: map<Handle, Row<K, V>>, values: map<Handle, T>, aggregator: Aggregator<T, V>,
      dirty: set<Handle>)
  {
    && Covers(keys, rows) && keys.Keys <= values.Keys
    && forall r :: r in rows && Matching(keys, rows[r].key) !! dirty ==>
         rows[r].value == Aggregated(keys, values, aggregator, rows[r].key)
  }

  /** Writing to records makes them dirty; nothing else becomes wrong. */
  lemma WriteKeepsExact<T(!new), K, V(!new)>(
      keys: map<Handle, K>, rows: map<Handle, Row<K, V>>, values: map<Handle, T>, values': map<Handle, T>,
      aggregator: Aggregator<T, V>, dirty: set<Handle>, written: set<Handle>)
    requires Exact(keys, rows, values, aggregator, dirty) && LeftCommutative(aggregator.step)
    requires forall h :: h in keys ==> h in values' && (h in written || values'[h] == values[h])
    ensures Exact(keys, rows, values', aggregator, dirty + written)
  {
    forall r | r in rows && Matching(keys, rows[r].key) !! written
      ensures Aggregated(keys, values', aggregator, rows[r].key) == Aggregated(keys, values, aggregator, rows[r].key)
    {
      FoldAgree(Matching(keys, rows[r].key), values, values', aggregator.zero, aggregator.step);
    }
  }

  /** The row of a key is found, or there is none. */
  ghost predicate RowFor<K, V>(rows: map<Handle, Row<K, V>>, r: Handle, key: K) {
    if r in rows then rows[r].key == key else forall s :: s in rows ==> rows[s].key != key
  }

  lemma MatchingWithin<K>(keys: map<Handle, K>, key: K)
    ensures Matching(keys, key) <= keys.Keys
  {
  }

  /** Rows are there, and right, for the keys of some of the records. */
  ghost predicate PartlyExact<T(!new), K, V(!new)>(
      keys: map<Handle, K>, rows: map<Handle, Row<K, V>>, values: map<Handle, T>, aggregator: Aggregator<T, V>,
      done: set<Handle>)
  {
    && keys.Keys <= values.Keys
    && (forall r, s :: r in rows && s in rows && rows[r].key == rows[s].key ==> r == s)
    && (forall r :: r in rows ==> Matching(keys, rows[r].key) != {})
    && (forall h :: h in keys && h in done ==> exists r :: r in rows && rows[r].key == keys[h])
    && (forall r :: r in rows ==> rows[r].value == Aggregated(keys, values, aggregator, rows[r].key))
  }

  lemma NoRowsYet<T(!new), K, V(!new)>(keys: map<Handle, K>, values: map<Handle, T>, aggregator: Aggregator<T, V>)
    requires keys.Keys <= values.Keys
    ensures PartlyExact<T, K, V>(keys, map[], values, aggregator, keys.Keys - keys.Keys)
  {
  }

  lemma AllRows<T(!new), K, V(!new)>(
      keys: map<Handle, K>, rows: map<Handle, Row<K, V>>, values: map<Handle, T>, aggregator: Aggregator<T, V>)
    requires PartlyExact(keys, rows, values, aggregator, keys.Keys - {}) && keys.Keys == values.Keys
    ensures Exact(keys, rows, values, aggregator, {})
  {
    hide Fold;
  }

  lemma OneMoreRow<T(!new), K, V(!new)>(
      keys: map<Handle, K>, rows: map<Handle, Row<K, V>>, values: map<Handle, T>, aggregator: Aggregator<T, V>,
      done: set<Handle>, h: Handle, row: Handle)
    requires PartlyExact(keys, rows, values, aggregator, done) && h in keys && RowFor(rows, row, keys[h])
    ensures PartlyExact(keys, rows[row := Row(keys[h], Aggregated(keys, values, aggregator, keys[h]))], values,
      aggregator,
                        done + {h})
  {
    hide Fold;
    assert h in Matching(keys, keys[h]);
    var after := rows[row := Row(keys[h], Aggregated(keys, values, aggregator, keys[h]))];
    forall g | g in keys && g in done + {h} ensures exists r :: r in after && after[r].key == keys[g] {
      if g == h {
        assert after[row].key == keys[g];
      } else {
        var r :| r in rows && rows[r].key == keys[g];
        assert after[r].key == keys[g];
      }
    }
  }

  /** A commit followed by an update of the one row concerned. */
  lemma CommitExact<T(!new), K, V(!new)>(
      keys: map<Handle, K>, rows: map<Handle, Row<K, V>>, values: map<Handle, T>, aggregator: Aggregator<T, V>,
      dirty: set<Handle>,
      h: Handle, key: K, r: Handle)
    requires Exact(keys, rows, values, aggregator, dirty) && h in values && RowFor(rows, r, key)
    requires h in keys ==> keys[h] == key
    ensures var keys' := keys[h := key];
      Exact(keys', rows[r := Row(key, Aggregated(keys', values, aggregator, key))], values, aggregator, dirty - {h})
  {
    hide Fold;
    var keys' := keys[h := key];
    var rows' := rows[r := Row(key, Aggregated(keys', values, aggregator, key))];
    forall s | s in rows && s != r ensures Matching(keys', rows[s].key) == Matching(keys, rows[s].key) {
      assert rows[s].key != key;
    }
    assert h in Matching(keys', key);
    forall g | g in keys' ensures exists s :: s in rows' && rows'[s].key == keys'[g] {
      if keys'[g] == key {
        assert rows'[r].key == key;
      } else {
        var s :| s in rows && rows[s].key == keys[g];
        assert s != r && rows'[s].key == keys'[g];
      }
    }
    forall s | s in rows' && s != r && Matching(keys', rows'[s].key) !! dirty - {h}
      ensures rows'[s].value == Aggregated(keys', values, aggregator, rows'[s].key)
    {
      assert h !in Matching(keys', rows'[s].key);
      assert Matching(keys, rows[s].key) !! dirty;
    }
  }

  lemma RowExists<T(!new), K, V(!new)>(
      keys: map<Handle, K>, rows: map<Handle, Row<K, V>>, values: map<Handle, T>, aggregator: Aggregator<T, V>,
      dirty: set<Handle>,
      h: Handle)
    requires Exact(keys, rows, values, aggregator, dirty) && h in keys
    ensures Covers(keys, rows) && keys.Keys <= values.Keys && exists r :: r in rows && rows[r].key == keys[h]
  {
  }

  lemma ExactCovers<T(!new), K, V(!new)>(
      keys: map<Handle, K>, rows: map<Handle, Row<K, V>>, values: map<Handle, T>, aggregator: Aggregator<T, V>,
      dirty: set<Handle>)
    requires Exact(keys, rows, values, aggregator, dirty)
    ensures Covers(keys, rows) && keys.Keys <= values.Keys
  {
  }

  ghost function RowsWithout<T(!new), K, V(!new)>(
      keys: map<Handle, K>, rows: map<Handle, Row<K, V>>, values: map<Handle, T>, aggregator: Aggregator<T, V>,
      key: K, r: Handle): map<Handle, Row<K, V>>
    requires keys.Keys <= values.Keys
  {
    if Matching(keys, key) == {} then rows - {r} else rows[r := Row(key, Aggregated(keys, values, aggregator, key))]
  }

  lemma RemovalLeavesOthers<K, V>(keys: map<Handle, K>, rows: map<Handle, Row<K, V>>, h: Handle, r: Handle)
    requires Covers(keys, rows) && h in keys && r in rows && rows[r].key == keys[h]
    ensures forall s :: s in rows && s != r ==>
      Matching(keys - {h}, rows[s].key) == Matching(keys, rows[s].key) && h !in Matching(keys, rows[s].key)
  {
    forall s | s in rows && s != r
      ensures Matching(keys - {h}, rows[s].key) == Matching(keys, rows[s].key) && h !in Matching(keys, rows[s].key)
    {
      assert rows[s].key != keys[h];
    }
  }

  lemma RemovalCovers<T(!new), K, V(!new)>(
      keys: map<Handle, K>, rows: map<Handle, Row<K, V>>, values: map<Handle, T>, aggregator: Aggregator<T, V>,
      h: Handle, r: Handle)
    requires Covers(keys, rows) && keys.Keys <= values.Keys && h in keys && r in rows && rows[r].key == keys[h]
    ensures Covers(keys - {h}, RowsWithout(keys - {h}, rows, values, aggregator, keys[h], r))
  {
    hide Aggregated;
    var key, keys' := keys[h], keys - {h};
    var rows' := RowsWithout(keys', rows, values, aggregator, key, r);
    RemovalLeavesOthers(keys, rows, h, r);
    forall g | g in keys' ensures exists s :: s in rows' && rows'[s].key == keys'[g] {
      var s :| s in rows && rows[s].key == keys[g];
      if s == r {
        assert g in Matching(keys', key);
      }
      assert s in rows' && rows'[s].key == keys'[g];
    }
  }

  /** A removal followed by an update, or the removal, of the one row concerned. */
  lemma RemovalExact<T(!new), K, V(!new)>(
      keys: map<Handle, K>, rows: map<Handle, Row<K, V>>, values: map<Handle, T>, aggregator: Aggregator<T, V>,
      dirty: set<Handle>,
      h: Handle, r: Handle)
    requires Exact(keys, rows, values, aggregator, dirty) && h in keys && r in rows && rows[r].key == keys[h]
    ensures var keys' := keys - {h};
      Exact(keys', if Matching(keys', keys[h]) == {} then rows - {r}
                   else rows[r := Row(keys[h], Aggregated(keys', values, aggregator, keys[h]))],
            values, aggregator, dirty - {h})
  {
    hide Fold, Covers;
    var key, keys' := keys[h], keys - {h};
    var rows' := RowsWithout(keys', rows, values, aggregator, key, r);
    RemovalLeavesOthers(keys, rows, h, r);
    RemovalCovers(keys, rows, values, aggregator, h, r);
    forall s | s in rows' && s != r && Matching(keys', rows'[s].key) !! dirty - {h}
      ensures rows'[s].value == Aggregated(keys', values, aggregator, rows'[s].key)
    {
      assert Matching(keys, rows[s].key) !! dirty;
    }
  }

  ghost predicate OneRowPerKey<K, V>(rows: map<Handle, Row<K, V>>) {
    forall r, s :: r in rows && s in rows && rows[r].key == rows[s].key ==> r == s
  }

  /** The row of the key is what it should be, or gone. */
  ghost predicate Refreshed<T(!new), K, V(!new)>(
      keys: map<Handle, K>, rows: map<Handle, Row<K, V>>, values: map<Handle, T>, aggregator: Aggregator<T, V>, key: K,
      event: RowEvent)
  {
    var group := Matching(keys, key);
    if group == {} then event.RowRemoved? || event.RowDiscarded? else
    && (event.RowModified? || event.RowCreated?) && event.row in rows
    && group <= values.Keys && rows[event.row] == Row(key, Fold(group, values, aggregator.zero, aggregator.step))
  }

  /** The row of the key is computed from its group, whatever there is in it. */
  ghost predicate Recomputed<T(!new), K, V(!new)>(
      keys: map<Handle, K>, rows: map<Handle, Row<K, V>>, values: map<Handle, T>, aggregator: Aggregator<T, V>, key: K,
      event: RowEvent)
  {
    && (event.RowModified? || event.RowCreated?) && event.row in rows
    && Matching(keys, key) <= values.Keys
    && rows[event.row] == Row(key, Fold(Matching(keys, key), values, aggregator.zero, aggregator.step))
  }

  lemma OneRowEach<K, V>(keys: map<Handle, K>, rows: map<Handle, Row<K, V>>)
    requires Covers(keys, rows)
    ensures OneRowPerKey(rows)
  {
  }

  lemma RecomputedExact<T(!new), K, V(!new)>(
      keys: map<Handle, K>, rows: map<Handle, Row<K, V>>, rows': map<Handle, Row<K, V>>, values: map<Handle, T>,
      aggregator: Aggregator<T, V>, dirty: set<Handle>, h: Handle, key: K, event: RowEvent)
    requires Exact(keys, rows, values, aggregator, dirty) && h in values && (h in keys ==> keys[h] == key)
    requires RowsAfter(rows, rows', key, event)
    requires Recomputed(keys[h := key], rows', values, aggregator, key, event)
    ensures Exact(keys[h := key], rows', values, aggregator, dirty - {h}) && Covers(keys[h := key], rows')
  {
    hide Fold;
    CommitExact(keys, rows, values, aggregator, dirty, h, key, event.row);
  }

  lemma RefreshedExact<T(!new), K, V(!new)>(
      keys: map<Handle, K>, rows: map<Handle, Row<K, V>>, rows': map<Handle, Row<K, V>>, values: map<Handle, T>,
      aggregator: Aggregator<T, V>, dirty: set<Handle>, h: Handle, key: K, event: RowEvent)
    requires Exact(keys, rows, values, aggregator, dirty) && (h in keys ==> keys[h] == key)
    requires RowsAfter(rows, rows', key, event) && Refreshed(keys - {h}, rows', values, aggregator, key, event)
    ensures Exact(keys - {h}, rows', values, aggregator, dirty - {h})
  {
    hide Fold;
    if h in keys {
      RowExists(keys, rows, values, aggregator, dirty, h);
      RemovalExact(keys, rows, values, aggregator, dirty, h, event.row);
    } else {
      assert keys - {h} == keys;
      NothingRemoved(keys, rows, rows', values, aggregator, dirty, key, event);
      NotIndexed(keys, rows', values, aggregator, dirty, h);
    }
  }

  lemma NothingRemoved<T(!new), K, V(!new)>(
      keys: map<Handle, K>, rows: map<Handle, Row<K, V>>, rows': map<Handle, Row<K, V>>, values: map<Handle, T>,
      aggregator: Aggregator<T, V>, dirty: set<Handle>, key: K, event: RowEvent)
    requires Exact(keys, rows, values, aggregator, dirty)
    requires RowsAfter(rows, rows', key, event) && Refreshed(keys, rows', values, aggregator, key, event)
    ensures Exact(keys, rows', values, aggregator, dirty)
  {
    hide Fold;
    if h :| h in Matching(keys, key) {
      assert h in keys && keys[h] == key;
      assert keys[h := key] == keys;
      RowExists(keys, rows, values, aggregator, dirty, h);
      CommitExact(keys, rows, values, aggregator, dirty, h, key, event.row);
      StillDirty(keys, rows', values, aggregator, dirty, h);
    }
  }

  lemma StillDirty<T(!new), K, V(!new)>(
      keys: map<Handle, K>, rows: map<Handle, Row<K, V>>, values: map<Handle, T>, aggregator: Aggregator<T, V>,
      dirty: set<Handle>, h: Handle)
    requires Exact(keys, rows, values, aggregator, dirty - {h})
    ensures Exact(keys, rows, values, aggregator, dirty)
  {
    hide Fold;
  }

  lemma NotIndexed<T(!new), K, V(!new)>(
      keys: map<Handle, K>, rows: map<Handle, Row<K, V>>, values: map<Handle, T>, aggregator: Aggregator<T, V>,
      dirty: set<Handle>, h: Handle)
    requires Exact(keys, rows, values, aggregator, dirty) && h !in keys
    ensures Exact(keys, rows, values, aggregator, dirty - {h})
  {
    hide Fold;
    forall r | r in rows && Matching(keys, rows[r].key) !! dirty - {h} ensures Matching(keys, rows[r].key) !! dirty {
    }
  }

  ghost predicate RowRight<T(!new), K, V(!new)>(
      keys: map<Handle, K>, rows: map<Handle, Row<K, V>>, values: map<Handle, T>, aggregator: Aggregator<T, V>, key: K)
  {
    var group := Matching(keys, key);
    && group <= values.Keys
    && if group == {} then forall r :: r in rows ==> rows[r].key != key
       else exists r :: r in rows && rows[r] == Row(key, Fold(group, values, aggregator.zero, aggregator.step))
  }

  lemma ExactRowsRight<T(!new), K, V(!new)>(
      keys: map<Handle, K>, rows: map<Handle, Row<K, V>>, values: map<Handle, T>, aggregator: Aggregator<T, V>, key: K)
    requires Exact(keys, rows, values, aggregator, {})
    ensures RowRight(keys, rows, values, aggregator, key)
  {
    hide Fold;
    MatchingWithin(keys, key);
    if g :| g in Matching(keys, key) {
      RowExists(keys, rows, values, aggregator, {}, g);
    }
  }

  /** Refreshing a row that was right changes nothing. */
  lemma RefreshedRight<T(!new), K, V(!new)>(
      keys: map<Handle, K>, rows: map<Handle, Row<K, V>>, rows': map<Handle, Row<K, V>>, values: map<Handle, T>,
      aggregator: Aggregator<T, V>, key: K, event: RowEvent)
    requires RowRight(keys, rows, values, aggregator, key) && OneRowPerKey(rows)
    requires RowsAfter(rows, rows', key, event) && Refreshed(keys, rows', values, aggregator, key, event)
    ensures rows' == rows
  {
    hide Fold;
  }

  /** What happens in other groups does not matter. */
  lemma RowStaysRight<T(!new), K, V(!new)>(
      keys: map<Handle, K>, rows: map<Handle, Row<K, V>>, values: map<Handle, T>, values': map<Handle, T>,
      aggregator: Aggregator<T, V>, h: Handle, key: K)
    requires RowRight(keys, rows, values, aggregator, key) && LeftCommutative(aggregator.step)
    requires h in keys ==> keys[h] != key
    requires forall g :: g in values && g != h ==> g in values' && values'[g] == values[g]
    ensures RowRight(keys - {h}, rows, values', aggregator, key)
  {
    assert Matching(keys - {h}, key) == Matching(keys, key);
    FoldAgree(Matching(keys, key), values, values', aggregator.zero, aggregator.step);
  }

  /**
    When the key of a removed record comes out differently from what it was indexed by, its row is left alone. That
    is right exactly when others are left in the group, and their aggregate happens to be what it was with the record.
  */
  lemma StaleRow<T(!new), K, V(!new)>(
      keys: map<Handle, K>, rows: map<Handle, Row<K, V>>, values: map<Handle, T>, aggregator: Aggregator<T, V>,
      h: Handle)
    requires Exact(keys, rows, values, aggregator, {}) && h in keys
    ensures Exact(keys - {h}, rows, values, aggregator, {}) <==>
      && Matching(keys - {h}, keys[h]) != {}
      && Aggregated(keys - {h}, values, aggregator, keys[h]) == Aggregated(keys, values, aggregator, keys[h])
  {
    hide Fold;
    RowExists(keys, rows, values, aggregator, {}, h);
    var r :| r in rows && rows[r].key == keys[h];
    RemovalLeavesOthers(keys, rows, h, r);
    if Matching(keys - {h}, keys[h]) != {} {
      forall g | g in keys - {h} ensures exists s :: s in rows && rows[s].key == (keys - {h})[g] {
        var s :| s in rows && rows[s].key == keys[g];
      }
      assert Covers(keys - {h}, rows);
    }
  }

  class GroupBy<T(!new), K(==, !new), V(!new)> {
    const aggregator: Aggregator<T, V>
    /** The underlying records by key. */
    const uindex: Index<K>
    /** The aggregated rows by key. */
    const aindex: Index<K>
    var rows: map<Handle, Row<K, V>>
    var nextRow: Handle

    ghost function Repr(): set<object> {
      {this, uindex, aindex}
    }

    ghost predicate Valid()
      reads this, uindex, aindex
    {
      && uindex != aindex && uindex.Valid() && aindex.Valid()
      && LeftCommutative(aggregator.step)
      && Covers(uindex.Keys(), rows)
      && RowsIndexed()
    }

    /** The rows are in order by themselves, whatever they have to do with the underlying records. */
    ghost predicate Sound()
      reads this, uindex, aindex
    {
      && uindex != aindex && uindex.Valid() && aindex.Valid()
      && LeftCommutative(aggregator.step)
      && RowsIndexed() && OneRowPerKey(rows)
    }

    lemma ValidIsSound()
      requires Valid()
      ensures Sound()
    {
    }

    lemma Parts()
      requires Valid()
      ensures uindex != aindex && uindex.Valid() && aindex.Valid() && RowsIndexed()
      ensures LeftCommutative(aggregator.step) && Covers(uindex.Keys(), rows)
    {
    }

    ghost predicate RowsIndexed()
      requires aindex.Valid()
      reads this, aindex
    {
      && aindex.Keys().Keys == rows.Keys
      && forall r :: r in rows ==> r < nextRow && aindex.Keys()[r] == rows[r].key
    }

    ghost predicate IsExact(values: map<Handle, T>, dirty: set<Handle>)
      reads this, uindex, aindex
    {
      Valid() && Exact(uindex.Keys(), rows, values, aggregator, dirty)
    }

    constructor (aggregator: Aggregator<T, V>)
      requires LeftCommutative(aggregator.step)
      ensures Valid() && rows == map[] && uindex.Keys() == map[] && IsExact(map[], {})
      ensures this.aggregator == aggregator && fresh(Repr())
    {
      this.aggregator := aggregator;
      uindex := new Index();
      aindex := new Index();
      rows, nextRow := map[], 0;
    }

    /** A view made for a table that has records already: the row of each record is computed from its whole group. */
    constructor Over(aggregator: Aggregator<T, V>, keys: map<Handle, K>, values: map<Handle, T>)
      requires LeftCommutative(aggregator.step) && keys.Keys == values.Keys
      ensures Valid() && uindex.Keys() == keys && IsExact(values, {})
      ensures this.aggregator == aggregator && fresh(Repr())
    {
      this.aggregator := aggregator;
      uindex := new Index.Over(keys);
      aindex := new Index();
      rows, nextRow := map[], 0;
      new;
      Populate(values);
    }

    method Populate(values: map<Handle, T>)
      requires uindex != aindex && uindex.Valid() && aindex.Valid() && rows == map[] && aindex.Keys() == map[]
      requires uindex.Keys().Keys == values.Keys && LeftCommutative(aggregator.step)
      modifies this, aindex
      ensures IsExact(values, {})
    {
      hide Fold, PartlyExact, LeftCommutative, Matching, Index.Valid, Index.Keys;
      NoRowsYet(uindex.Keys(), values, aggregator);
      var rest := values.Keys;
      while rest != {}
        invariant aindex.Valid() && RowsIndexed() && rest <= values.Keys
        invariant PartlyExact(uindex.Keys(), rows, values, aggregator, values.Keys - rest)
      {
        var h :| h in rest;
        FillRow(h, values, values.Keys - rest);
        assert values.Keys - (rest - {h}) == values.Keys - rest + {h};
        rest := rest - {h};
      }
      AllRows(uindex.Keys(), rows, values, aggregator);
      ExactCovers(uindex.Keys(), rows, values, aggregator, {});
    }

    method FillRow(h: Handle, values: map<Handle, T>, ghost done: set<Handle>)
      requires uindex != aindex && uindex.Valid() && aindex.Valid() && RowsIndexed() && LeftCommutative(aggregator.step)
      requires uindex.Keys().Keys == values.Keys && h in values
      requires PartlyExact(uindex.Keys(), rows, values, aggregator, done)
      modifies this, aindex
      ensures aindex.Valid() && RowsIndexed() && PartlyExact(uindex.Keys(), rows, values, aggregator, done + {h})
    {
      hide Fold, PartlyExact, LeftCommutative, Matching, Index.Valid, Index.Keys;
      ghost var keys, before := uindex.Keys(), rows;
      var key := uindex.KeyOf(h);
      MatchingWithin(keys, key);
      var group := uindex.EqualRange(key);
      var value := Aggregate(group, values);
      var row, _ := Upsert(key, value);
      OneMoreRow(keys, before, values, aggregator, done, h, row);
    }

    method Aggregate(group: set<Handle>, values: map<Handle, T>) returns (value: V)
      requires group <= values.Keys && LeftCommutative(aggregator.step)
      ensures value == Fold(group, values, aggregator.zero, aggregator.step)
    {
      value := aggregator.zero;
      var rest := group;
      assert group - rest == {};
      while rest != {}
        invariant rest <= group && value == Fold(group - rest, values, aggregator.zero, aggregator.step)
      {
        var h :| h in rest;
        FoldRemove(group - (rest - {h}), values, aggregator.zero, aggregator.step, h);
        assert group - (rest - {h}) - {h} == group - rest;
        value := aggregator.step(value, values[h]);
        rest := rest - {h};
      }
      assert group - rest == group;
    }

    /** Finds the row of a key or creates one. */
    method Upsert(key: K, value: V) returns (row: Handle, created: bool)
      requires aindex.Valid() && RowsIndexed()
      modifies this, aindex
      ensures aindex.Valid() && RowsIndexed() && RowFor(old(rows), row, key)
      ensures created == (row !in old(rows)) && rows == old(rows)[row := Row(key, value)]
      ensures row < nextRow && old(nextRow) <= nextRow
    {
      row, created := aindex.Locate(key, nextRow);
      if created {
        aindex.Created(row, key);
        nextRow := nextRow + 1;
      }
      rows := rows[row := Row(key, value)];
    }

    /** The underlying table has a new record: its index learns of it first, then the row is made or updated. */
    method OnCreated(h: Handle, key: K, values: map<Handle, T>, ghost dirty: set<Handle>) returns (event: RowEvent)
      requires Sound() && h !in uindex.Keys() && h in values && uindex.Keys().Keys <= values.Keys
      modifies Repr()
      ensures Sound() && uindex.Keys() == old(uindex.Keys())[h := key] && old(nextRow) <= nextRow
      ensures RowsAfter(old(rows), rows, key, event)
      ensures Recomputed(uindex.Keys(), rows, values, aggregator, key, event)
      ensures event.RowModified? || event.RowCreated?
      ensures old(IsExact(values, dirty)) ==> IsExact(values, dirty - {h})
    {
      hide Exact, Covers, Fold, LeftCommutative, Matching, Index.Valid, Index.Keys, Recomputed, RowsAfter;
      ghost var keys, before := uindex.Keys(), rows;
      uindex.Created(h, key);
      MatchingWithin(uindex.Keys(), key);
      event := Recompute(key, values);
      if Exact(keys, before, values, aggregator, dirty) {
        RecomputedExact(keys, before, rows, values, aggregator, dirty, h, key, event);
      }
    }

    /**
      A record is committed anew. With the key the record was indexed by, the view is exact; a key that comes out
      differently by now leaves the row the record is in alone, and recomputes the other one, or makes it.
    */
    method OnModified(h: Handle, key: K, values: map<Handle, T>, ghost dirty: set<Handle>) returns (event: RowEvent)
      requires Sound() && h in uindex.Keys() && uindex.Keys().Keys <= values.Keys
      modifies this, aindex
      ensures Sound() && old(nextRow) <= nextRow
      ensures RowsAfter(old(rows), rows, key, event)
      ensures Recomputed(uindex.Keys(), rows, values, aggregator, key, event)
      ensures event.RowModified? || event.RowCreated?
      ensures old(IsExact(values, dirty) && uindex.Keys()[h] == key) ==> IsExact(values, dirty - {h})
    {
      hide Exact, Covers, Fold, LeftCommutative, Matching, Index.Valid, Index.Keys, Recomputed, RowsAfter;
      ghost var keys, before := uindex.Keys(), rows;
      MatchingWithin(keys, key);
      event := Recompute(key, values);
      if Exact(keys, before, values, aggregator, dirty) && keys[h] == key {
        assert keys[h := key] == keys;
        RecomputedExact(keys, before, rows, values, aggregator, dirty, h, key, event);
      }
    }

    /** The row of a key is found, or made, and computed from its whole group, be it empty. */
    method Recompute(key: K, values: map<Handle, T>) returns (event: RowEvent)
      requires Sound() && Matching(uindex.Keys(), key) <= values.Keys
      modifies this, aindex
      ensures Sound() && old(nextRow) <= nextRow
      ensures RowsAfter(old(rows), rows, key, event)
      ensures Recomputed(uindex.Keys(), rows, values, aggregator, key, event)
      ensures event.RowModified? || event.RowCreated?
    {
      hide Fold, LeftCommutative, Index.Valid, Index.Keys;
      var group := uindex.EqualRange(key);
      var value := Aggregate(group, values);
      var row, created := Upsert(key, value);
      event := if created then RowCreated(row) else RowModified(row);
    }

    method UpdateRow(h: Handle, key: K, values: map<Handle, T>, ghost dirty: set<Handle>, ghost keys: map<Handle, K>)
        returns (event: RowEvent)
      requires uindex != aindex && uindex.Valid() && aindex.Valid() && LeftCommutative(aggregator.step) && RowsIndexed()
      requires Exact(keys, rows, values, aggregator, dirty) && h in values && (h in keys ==> keys[h] == key)
      requires uindex.Keys() == keys[h := key]
      modifies this, aindex
      ensures IsExact(values, dirty - {h})
      ensures RowsAfter(old(rows), rows, key, event) && !event.RowRemoved? && old(nextRow) <= nextRow
      ensures h in keys ==> event.RowModified?
    {
      hide Fold, LeftCommutative, Matching, Index.Valid, Index.Keys, Exact, Covers, Recomputed;
      MatchingWithin(uindex.Keys(), key);
      ghost var before := rows;
      ExactCovers(keys, before, values, aggregator, dirty);
      OneRowEach(keys, before);
      event := Recompute(key, values);
      RecomputedExact(keys, before, rows, values, aggregator, dirty, h, key, event);
      if h in keys {
        RowExists(keys, before, values, aggregator, dirty, h);
      }
    }

    /**
      What is done on any removal, once the index has forgotten the record: the row of the key is found, or created
      for the time being, and removed or aggregated anew.
    */
    method Refresh(key: K, values: map<Handle, T>) returns (event: RowEvent)
      requires Sound() && Matching(uindex.Keys(), key) <= values.Keys
      modifies this, aindex
      ensures Sound() && old(nextRow) <= nextRow
      ensures RowsAfter(old(rows), rows, key, event)
      ensures Refreshed(uindex.Keys(), rows, values, aggregator, key, event)
    {
      hide Fold, LeftCommutative, Index.Valid, Index.Keys;
      var group := uindex.EqualRange(key);
      if group == {} {
        event := DropRow(key);
      } else {
        event := Recompute(key, values);
      }
    }

    /**
      The index forgets the record first. With the key the record was indexed by, the view stays exact; a key that
      comes out differently by now leaves the row the record was in alone.
    */
    method OnRemoved(h: Handle, key: K, values: map<Handle, T>, ghost dirty: set<Handle>) returns (event: RowEvent)
      requires Sound() && uindex.Keys().Keys <= values.Keys
      modifies Repr()
      ensures Sound() && uindex.Keys() == old(uindex.Keys()) - {h}
      ensures RowsAfter(old(rows), rows, key, event) && old(nextRow) <= nextRow
      ensures old(IsExact(values, dirty) && (h in uindex.Keys() ==> uindex.Keys()[h] == key)) ==>
        IsExact(values, dirty - {h})
      ensures old(IsExact(values, {}) && h in uindex.Keys() && uindex.Keys()[h] != key) ==> rows == old(rows)
    {
      hide Exact, Covers, Fold, LeftCommutative, Matching, Index.Valid, Index.Keys, Refreshed, RowsAfter, RowRight;
      ghost var keys, before := uindex.Keys(), rows;
      uindex.Removed(h);
      MatchingWithin(uindex.Keys(), key);
      event := Refresh(key, values);
      if Exact(keys, before, values, aggregator, dirty) && (h in keys ==> keys[h] == key) {
        RefreshedExact(keys, before, rows, values, aggregator, dirty, h, key, event);
        ExactCovers(uindex.Keys(), rows, values, aggregator, dirty - {h});
      }
      if Exact(keys, before, values, aggregator, {}) && h in keys && keys[h] != key {
        ExactRowsRight(keys, before, values, aggregator, key);
        RowStaysRight(keys, before, values, values, aggregator, h, key);
        RefreshedRight(uindex.Keys(), before, rows, values, aggregator, key, event);
      }
    }

    method DropRow(key: K) returns (event: RowEvent)
      requires aindex.Valid() && RowsIndexed() && OneRowPerKey(rows)
      modifies this, aindex
      ensures aindex.Valid() && RowsIndexed() && OneRowPerKey(rows) && old(nextRow) <= nextRow
      ensures RowsAfter(old(rows), rows, key, event) && (event.RowRemoved? || event.RowDiscarded?)
    {
      var row, created := aindex.Locate(key, nextRow);
      if created {
        event := RowDiscarded(row);
        nextRow := nextRow + 1;
      } else {
        aindex.Removed(row);
        rows := rows - {row};
        event := RowRemoved(row);
      }
    }

    /** The underlying table was cleared: so is the aggregate, and then the indexes. */
    method OnCleared()
      requires Sound()
      modifies Repr()
      ensures Valid() && uindex.Keys() == map[] && rows == map[] && nextRow == old(nextRow)
    {
      ClearRows();
      uindex.Cleared();
    }

    method ClearRows()
      modifies this`rows, aindex
      ensures aindex.Valid() && aindex.Keys() == map[] && rows == map[]
    {
      rows := map[];
      aindex.Cleared();
    }
  }

  /** A change of the aggregated table concerns a single row. */
  ghost predicate RowsAfter<K, V>(before: map<Handle, Row<K, V>>, after: map<Handle, Row<K, V>>, key: K,
      event: RowEvent) {
    match event
    case RowCreated(r) =>
      && r !in before && (forall s :: s in before ==> before[s].key != key)
      && r in after && after[r].key == key && after == before[r := after[r]]
    case RowModified(r) =>
      r in before && before[r].key == key && r in after && after[r].key == key && after == before[r := after[r]]
    case RowRemoved(r) => r in before && before[r].key == key && after == before - {r}
    case RowDiscarded(r) => r !in before && after == before && forall s :: s in before ==> before[s].key != key
  }
}
