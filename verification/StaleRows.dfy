/**
  Rows of an aggregated view whose keys may come out differently by and by: a
  group that was told by another key than the one it is filed under has a row
  that is left behind. All other rows are right.
*/
module StaleRows {
  import opened Folds
  import opened Indexes
  import opened GroupByViews

  /** There is a row of the key just when there is a group filed under it, and it is worth what the group is. */
  ghost predicate KeyRight<T(!new), K, V(!new)>(
      keys: map<Handle, K>, rows: map<Handle, Row<K, V>>, values: map<Handle, T>, aggregator: Aggregator<T, V>,
      undecided: set<Handle>, key: K)
  {
    var group := Matching(keys, key);
    && group <= values.Keys
    && if group == {} then forall r :: r in rows ==> rows[r].key != key
       else exists r :: r in rows && rows[r].key == key
              && (group !! undecided ==> rows[r].value == Fold(group, values, aggregator.zero, aggregator.step))
  }

  /** Every row is right, but those of the keys given, and those of groups with undecided members. */
  ghost predicate RightBut<T(!new), K(!new), V(!new)>(
      keys: map<Handle, K>, rows: map<Handle, Row<K, V>>, values: map<Handle, T>, aggregator: Aggregator<T, V>,
      undecided: set<Handle>, stale: set<K>)
  {
    && OneRowPerKey(rows) && keys.Keys <= values.Keys
    && forall key :: key !in stale ==> KeyRight(keys, rows, values, aggregator, undecided, key)
  }

  /** With no key left out this is what an exact view is. */
  lemma RightIsExact<T(!new), K(!new), V(!new)>(
      keys: map<Handle, K>, rows: map<Handle, Row<K, V>>, values: map<Handle, T>, aggregator: Aggregator<T, V>,
      undecided: set<Handle>)
    ensures RightBut(keys, rows, values, aggregator, undecided, {}) <==> Exact(keys, rows, values, aggregator, undecided)
  {
    hide Fold;
    if Exact(keys, rows, values, aggregator, undecided) {
      forall key ensures KeyRight(keys, rows, values, aggregator, undecided, key) {
        MatchingWithin(keys, key);
        if g :| g in Matching(keys, key) {
          RowExists(keys, rows, values, aggregator, undecided, g);
        }
      }
    }
    if RightBut(keys, rows, values, aggregator, undecided, {}) {
      forall r | r in rows
        ensures Matching(keys, rows[r].key) != {}
        ensures Matching(keys, rows[r].key) !! undecided ==>
          rows[r].value == Aggregated(keys, values, aggregator, rows[r].key)
      {
        assert KeyRight(keys, rows, values, aggregator, undecided, rows[r].key);
      }
      forall h | h in keys ensures exists r :: r in rows && rows[r].key == keys[h] {
        assert KeyRight(keys, rows, values, aggregator, undecided, keys[h]);
        assert h in Matching(keys, keys[h]);
      }
    }
  }

  lemma RightElsewhere<T(!new), K, V(!new)>(
      keys: map<Handle, K>, rows: map<Handle, Row<K, V>>, values: map<Handle, T>,
      keys': map<Handle, K>, rows': map<Handle, Row<K, V>>, values': map<Handle, T>,
      aggregator: Aggregator<T, V>, undecided: set<Handle>, undecided': set<Handle>, told: K, event: RowEvent, key: K)
    requires KeyRight(keys, rows, values, aggregator, undecided, key) && LeftCommutative(aggregator.step)
    requires RowsAfter(rows, rows', told, event) && key != told && Matching(keys', key) == Matching(keys, key)
    requires keys'.Keys <= values'.Keys
    requires forall g :: g in Matching(keys, key) ==> values'[g] == values[g] && (g in undecided ==> g in undecided')
    ensures KeyRight(keys', rows', values', aggregator, undecided', key)
  {
    MatchingWithin(keys', key);
    FoldAgree(Matching(keys, key), values, values', aggregator.zero, aggregator.step);
    hide Fold, LeftCommutative, Matching;
    if Matching(keys, key) != {} {
      var r :| r in rows && rows[r].key == key && (Matching(keys, key) !! undecided ==>
        rows[r].value == Fold(Matching(keys, key), values, aggregator.zero, aggregator.step));
      assert r in rows' && rows'[r] == rows[r];
    }
  }

  lemma RightWhereTold<T(!new), K, V(!new)>(
      keys': map<Handle, K>, rows: map<Handle, Row<K, V>>, rows': map<Handle, Row<K, V>>, values': map<Handle, T>,
      aggregator: Aggregator<T, V>, undecided': set<Handle>, told: K, event: RowEvent)
    requires OneRowPerKey(rows) && RowsAfter(rows, rows', told, event)
    requires Refreshed(keys', rows', values', aggregator, told, event)
    ensures KeyRight(keys', rows', values', aggregator, undecided', told)
  {
    hide Fold;
    MatchingWithin(keys', told);
  }

  lemma OneRowStill<K, V>(rows: map<Handle, Row<K, V>>, rows': map<Handle, Row<K, V>>, told: K, event: RowEvent)
    requires OneRowPerKey(rows) && RowsAfter(rows, rows', told, event)
    ensures OneRowPerKey(rows')
  {
  }

  /** One row was told of something; whose group has changed otherwise, or is not decided by it, may have gone stale. */
  lemma RightAfter<T(!new), K(!new), V(!new)>(
      keys: map<Handle, K>, rows: map<Handle, Row<K, V>>, values: map<Handle, T>,
      keys': map<Handle, K>, rows': map<Handle, Row<K, V>>, values': map<Handle, T>,
      aggregator: Aggregator<T, V>, undecided: set<Handle>, undecided': set<Handle>, stale: set<K>, stale': set<K>,
      told: K, event: RowEvent)
    requires RightBut(keys, rows, values, aggregator, undecided, stale) && LeftCommutative(aggregator.step)
    requires RowsAfter(rows, rows', told, event) && keys'.Keys <= values'.Keys && stale <= stale'
    requires told in stale' || Refreshed(keys', rows', values', aggregator, told, event)
    requires forall key :: key != told && key !in stale' ==> Matching(keys', key) == Matching(keys, key)
    requires forall g :: g in keys && g in keys' ==> values'[g] == values[g]
    requires forall g :: g in undecided && g in keys && g !in undecided' ==> keys[g] == told || keys[g] in stale'
    ensures RightBut(keys', rows', values', aggregator, undecided', stale')
  {
    hide Fold, LeftCommutative, RowsAfter, KeyRight, Refreshed;
    OneRowStill(rows, rows', told, event);
    forall key | key !in stale' ensures KeyRight(keys', rows', values', aggregator, undecided', key) {
      if key == told {
        RightWhereTold(keys', rows, rows', values', aggregator, undecided', told, event);
      } else {
        assert KeyRight(keys, rows, values, aggregator, undecided, key);
        assert forall g :: g in Matching(keys, key) ==> g in Matching(keys', key);
        RightElsewhere(keys, rows, values, keys', rows', values', aggregator, undecided, undecided', told, event, key);
      }
    }
  }

  /** Values are written to; rows and groups are what they were. */
  lemma RightWritten<T(!new), K(!new), V(!new)>(
      keys: map<Handle, K>, rows: map<Handle, Row<K, V>>, values: map<Handle, T>, values': map<Handle, T>,
      aggregator: Aggregator<T, V>, undecided: set<Handle>, undecided': set<Handle>, stale: set<K>)
    requires RightBut(keys, rows, values, aggregator, undecided, stale) && LeftCommutative(aggregator.step)
    requires undecided <= undecided'
    requires forall g :: g in keys ==> g in values' && (g in undecided' || values'[g] == values[g])
    ensures RightBut(keys, rows, values', aggregator, undecided', stale)
  {
    forall key | key !in stale ensures KeyRight(keys, rows, values', aggregator, undecided', key) {
      assert KeyRight(keys, rows, values, aggregator, undecided, key);
      if Matching(keys, key) !! undecided' {
        FoldAgree(Matching(keys, key), values, values', aggregator.zero, aggregator.step);
      }
    }
  }

  /** Rows of other keys are left alone. */
  ghost predicate RowsKept<K(!new), V(!new)>(before: map<Handle, Row<K, V>>, after: map<Handle, Row<K, V>>, told: set<K>) {
    && (forall r :: r in before && before[r].key !in told ==> r in after && after[r] == before[r])
    && (forall r :: r in after && after[r].key !in told ==> r in before && before[r] == after[r])
  }

  lemma RowsKeptAfter<K(!new), V(!new)>(
      start: map<Handle, Row<K, V>>, before: map<Handle, Row<K, V>>, after: map<Handle, Row<K, V>>, told: set<K>,
      key: K, event: RowEvent)
    requires RowsKept(start, before, told) && RowsAfter(before, after, key, event)
    ensures RowsKept(start, after, told + {key})
  {
  }

  /** Keys that come out differently leave both rows concerned behind. */
  function Apart<K(==)>(filed: K, told: K): set<K> {
    if filed == told then {} else {filed, told}
  }
}
