/**
  Flat rows: all calls to a function, in whatever context, summed up in a single
  row. A recursive call is counted, but its time is already within the time of
  the outermost call, so it is left out of the inclusive time.
*/
module FlatSums {
  import opened FiniteSums
  import opened Folds
  import opened Statistics
  import opened CallTables
  import opened Hierarchy

  ghost function Inclusive(records: Records): Id -> int {
    id => if id in records then records[id].statistics.inclusiveTime else 0
  }

  ghost function Exclusive(records: Records): Id -> int {
    id => if id in records then records[id].statistics.exclusiveTime else 0
  }

  ghost function TimesCalled(records: Records): Id -> int {
    id => if id in records then records[id].statistics.timesCalled else 0
  }

  /** The members of a group that are not called, however indirectly, from their own function. */
  ghost function Outermost(records: Records, group: set<Id>): (outer: set<Id>)
    requires Acyclic(records) && group <= records.Keys
    ensures outer <= group
  {
    set id | id in group && Reentrance(records, id, records[id].address) == 0
  }

  /** The longest call of a group; no call takes less than zero. */
  ghost predicate IsLongest(records: Records, group: set<Id>, longest: nat)
    requires group <= records.Keys
  {
    && (forall id :: id in group ==> records[id].statistics.maxCallTime <= longest)
    && (longest == 0 || exists id :: id in group && records[id].statistics.maxCallTime == longest)
  }

  /** What a call adds to the sum of its group: its statistics, and how deep it is in its own function. */
  datatype Measure = Measure(statistics: FunctionStatistics, reentrance: nat)

  /** A recursive call is within the time of another member of its group already. */
  function AddFlat(sum: FunctionStatistics, m: Measure): FunctionStatistics {
    var s := m.statistics;
    var counted := sum.(timesCalled := sum.timesCalled + s.timesCalled,
      exclusiveTime := sum.exclusiveTime + s.exclusiveTime);
    if m.reentrance != 0 then counted else
    counted.(inclusiveTime := sum.inclusiveTime + s.inclusiveTime, maxCallTime := Max(sum.maxCallTime, s.maxCallTime))
  }

  lemma AddFlatCommutes()
    ensures LeftCommutative(AddFlat)
  {
    forall v: FunctionStatistics, a: Measure, b: Measure ensures AddFlat(AddFlat(v, a), b) == AddFlat(AddFlat(v, b), a) {
    }
  }

  function Weighed(records: Records): map<Id, Measure>
    requires Acyclic(records)
  {
    map id | id in records :: Measure(records[id].statistics, Reentrance(records, id, records[id].address))
  }

  /** Sums a group up, in whatever order the index yields it. */
  method SumFlat(records: Records, group: set<Id>) returns (sum: FunctionStatistics)
    requires Acyclic(records) && group <= records.Keys
    ensures sum == Fold(group, Weighed(records), Zero(), AddFlat)
    ensures sum.timesCalled == Sum(group, TimesCalled(records))
    ensures sum.exclusiveTime == Sum(group, Exclusive(records))
    ensures sum.inclusiveTime == Sum(Outermost(records, group), Inclusive(records))
    ensures IsLongest(records, Outermost(records, group), sum.maxCallTime)
  {
    hide Sum, Outermost, Acyclic, Reentrance, Fold, LeftCommutative, AddFlat, IsLongest;
    AddFlatCommutes();
    sum := Zero();
    FoldNone(Weighed(records), Zero(), AddFlat);
    assert group - group == {};
    var rest := group;
    while rest != {}
      invariant rest <= group && sum == Fold(group - rest, Weighed(records), Zero(), AddFlat)
    {
      var id :| id in rest;
      assert group - (rest - {id}) - {id} == group - rest;
      FoldRemove(group - (rest - {id}), Weighed(records), Zero(), AddFlat, id);
      var _, reentrance := InitializePath(records, id);
      sum := AddFlat(sum, Measure(records[id].statistics, reentrance));
      rest := rest - {id};
    }
    assert group - rest == group;
    FoldIsFlat(records, group);
  }

  /** The sum is flat: recursion is counted once. */
  lemma {:induction false} FoldIsFlat(records: Records, group: set<Id>)
    requires Acyclic(records) && group <= records.Keys
    ensures var sum := Fold(group, Weighed(records), Zero(), AddFlat);
      && sum.timesCalled == Sum(group, TimesCalled(records))
      && sum.exclusiveTime == Sum(group, Exclusive(records))
      && sum.inclusiveTime == Sum(Outermost(records, group), Inclusive(records))
      && IsLongest(records, Outermost(records, group), sum.maxCallTime)
  {
    hide Acyclic, Outermost, Reentrance, Sum, Fold, IsLongest, LeftCommutative, TimesCalled, Exclusive, Inclusive;
    hide Max, AddFlat;
    if group == {} {
      EmptyGroup(records);
      FoldNone(Weighed(records), Zero(), AddFlat);
    } else {
      var id :| id in group;
      var rest := group - {id};
      FlatFoldStep(records, group, id);
      FoldIsFlat(records, rest);
      FlatStep(records, rest, id);
      assert rest + {id} == group;
      var before := Fold(rest, Weighed(records), Zero(), AddFlat);
      LongestStep(records, Outermost(records, rest), id, before.maxCallTime);
    }
  }

  lemma LongestStep(records: Records, group: set<Id>, id: Id, longest: nat)
    requires group <= records.Keys && id in records && IsLongest(records, group, longest)
    ensures IsLongest(records, group + {id}, Max(longest, records[id].statistics.maxCallTime))
  {
    assert id in group + {id};
  }

  lemma FlatFoldStep(records: Records, group: set<Id>, id: Id)
    requires Acyclic(records) && group <= records.Keys && id in group
    ensures var before := Fold(group - {id}, Weighed(records), Zero(), AddFlat);
      var after, s := Fold(group, Weighed(records), Zero(), AddFlat), records[id].statistics;
      && after.timesCalled == before.timesCalled + s.timesCalled
      && after.exclusiveTime == before.exclusiveTime + s.exclusiveTime
      && if Reentrance(records, id, records[id].address) == 0 then
           after.inclusiveTime == before.inclusiveTime + s.inclusiveTime
           && after.maxCallTime == Max(before.maxCallTime, s.maxCallTime)
         else after.inclusiveTime == before.inclusiveTime && after.maxCallTime == before.maxCallTime
  {
    hide Fold, LeftCommutative, Max;
    AddFlatCommutes();
    FoldRemove(group, Weighed(records), Zero(), AddFlat, id);
  }

  lemma EmptyGroup(records: Records)
    requires Acyclic(records)
    ensures Outermost(records, {}) == {} && IsLongest(records, {}, 0)
    ensures Sum<Id>({}, TimesCalled(records)) == Sum<Id>({}, Exclusive(records)) == Sum<Id>({}, Inclusive(records)) == 0
  {
  }

  /** What one more record contributes. */
  lemma FlatStep(records: Records, done: set<Id>, id: Id)
    requires Acyclic(records) && done <= records.Keys && id in records && id !in done
    ensures Sum(done + {id}, TimesCalled(records)) == Sum(done, TimesCalled(records)) + records[id].statistics.timesCalled
    ensures Sum(done + {id}, Exclusive(records)) == Sum(done, Exclusive(records)) + records[id].statistics.exclusiveTime
    ensures var outer, outer' := Outermost(records, done), Outermost(records, done + {id});
      if Reentrance(records, id, records[id].address) == 0 then
        outer' == outer + {id}
        && Sum(outer', Inclusive(records)) == Sum(outer, Inclusive(records)) + records[id].statistics.inclusiveTime
      else outer' == outer
  {
    assert done + {id} - {id} == done;
    SumRemove(done + {id}, TimesCalled(records), id);
    SumRemove(done + {id}, Exclusive(records), id);
    var outer, outer' := Outermost(records, done), Outermost(records, done + {id});
    if Reentrance(records, id, records[id].address) == 0 {
      assert outer' == outer + {id} && outer' - {id} == outer;
      SumRemove(outer', Inclusive(records), id);
    }
  }

  /** No reentrance means no caller, near or far, is a call to the same function. */
  lemma {:induction false} NotReentrant(records: Records, id: Id, address: Address)
    requires Acyclic(records) && id in records
    ensures Reentrance(records, id, address) == 0 <==>
      forall a :: a in records && Descendant(records, a, id) ==> records[a].address != address
    decreases id
  {
    var parent := records[id].parentId;
    if parent in records {
      NotReentrant(records, parent, address);
      assert Descendant(records, parent, id);
    }
  }

  ghost predicate Antichain(records: Records, s: set<Id>)
    requires Acyclic(records) && s <= records.Keys
  {
    forall a, b :: a in s && b in s ==> !Descendant(records, a, b)
  }

  /** The outermost calls to a function never contain one another. */
  lemma OutermostApart(records: Records, group: set<Id>, address: Address)
    requires Acyclic(records) && group <= records.Keys
    requires forall id :: id in group ==> records[id].address == address
    ensures Antichain(records, Outermost(records, group))
  {
    forall a, b | a in Outermost(records, group) && b in Outermost(records, group)
      ensures !Descendant(records, a, b)
    {
      NotReentrant(records, b, address);
    }
  }

  // ---- The bound ----

  lemma HierarchicalIsAcyclic(records: Records)
    requires Hierarchical(records)
    ensures Acyclic(records)
  {
    forall id | id in records
      ensures records[id].id == id && (records[id].parentId in records ==> records[id].parentId < id)
    {
      assert HangsOff(records, id);
    }
  }

  /** The records of a thread made directly from a record, or the outermost ones for zero. */
  ghost function CalledFrom(records: Records, t: ThreadId, n: Id): set<Id> {
    set id | id in records && records[id].threadId == t && records[id].parentId == n
  }

  /** All records of a thread below a record, or all there are for zero. */
  ghost function Under(records: Records, t: ThreadId, n: Id): set<Id>
    requires Acyclic(records)
  {
    set id | id in records && records[id].threadId == t && (n == 0 || Descendant(records, n, id))
  }

  /** The record right below `n` on the way to `id`. */
  ghost function TopUnder(records: Records, n: Id, id: Id): Id
    requires Acyclic(records)
    decreases id
  {
    if id !in records || records[id].parentId == n || records[id].parentId !in records then id
    else TopUnder(records, n, records[id].parentId)
  }

  lemma {:induction false} TopUnderIsCallee(records: Records, t: ThreadId, n: Id, id: Id)
    requires Hierarchical(records) && Acyclic(records) && id in Under(records, t, n)
    ensures var top := TopUnder(records, n, id); top in CalledFrom(records, t, n)
    ensures var top := TopUnder(records, n, id); top == id || id in Under(records, t, top)
    decreases id
  {
    var parent := records[id].parentId;
    assert HangsOff(records, id);
    if parent != n && parent in records {
      TopUnderIsCallee(records, t, n, parent);
    }
  }

  lemma {:induction false} CalleeOnTop(records: Records, n: Id, top: Id, id: Id)
    requires Hierarchical(records) && Acyclic(records) && id in records && top in records
    requires records[top].parentId == n && Descendant(records, top, id)
    ensures TopUnder(records, n, id) == top
    decreases id
  {
    var parent := records[id].parentId;
    assert HangsOff(records, id);
    if parent != top {
      CalleeOnTop(records, n, top, parent);
      if parent == n {
        NoCycle(records, top, n);
        assert false;
      }
    } else {
      assert HangsOff(records, top);
    }
  }

  lemma {:induction false} NoCycle(records: Records, a: Id, id: Id)
    requires Acyclic(records) && id in records && Descendant(records, a, id)
    ensures a < id
    decreases id
  {
    var parent := records[id].parentId;
    if parent != a {
      NoCycle(records, a, parent);
    }
  }

  /** A call takes no less than the calls made from it. */
  ghost predicate Nested(records: Records, t: ThreadId) {
    forall id :: id in records && records[id].threadId == t ==>
      && 0 <= records[id].statistics.inclusiveTime
      && Sum(CalledFrom(records, t, id), Inclusive(records)) <= records[id].statistics.inclusiveTime
  }

  lemma {:induction false} AntichainFits(records: Records, t: ThreadId, s: set<Id>, n: Id, limit: Id)
    requires Hierarchical(records) && Acyclic(records) && Nested(records, t)
    requires s <= records.Keys && Antichain(records, s) && forall id :: id in records ==> id < limit
    requires n == 0 || (n in records && records[n].threadId == t)
    ensures Sum(s * Under(records, t, n), Inclusive(records)) <= Sum(CalledFrom(records, t, n), Inclusive(records))
    decreases limit - n
  {
    hide Sum, Under, CalledFrom, Nested, Hierarchical, Acyclic, Antichain, TopUnder, Fiber, FiberSum, Inclusive;
    var within, callees := s * Under(records, t, n), CalledFrom(records, t, n);
    var top: Id -> Id := id => if id in records then TopUnder(records, n, id) else id;
    forall id | id in within ensures top(id) in callees {
      TopUnderIsCallee(records, t, n, id);
    }
    SumFibers<Id, Id>(within, Inclusive(records), callees, top);
    var share := FiberSum<Id, Id>(within, Inclusive(records), top);
    forall c | c in callees ensures share(c) <= Inclusive(records)(c) {
      CalleeFits(records, t, s, n, c, limit, top);
    }
    SumAtMost<Id>(callees, share, Inclusive(records));
  }

  lemma {:induction false} CalleeFits(records: Records, t: ThreadId, s: set<Id>, n: Id, c: Id, limit: Id, top: Id -> Id)
    requires Hierarchical(records) && Acyclic(records) && Nested(records, t)
    requires s <= records.Keys && Antichain(records, s) && forall id :: id in records ==> id < limit
    requires n == 0 || (n in records && records[n].threadId == t)
    requires c in CalledFrom(records, t, n)
    requires forall id :: id in records ==> top(id) == TopUnder(records, n, id)
    ensures FiberSum<Id, Id>(s * Under(records, t, n), Inclusive(records), top)(c) <= Inclusive(records)(c)
    decreases limit - n, 0
  {
    var fiber := Fiber(s * Under(records, t, n), top, c);
    forall id | id in fiber ensures id == c || id in Under(records, t, c) {
      TopUnderIsCallee(records, t, n, id);
    }
    assert HangsOff(records, c);
    if c in s {
      assert fiber <= {c};
      if fiber == {c} {
        SumRemove(fiber, Inclusive(records), c);
        assert fiber - {c} == {};
      }
    } else {
      forall id | id in s * Under(records, t, c) ensures id in fiber {
        CalleeOnTop(records, n, c, id);
        if n != 0 {
          DescendantThrough(records, n, c, id);
        }
      }
      assert fiber == s * Under(records, t, c);
      AntichainFits(records, t, s, c, limit);
    }
  }

  lemma {:induction false} DescendantThrough(records: Records, n: Id, c: Id, id: Id)
    requires Acyclic(records) && c in records && id in records && n in records
    requires records[c].parentId == n && Descendant(records, c, id)
    ensures Descendant(records, n, id)
    decreases id
  {
    var parent := records[id].parentId;
    if parent != c {
      DescendantThrough(records, n, c, parent);
    }
  }

  /**
    Recursion is not counted twice: the inclusive time of a flat row, the sum over the outermost
    calls, never exceeds the time the thread spent in its outermost functions altogether.
  */
  lemma FlatRowFits(records: Records, t: ThreadId, address: Address)
    requires Hierarchical(records) && Nested(records, t)
    ensures Acyclic(records)
    ensures var group := set id | id in records && records[id].threadId == t && records[id].address == address;
      Sum(Outermost(records, group), Inclusive(records)) <= Sum(CalledFrom(records, t, 0), Inclusive(records))
  {
    var group := set id | id in records && records[id].threadId == t && records[id].address == address;
    HierarchicalIsAcyclic(records);
    var outer := Outermost(records, group);
    OutermostApart(records, group, address);
    var limit := LimitOf(records.Keys);
    AntichainFits(records, t, outer, 0, limit);
    assert outer * Under(records, t, 0) == outer;
  }

  ghost function LimitOf(ids: set<Id>): (limit: Id)
    ensures forall id :: id in ids ==> id < limit
  {
    if ids == {} then 0 else
    var id :| id in ids;
    var limit := LimitOf(ids - {id});
    assert forall i :: i in ids ==> i == id || i in ids - {id};
    if id < limit then limit else id + 1
  }
}
