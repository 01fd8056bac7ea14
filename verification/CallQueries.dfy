/**
  Callers and callees as one-shot queries: the calls whose function is selected,
  or whose caller is, in groups, summed up with recursion counted once.
*/
module CallQueries {
  import opened Statistics
  import opened CallTables
  import opened Hierarchy
  import opened FlatSums
  import opened Folds
  import opened Indexes

  /** A caller that is not there has no address. */
  function ParentAddress(records: Records, id: Id): Address
    requires id in records
  {
    var parent := records[id].parentId;
    if parent in records then records[parent].address else 0
  }

  /** Calls to the selected functions by who makes them, or calls made by the selected functions by whom they reach. */
  datatype Kind = Callers | Callees

  datatype GroupKey = GroupKey(address: Address, threadId: ThreadId)

  function JoinKeyOf(kind: Kind, r: CallStatistics, caller: Address): Address {
    match kind
    case Callers => r.address
    case Callees => caller
  }

  function GroupOf(kind: Kind, r: CallStatistics, caller: Address): GroupKey {
    match kind
    case Callers => GroupKey(caller, r.threadId)
    case Callees => GroupKey(r.address, r.threadId)
  }

  function JoinKeys(kind: Kind, records: Records): (keys: map<Handle, Address>)
    ensures keys.Keys == records.Keys
  {
    map id | id in records :: JoinKeyOf(kind, records[id], ParentAddress(records, id))
  }

  function Groups(kind: Kind, records: Records): (groups: map<Handle, GroupKey>)
    ensures groups.Keys == records.Keys
  {
    map id | id in records :: GroupOf(kind, records[id], ParentAddress(records, id))
  }

  /** What calls add to sums, for those whose path is known: a path is worked out once, when it is first asked for. */
  function Measures(records: Records, paths: map<Id, nat>): map<Handle, Measure> {
    map id | id in records && id in paths :: Measure(records[id].statistics, paths[id])
  }

  /** The paths anybody who asks is told. */
  function Paths(records: Records, paths: map<Id, nat>): (all: map<Id, nat>)
    requires Acyclic(records)
    ensures all.Keys == records.Keys
  {
    map id | id in records :: if id in paths then paths[id] else Reentrance(records, id, records[id].address)
  }

  /** Paths are those of the hierarchy as it is. */
  ghost predicate PathsRight(records: Records, paths: map<Id, nat>)
    requires Acyclic(records)
  {
    forall id :: id in paths && id in records ==> paths[id] == Reentrance(records, id, records[id].address)
  }

  // ---- The one-shot query ----

  ghost function QueryGroup(kind: Kind, records: Records, chosen: set<Address>, key: GroupKey): (group: set<Handle>)
    ensures group <= records.Keys
  {
    set id | id in records && JoinKeys(kind, records)[id] in chosen && Groups(kind, records)[id] == key
  }

  /**
    A call counts in a row of callers if its function is selected, and the row is that of its caller's function and its
    thread; in a row of callees if its caller's function is selected, and the row is that of its function and thread.
  */
  predicate Counted(kind: Kind, records: Records, chosen: set<Address>, key: GroupKey, id: Id) {
    && id in records && records[id].threadId == key.threadId
    && var parent := records[id].parentId;
       var caller := if parent in records then records[parent].address else 0;
       match kind
       case Callers => records[id].address in chosen && caller == key.address
       case Callees => caller in chosen && records[id].address == key.address
  }

  lemma GroupIsCounted(kind: Kind, records: Records, chosen: set<Address>, key: GroupKey, id: Id)
    ensures id in QueryGroup(kind, records, chosen, key) <==> Counted(kind, records, chosen, key, id)
  {
    hide JoinKeys, Groups;
    if id in records {
      KnownOf(kind, records, id);
    }
  }

  /** Calls are in one row of callees if functions and threads are the same; of callers, if callers and threads are. */
  lemma InOneRow(kind: Kind, records: Records, chosen: set<Address>, a: Id, rowOfA: GroupKey, b: Id, rowOfB: GroupKey)
    requires a in QueryGroup(kind, records, chosen, rowOfA) && b in QueryGroup(kind, records, chosen, rowOfB)
    ensures rowOfA == rowOfB <==>
      && records[a].threadId == records[b].threadId
      && if kind.Callees? then records[a].address == records[b].address else
         ParentAddress(records, a) == ParentAddress(records, b)
  {
    hide QueryGroup;
    GroupIsCounted(kind, records, chosen, rowOfA, a);
    GroupIsCounted(kind, records, chosen, rowOfB, b);
  }

  ghost function Query(kind: Kind, records: Records, paths: map<Id, nat>, chosen: set<Address>,
                       key: GroupKey): FunctionStatistics
    requires Acyclic(records)
  {
    Fold(QueryGroup(kind, records, chosen, key), Measures(records, Paths(records, paths)), Zero(), AddFlat)
  }

  /** For calls whose paths are known the query sums up what is known. */
  lemma AllPathsAgree(kind: Kind, records: Records, paths: map<Id, nat>, chosen: set<Address>, key: GroupKey)
    requires Acyclic(records) && QueryGroup(kind, records, chosen, key) <= Measures(records, paths).Keys
    ensures Query(kind, records, paths, chosen, key)
         == Fold(QueryGroup(kind, records, chosen, key), Measures(records, paths), Zero(), AddFlat)
  {
    hide Acyclic, Reentrance, QueryGroup, LeftCommutative, AddFlat, Fold;
    AddFlatCommutes();
    FoldAgree(QueryGroup(kind, records, chosen, key), Measures(records, Paths(records, paths)),
      Measures(records, paths), Zero(), AddFlat);
  }

  /** With the paths of the hierarchy as it is, the query's sum is flat. */
  lemma QueryIsFlat(kind: Kind, records: Records, paths: map<Id, nat>, chosen: set<Address>, key: GroupKey)
    requires Acyclic(records) && PathsRight(records, paths)
    ensures var group, sum := QueryGroup(kind, records, chosen, key), Query(kind, records, paths, chosen, key);
      && sum.timesCalled == FiniteSums.Sum(group, TimesCalled(records))
      && sum.exclusiveTime == FiniteSums.Sum(group, Exclusive(records))
      && sum.inclusiveTime == FiniteSums.Sum(Outermost(records, group), Inclusive(records))
      && IsLongest(records, Outermost(records, group), sum.maxCallTime)
  {
    hide Acyclic, Reentrance, QueryGroup, Fold, FiniteSums.Sum, Outermost, AddFlat, TimesCalled, Exclusive, Inclusive;
    hide IsLongest;
    assert Measures(records, Paths(records, paths)) == Weighed(records);
    FoldIsFlat(records, QueryGroup(kind, records, chosen, key));
  }

  // ---- Calls that come and go ----

  /** The calls there were are there still, with the same callers. */
  ghost predicate SameCalls(before: Records, after: Records) {
    forall i :: i in before ==>
      i in after && KeyOf(after[i]) == KeyOf(before[i]) && (before[i].parentId in after ==> before[i].parentId in before)
  }

  lemma {:induction false} ReentranceStays(before: Records, after: Records, id: Id, address: Address)
    requires Acyclic(before) && Acyclic(after) && SameCalls(before, after) && id in before
    ensures Reentrance(after, id, address) == Reentrance(before, id, address)
    decreases id
  {
    var parent := before[id].parentId;
    assert KeyOf(after[id]) == KeyOf(before[id]);
    if parent in before {
      assert KeyOf(after[parent]) == KeyOf(before[parent]);
      ReentranceStays(before, after, parent, address);
    }
  }

  lemma KnownStays(kind: Kind, before: Records, after: Records, id: Id)
    requires Acyclic(before) && Acyclic(after) && SameCalls(before, after) && id in before
    ensures id in after && ParentAddress(after, id) == ParentAddress(before, id)
    ensures JoinKeys(kind, after)[id] == JoinKeys(kind, before)[id]
    ensures Groups(kind, after)[id] == Groups(kind, before)[id]
    ensures Reentrance(after, id, after[id].address) == Reentrance(before, id, before[id].address)
  {
    var parent := before[id].parentId;
    assert KeyOf(after[id]) == KeyOf(before[id]);
    if parent in before {
      assert KeyOf(after[parent]) == KeyOf(before[parent]);
    }
    ReentranceStays(before, after, id, before[id].address);
  }

  lemma AllKnownStays(kind: Kind, before: Records, after: Records, paths: map<Id, nat>)
    requires Acyclic(before) && Acyclic(after) && SameCalls(before, after)
    ensures forall i :: i in before ==> i in after && JoinKeys(kind, after)[i] == JoinKeys(kind, before)[i]
    ensures forall i :: i in before ==> Groups(kind, after)[i] == Groups(kind, before)[i]
    ensures forall i :: i in before ==>
      Reentrance(after, i, after[i].address) == Reentrance(before, i, before[i].address)
  {
    hide Acyclic, SameCalls, Reentrance, JoinKeys, Groups, ParentAddress;
    forall i | i in before
      ensures i in after && JoinKeys(kind, after)[i] == JoinKeys(kind, before)[i]
      ensures Groups(kind, after)[i] == Groups(kind, before)[i]
      ensures Reentrance(after, i, after[i].address) == Reentrance(before, i, before[i].address)
    {
      KnownStays(kind, before, after, i);
    }
  }

  lemma WriteStays(kind: Kind, records: Records, paths: map<Id, nat>, r: CallStatistics)
    requires Acyclic(records) && r.id in records && r == records[r.id].(statistics := r.statistics)
    ensures var after := records[r.id := r];
      && Acyclic(after)
      && JoinKeys(kind, after) == JoinKeys(kind, records) && Groups(kind, after) == Groups(kind, records)
      && (PathsRight(records, paths) ==> PathsRight(after, paths))
  {
    hide Acyclic, SameCalls, Reentrance, JoinKeys, Groups;
    SameAfterWrite(records, r);
    AllKnownStays(kind, records, records[r.id := r], paths);
  }

  lemma SameAfterWrite(records: Records, r: CallStatistics)
    requires Acyclic(records) && r.id in records && r == records[r.id].(statistics := r.statistics)
    ensures Acyclic(records[r.id := r]) && SameCalls(records, records[r.id := r])
  {
  }

  lemma MeasureKnown(records: Records, paths: map<Id, nat>, id: Id)
    ensures id in Measures(records, paths) <==> id in records && id in paths
  {
  }

  lemma AllMeasured(records: Records, paths: map<Id, nat>, ids: set<Id>)
    requires ids <= records.Keys && ids <= paths.Keys
    ensures ids <= Measures(records, paths).Keys
  {
  }

  lemma MeasuresWritten(records: Records, paths: map<Id, nat>, id: Id, r: CallStatistics)
    ensures var after := Measures(records[id := r], paths);
      && (id in records || id !in paths ==> after.Keys == Measures(records, paths).Keys)
      && (forall i :: i in Measures(records, paths) && i != id ==> i in after && after[i] == Measures(records, paths)[i])
      && (id !in paths ==> after == Measures(records, paths))
  {
  }

  /** No call made from this one is there. */
  predicate Childless(records: Records, id: Id) {
    forall c :: c in records ==> records[c].parentId != id
  }

  /** A call comes before any call made from it, ids being handed out one after the other. */
  lemma AppendStays(kind: Kind, records: Records, paths: map<Id, nat>, r: CallStatistics)
    requires Acyclic(records) && r.id !in records && Acyclic(records[r.id := r]) && Childless(records, r.id)
    ensures var after := records[r.id := r];
      && JoinKeys(kind, after) == JoinKeys(kind, records)[r.id := JoinKeyOf(kind, r, ParentAddress(after, r.id))]
      && Groups(kind, after) == Groups(kind, records)[r.id := GroupOf(kind, r, ParentAddress(after, r.id))]
      && (PathsRight(records, paths) && r.id !in paths ==> PathsRight(after, paths))
  {
    hide Acyclic, SameCalls, Reentrance, JoinKeys, Groups, ParentAddress, JoinKeyOf, GroupOf;
    var after := records[r.id := r];
    SameAfterAppend(records, r);
    AllKnownStays(kind, records, after, paths);
    KnownOf(kind, after, r.id);
  }

  lemma KnownOf(kind: Kind, records: Records, id: Id)
    requires id in records
    ensures JoinKeys(kind, records)[id] == JoinKeyOf(kind, records[id], ParentAddress(records, id))
    ensures Groups(kind, records)[id] == GroupOf(kind, records[id], ParentAddress(records, id))
  {
  }

  lemma SameAfterAppend(records: Records, r: CallStatistics)
    requires r.id !in records && Childless(records, r.id)
    ensures SameCalls(records, records[r.id := r])
  {
  }

  /** Calls that go before the calls they were made from leave all that is known of the others as it was. */
  lemma LeafGoes(kind: Kind, records: Records, paths: map<Id, nat>, id: Id)
    requires Acyclic(records) && id in records && Childless(records, id)
    ensures var after := records - {id};
      && Acyclic(after)
      && JoinKeys(kind, after) == JoinKeys(kind, records) - {id} && Groups(kind, after) == Groups(kind, records) - {id}
      && (PathsRight(records, paths) ==> PathsRight(after, paths - {id}))
  {
    var after := records - {id};
    AllKnownStays(kind, after, records, paths);
    hide Reentrance, JoinKeys, Groups;
  }

  lemma GoneFrom(kind: Kind, records: Records, id: Id, c: Id)
    requires Acyclic(records) && id in records && c in records && c != id
    ensures Acyclic(records - {id})
    ensures ParentAddress(records - {id}, c) == if records[c].parentId == id then 0 else ParentAddress(records, c)
    ensures records[c].parentId == id ==> ParentAddress(records, c) == records[id].address
  {
  }

  /**
    The caller of each call left comes out as before exactly when calls made from the one that goes are gone, or it is
    at the address that stands for no caller.
  */
  lemma CallersStay(records: Records, id: Id)
    requires Acyclic(records) && id in records
    ensures (forall c :: c in records - {id} ==> ParentAddress(records - {id}, c) == ParentAddress(records, c))
       <==> Childless(records, id) || records[id].address == 0
  {
    var after := records - {id};
    if c :| c in records && records[c].parentId == id {
      assert c in after && ParentAddress(after, c) == 0 && ParentAddress(records, c) == records[id].address;
    }
  }

  /** No call made from this one is filed by its caller: there is none, or no caller to speak of. */
  predicate Harmless(kind: Kind, records: Records, chosen: set<Address>, id: Id)
    requires id in records
  {
    || records[id].address == 0
    || forall c :: c in records && records[c].parentId == id ==> kind.Callers? && records[c].address !in chosen
  }

  /** Nothing made from the call is to be seen among callers; or nothing is, or both addresses are, among callees. */
  predicate Unseen(kind: Kind, records: Records, chosen: set<Address>, id: Id)
    requires id in records
  {
    || records[id].address == 0
    || Childless(records, id)
    || match kind
       case Callers => forall c :: c in records && records[c].parentId == id ==> records[c].address !in chosen
       case Callees => records[id].address in chosen <==> 0 in chosen
  }

  /**
    When a call goes, every group of the query loses that call and nothing else, exactly when nobody sees that the
    caller of the calls made from it is not there any more.
  */
  lemma GroupsStay(kind: Kind, records: Records, chosen: set<Address>, id: Id)
    requires Acyclic(records) && id in records
    ensures (forall key :: QueryGroup(kind, records - {id}, chosen, key) == QueryGroup(kind, records, chosen, key) - {id})
       <==> Unseen(kind, records, chosen, id)
  {
    var after := records - {id};
    forall c | c in after
      ensures JoinKeys(kind, after)[c] == JoinKeyOf(kind, records[c], ParentAddress(after, c))
      ensures Groups(kind, after)[c] == GroupOf(kind, records[c], ParentAddress(after, c))
      ensures ParentAddress(after, c) == if records[c].parentId == id then 0 else ParentAddress(records, c)
      ensures records[c].parentId == id ==> ParentAddress(records, c) == records[id].address
    {
      GoneFrom(kind, records, id, c);
    }
    if !Unseen(kind, records, chosen, id) {
      var c :| c in records && records[c].parentId == id && (kind.Callers? ==> records[c].address in chosen);
      NotItsOwnCaller(records, id);
      assert c in after;
      var key := Groups(kind, if c in QueryGroup(kind, after, chosen, Groups(kind, after)[c]) then after else records)[c];
      assert c in QueryGroup(kind, after, chosen, key) <==> c !in QueryGroup(kind, records, chosen, key) - {id};
    }
  }

  lemma GoneIsFine(kind: Kind, records: Records, paths: map<Id, nat>, id: Id)
    requires Acyclic(records) && id in records
    ensures Acyclic(records - {id}) && records[id].id == id
    ensures PathsRight(records, paths) && Childless(records, id) ==> PathsRight(records - {id}, paths - {id})
  {
    if Childless(records, id) {
      LeafGoes(kind, records, paths, id);
    }
  }

  lemma MeasuresGone(records: Records, paths: map<Id, nat>, id: Id)
    ensures Measures(records - {id}, paths - {id}) == Measures(records, paths) - {id}
    ensures (records - {id}).Keys == records.Keys - {id}
  {
  }

  lemma RecordOf(records: Records, id: Id)
    requires Acyclic(records) && id in records
    ensures records[id].id == id
  {
  }

  lemma CallerOf(records: Records, id: Id)
    requires id in records
    ensures ParentAddress(records, id)
         == if records[id].parentId in records.Keys then records[records[id].parentId].address else 0
  {
  }

  lemma NotItsOwnCaller(records: Records, id: Id)
    requires Acyclic(records) && id in records
    ensures records[id].parentId != id
    ensures ParentAddress(records, id)
         == if records[id].parentId in records.Keys - {id} then records[records[id].parentId].address else 0
  {
  }
}
