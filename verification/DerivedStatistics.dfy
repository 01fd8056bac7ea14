/**
  Callers and callees of the functions that are selected: the selection is
  grouped into addresses, the addresses are joined with the calls of the
  hierarchy, and the joined calls are grouped again and summed up. All three
  tables are live. Keys are told with the help of the hierarchy's index by id,
  anew each time: a call may come out with another group than the one it was
  filed under, once its caller has gone.
*/
module DerivedStatistics {
  import opened Statistics
  import opened CallTables
  import opened Hierarchy
  import opened FlatSums
  import opened CallQueries
  import opened Folds
  import opened Indexes
  import opened Wrappers
  import opened GroupByViews
  import opened StaleRows
  import opened JoinViews

  function SumFlatCalls(): Aggregator<Measure, FunctionStatistics> {
    Aggregator(Zero(), AddFlat)
  }

  ghost function Ids(known: set<Id>): map<Handle, Id> {
    map id | id in known :: id
  }

  lemma IdsMatch(known: set<Id>, id: Id)
    ensures Matching(Ids(known), id) == if id in known then {id} else {}
    ensures id in Ids(known) <==> id in known
    ensures id !in known ==> Ids(known)[id := id] == Ids(known + {id})
    ensures Ids(known) - {id} == Ids(known - {id})
  {
  }

  /** What the selected records are grouped by. */
  function AddressesOf(records: Records, selection: map<Handle, Id>): map<Handle, Address> {
    map h | h in selection && selection[h] in records :: records[selection[h]].address
  }

  lemma AddressesStay(records: Records, selection: map<Handle, Id>, r: CallStatistics)
    requires selection.Values <= records.Keys
    ensures r.id !in records || records[r.id].address == r.address ==>
      AddressesOf(records[r.id := r], selection) == AddressesOf(records, selection)
    ensures r.id !in selection.Values ==> AddressesOf(records - {r.id}, selection) == AddressesOf(records, selection)
  {
    forall h | h in selection ensures selection[h] in selection.Values {
    }
  }

  lemma SelectionStep(records: Records, selection: map<Handle, Id>, h: Handle, id: Id)
    requires selection.Values <= records.Keys && id in records
    ensures AddressesOf(records, selection[h := id]) == AddressesOf(records, selection)[h := records[id].address]
    ensures AddressesOf(records, selection - {h}) == AddressesOf(records, selection) - {h}
    ensures h in AddressesOf(records, selection) <==> h in selection
    ensures h in selection && selection[h] == id ==> AddressesOf(records, selection)[h] == records[id].address
    ensures selection[h := id].Values <= records.Keys && (selection - {h}).Values <= records.Keys
  {
    forall g | g in selection ensures selection[g] in selection.Values {
    }
  }

  class DerivedTable {
    const kind: Kind
    /** The hierarchy of calls. */
    var records: Records
    /** Its index by id. */
    const byId: Index<Id>
    /** How deep a call is in its own function, for the calls that have been asked; it stays at that. */
    var paths: map<Id, nat>
    /** The ids selected. */
    var selection: map<Handle, Id>
    const addresses: GroupBy<Address, Address, ()>
    const calls: Join<Measure, Address, GroupKey, FunctionStatistics>
    /** Records written to but not committed yet. */
    ghost var dirty: set<Handle>
    /** Groups that have been passed over, or told in another's place. */
    ghost var stale: set<GroupKey>

    ghost function Repr(): set<object> {
      {this, byId} + addresses.Repr() + calls.Repr()
    }

    function Addresses(): map<Handle, Address>
      reads `records, `selection
    {
      AddressesOf(records, selection)
    }

    /** The addresses there are to be rows for. */
    ghost function Chosen(): set<Address>
      reads `records, `selection
    {
      Addresses().Values
    }

    /** All tables are right for what is filed in them, but for stale groups. */
    ghost predicate Coherent()
      reads Repr()
    {
      && {this as object, byId} !! addresses.Repr() !! calls.Repr()
      && Indexed(records.Keys)
      && Acyclic(records) && paths.Keys <= records.Keys
      && selection.Values <= records.Keys
      && AddressesValid(Addresses())
      && CallsKnow(Measures(records, paths), records.Keys, RowKeys(addresses.rows))
    }

    /** All calls are filed as they come out, by these keys. */
    ghost predicate InStep(keys: map<Handle, Address>, groups: map<Handle, GroupKey>)
      reads `stale, calls.lindex, calls.joined, calls.view.uindex
    {
      && stale == {} && calls.lindex.Valid() && calls.view.uindex.Valid()
      && calls.lindex.Keys() == keys && calls.FiledAs(groups)
    }

    ghost predicate Valid()
      reads Repr()
    {
      Coherent() && InStep(JoinKeys(kind, records), Groups(kind, records))
    }

    /** The index by id knows these records. */
    ghost predicate Indexed(known: set<Id>)
      reads byId
    {
      byId.Valid() && byId.Keys() == Ids(known)
    }

    ghost predicate AddressesValid(selected: map<Handle, Address>)
      reads addresses.Repr()
    {
      addresses.IsExact(selected, {}) && addresses.uindex.Keys() == selected
    }

    /** The joined calls, what they measure, which calls there are, and the rows of selected addresses. */
    ghost predicate CallsKnow(measures: map<Handle, Measure>, known: set<Id>, selected: map<Handle, Address>)
      reads `dirty, `stale, calls.Repr()
    {
      && calls.IsExact(measures, dirty, stale)
      && calls.lindex.Valid() && calls.rindex.Valid() && calls.view.uindex.Valid()
      && calls.view.aggregator == SumFlatCalls()
      && calls.lindex.Keys().Keys == known && calls.rindex.Keys() == selected
    }

    constructor (kind: Kind)
      ensures Valid() && records == map[] && selection == map[] && dirty == {} && paths == map[]
      ensures this.kind == kind && fresh(Repr())
    {
      hide LeftCommutative, Exact, Fold, Acyclic, SumFlatCalls, NoAggregation, AddFlat;
      hide Index.Valid, Index.Keys, GroupBy.Valid, GroupBy.IsExact, Join.IsExact, DerivedTable.Valid, Join.FiledAs;
      SumFlatIsFine();
      NoAggregationCommutes();
      this.kind := kind;
      records, paths, selection, dirty, stale := map[], map[], map[], {}, {};
      byId := new Index();
      addresses := new GroupBy(NoAggregation());
      calls := new Join(SumFlatCalls());
      new;
      StartsValid();
    }

    lemma StartsValid()
      requires {this as object, byId} !! addresses.Repr() !! calls.Repr()
      requires records == map[] && paths == map[] && stale == {} && dirty == {} && selection.Keys == {}
      requires byId.Valid() && byId.Keys() == map[] && addresses.IsExact(map[], {})
      requires addresses.uindex.Valid() && addresses.uindex.Keys() == map[]
      requires calls.IsExact(map[], {}, {}) && calls.view.aggregator == SumFlatCalls() && calls.joined.records == map[]
      requires calls.lindex.Valid() && calls.lindex.Keys() == map[]
      requires calls.rindex.Valid() && calls.rindex.Keys() == map[]
      ensures Valid()
    {
      hide Acyclic, SumFlatCalls, Index.Valid, Index.Keys, GroupBy.IsExact, Join.IsExact, DerivedTable.Valid, RightBut;
      NothingToDerive(kind);
      calls.ExactIsSound(map[], {}, {});
      assert calls.view.uindex.Keys().Keys == {};
      NothingIsValid();
    }

    lemma NothingIsValid()
      requires {this as object, byId} !! addresses.Repr() !! calls.Repr()
      requires records == map[] && paths == map[] && stale == {} && selection.Keys == {}
      requires Indexed({}) && AddressesValid(map[]) && CallsGone()
      ensures Valid()
    {
      hide Index.Valid, Index.Keys, DerivedTable.AddressesValid, DerivedTable.CallsKnow, DerivedTable.Indexed;
      NothingToDerive(kind);
      NothingSelectedIsEmpty();
      assert Addresses() == map[];
    }

    lemma NothingSelectedIsEmpty()
      requires AddressesValid(map[])
      ensures addresses.rows == map[] && RowKeys(addresses.rows) == map[]
    {
      addresses.Parts();
      assert forall key :: Matching(addresses.uindex.Keys(), key) == {};
    }

    /** There is no call, and nothing is joined. */
    ghost predicate CallsGone()
      reads `dirty, `stale, calls.Repr()
    {
      && CallsKnow(map[], {}, map[]) && calls.view.uindex.Valid() && calls.lindex.Valid()
      && calls.view.uindex.Keys() == map[] && calls.joined.records == map[] && calls.lindex.Keys() == map[]
    }

    // ---- Looking up the hierarchy ----

    /** Finds a call by its id. */
    method LookUp(id: Id, ghost known: set<Id>) returns (record: Option<CallStatistics>)
      requires Indexed(known) && known <= records.Keys
      ensures record == if id in known then Some(records[id]) else None
    {
      var found := byId.Find(id);
      IdsMatch(known, id);
      record := if found.Some? then Some(records[found.value]) else None;
    }

    method ParentAddressOf(id: Id, ghost known: set<Id>) returns (address: Address)
      requires Indexed(known) && known <= records.Keys && id in records
      ensures address == if records[id].parentId in known then records[records[id].parentId].address else 0
    {
      var parent := LookUp(records[id].parentId, known);
      address := if parent.Some? then parent.value.address else 0;
    }

    /** Climbs up the hierarchy, counting calls to the same function. */
    method ReentranceOf(id: Id) returns (reentrance: nat)
      requires Indexed(records.Keys) && Acyclic(records) && id in records
      ensures reentrance == Reentrance(records, id, records[id].address)
    {
      hide Acyclic, Reentrance, IdPath, Hierarchy.Callers, DerivedTable.Indexed;
      ghost var item := id;
      var address := records[id].address;
      reentrance := 0;
      var parent := LookUp(records[id].parentId, records.Keys);
      Climb(records, id, address);
      while parent.Some?
        invariant item in records
        invariant parent == if records[item].parentId in records then Some(records[records[item].parentId]) else None
        invariant Reentrance(records, id, address) == Reentrance(records, item, address) + reentrance
        decreases item
      {
        Climb(records, item, address);
        item := records[item].parentId;
        reentrance := reentrance + if parent.value.address == address then 1 else 0;
        parent := LookUp(parent.value.parentId, records.Keys);
      }
      Climb(records, item, address);
    }

    /** The group keys of all calls, each looked up; nothing they depend on changes while an event is passed on. */
    method TellGroups() returns (groups: map<Handle, GroupKey>)
      requires Indexed(records.Keys)
      ensures groups == Groups(kind, records)
    {
      hide DerivedTable.Indexed, GroupOf;
      groups := map[];
      var rest := records.Keys;
      while rest != {}
        invariant rest <= records.Keys && groups == Groups(kind, records) - rest
      {
        var id :| id in rest;
        var caller := ParentAddressOf(id, records.Keys);
        groups := groups[id := GroupOf(kind, records[id], caller)];
        rest := rest - {id};
      }
      assert Groups(kind, records) - {} == Groups(kind, records);
    }

    method KnowId(id: Id, ghost known: set<Id>)
      requires Indexed(known) && id !in known
      modifies byId
      ensures Indexed(known + {id})
    {
      hide Index.Valid, Index.Keys, Ids;
      IdsMatch(known, id);
      byId.Created(id, id);
    }

    method ForgetId(id: Id, ghost known: set<Id>)
      requires Indexed(known)
      modifies byId
      ensures Indexed(known - {id})
    {
      hide Index.Valid, Index.Keys, Ids;
      IdsMatch(known, id);
      byId.Removed(id);
    }

    method ForgetAll()
      modifies byId
      ensures Indexed({})
    {
      byId.Cleared();
    }

    // ---- Paths ----

    /** A call works its path out when it is first asked for it, and keeps it. */
    method AskPath(id: Id, ghost known: set<Id>, ghost selected: map<Handle, Address>)
      requires this !in calls.Repr() && CallsKnow(Measures(records, paths), known, selected)
      requires Indexed(records.Keys) && Acyclic(records) && id in records
      modifies `paths
      ensures paths == if id in old(paths) then old(paths)
                       else old(paths)[id := Reentrance(records, id, records[id].address)]
      ensures CallsKnow(Measures(records, paths), known, selected)
    {
      hide Acyclic, Reentrance, Measures, SumFlatCalls, DerivedTable.Indexed, DerivedTable.CallsKnow;
      hide Index.Valid, Index.Keys, Join.IsExact;
      if id !in paths {
        var reentrance := ReentranceOf(id);
        PathKnown(id, reentrance, known, selected);
        paths := paths[id := reentrance];
      }
    }

    lemma PathKnown(id: Id, reentrance: nat, known: set<Id>, selected: map<Handle, Address>)
      requires CallsKnow(Measures(records, paths), known, selected) && id !in paths
      ensures CallsKnow(Measures(records, paths[id := reentrance]), known, selected)
    {
      hide SumFlatCalls, Index.Valid, Index.Keys, RightBut;
      calls.Parts(Measures(records, paths), Undecided(calls.joined.records, dirty), stale);
      calls.LeftWritten(Measures(records, paths), Measures(records, paths[id := reentrance]), dirty, {}, stale);
      assert dirty + {} == dirty;
    }

    method AskPaths(ids: set<Id>, ghost known: set<Id>, ghost selected: map<Handle, Address>)
      requires this !in calls.Repr() && CallsKnow(Measures(records, paths), known, selected)
      requires Indexed(records.Keys) && Acyclic(records) && paths.Keys <= records.Keys && ids <= records.Keys
      modifies `paths
      ensures ids <= paths.Keys <= records.Keys && CallsKnow(Measures(records, paths), known, selected)
      ensures old(PathsRight(records, paths)) ==> PathsRight(records, paths)
      ensures forall id :: id in old(paths) ==> id in paths && paths[id] == old(paths)[id]
    {
      hide Acyclic, Reentrance, Measures, DerivedTable.Indexed, DerivedTable.CallsKnow;
      var rest := ids;
      while rest != {}
        invariant rest <= ids && ids - rest <= paths.Keys <= records.Keys
        invariant CallsKnow(Measures(records, paths), known, selected)
        invariant old(PathsRight(records, paths)) ==> PathsRight(records, paths)
        invariant forall id :: id in old(paths) ==> id in paths && paths[id] == old(paths)[id]
      {
        var id :| id in rest;
        AskPath(id, known, selected);
        rest := rest - {id};
      }
    }

    // ---- What happens to the hierarchy ----

    /** A call seen for the first time. */
    method Append(r: CallStatistics)
      requires Coherent() && r.id !in records && Acyclic(records[r.id := r]) && Childless(records, r.id)
      modifies Repr()
      ensures Coherent() && records == old(records)[r.id := r] && selection == old(selection)
      ensures dirty == old(dirty) && stale == old(stale)
      ensures old(Valid()) ==> Valid()
      ensures old(PathsRight(records, paths)) ==> PathsRight(records, paths)
      ensures RowsKept(old(calls.view.rows), calls.view.rows, {GroupOf(kind, r, ParentAddress(records, r.id))})
    {
      hide Acyclic, RowKeys, JoinKeys, Groups, GroupOf, JoinKeyOf, SumFlatCalls, Reentrance, Measures;
      hide DerivedTable.AddressesValid, DerivedTable.CallsKnow, Index.Valid, Index.Keys, AddressesOf, Ids, RowsKept;
      hide DerivedTable.InStep, DerivedTable.Indexed, ParentAddress, Childless;
      ghost var known, keys, groups := records.Keys, JoinKeys(kind, records), Groups(kind, records);
      AddressesStay(records, selection, r);
      AppendStays(kind, records, paths, r);
      MeasuresWritten(records, paths, r.id, r);
      records := records[r.id := r];
      assert known + {r.id} == records.Keys;
      TellOfCall(r.id, known, RowKeys(addresses.rows), keys, groups);
    }

    /** The index by id learns of a call first; then the join does, by keys looked up in the former. */
    method TellOfCall(id: Id, ghost known: set<Id>, ghost selected: map<Handle, Address>,
                      ghost keys: map<Handle, Address>, ghost groups: map<Handle, GroupKey>)
      requires {this as object, byId} !! addresses.Repr() !! calls.Repr()
      requires Indexed(known) && Acyclic(records) && paths.Keys <= records.Keys && known + {id} == records.Keys
      requires CallsKnow(Measures(records, paths), known, selected)
      requires id !in known && id !in paths && keys.Keys == groups.Keys == known
      modifies byId, `paths, calls.Repr()
      ensures Indexed(records.Keys)
      ensures paths.Keys <= records.Keys && (old(PathsRight(records, paths)) ==> PathsRight(records, paths))
      ensures CallsKnow(Measures(records, paths), known + {id}, selected)
      ensures var caller := ParentAddress(records, id);
        && (old(InStep(keys, groups)) ==>
              InStep(keys[id := JoinKeyOf(kind, records[id], caller)], groups[id := GroupOf(kind, records[id], caller)]))
        && RowsKept(old(calls.view.rows), calls.view.rows, {GroupOf(kind, records[id], caller)})
    {
      hide Acyclic, GroupOf, JoinKeyOf, Reentrance, Measures, DerivedTable.CallsKnow, DerivedTable.Indexed, RowsKept;
      hide DerivedTable.InStep, ParentAddress, PathsRight;
      KnowId(id, known);
      var caller := ParentAddressOf(id, records.Keys);
      CallerOf(records, id);
      JoinCall(id, JoinKeyOf(kind, records[id], caller), GroupOf(kind, records[id], caller), known, selected, keys,
        groups);
    }

    /** A call of the hierarchy is joined to the selected addresses, and asked for its path if there are any. */
    method JoinCall(id: Id, key: Address, group: GroupKey, ghost known: set<Id>, ghost selected: map<Handle, Address>,
                    ghost keys: map<Handle, Address>, ghost groups: map<Handle, GroupKey>)
      requires {this as object, byId} !! addresses.Repr() !! calls.Repr()
      requires Indexed(records.Keys) && Acyclic(records) && paths.Keys <= records.Keys
      requires CallsKnow(Measures(records, paths), known, selected)
      requires id in records && id !in known && id !in paths && keys.Keys == groups.Keys == known
      modifies `paths, calls.Repr()
      ensures paths.Keys <= records.Keys && (old(PathsRight(records, paths)) ==> PathsRight(records, paths))
      ensures CallsKnow(Measures(records, paths), known + {id}, selected)
      ensures old(InStep(keys, groups)) ==> InStep(keys[id := key], groups[id := group])
      ensures RowsKept(old(calls.view.rows), calls.view.rows, {group})
    {
      hide Acyclic, Reentrance, Measures, DerivedTable.CallsKnow, DerivedTable.Indexed, DerivedTable.InStep, RowsKept;
      var matched := HasMatches(key, known, selected);
      if matched {
        AskPath(id, known, selected);
        MeasureKnown(records, paths, id);
      }
      FileCall(id, key, group, Measures(records, paths), known, selected, keys, groups);
    }

    method HasMatches(key: Address, ghost known: set<Id>, ghost selected: map<Handle, Address>) returns (matched: bool)
      requires CallsKnow(Measures(records, paths), known, selected)
      ensures matched <==> Matching(selected, key) != {}
    {
      hide Measures, SumFlatCalls, Index.Valid, Index.Keys, Join.IsExact, Matching;
      var matches := calls.rindex.EqualRange(key);
      matched := matches != {};
    }

    method FileCall(id: Id, key: Address, group: GroupKey, measures: map<Handle, Measure>, ghost known: set<Id>,
                    ghost selected: map<Handle, Address>, ghost keys: map<Handle, Address>,
                    ghost groups: map<Handle, GroupKey>)
      requires this !in calls.Repr() && CallsKnow(measures, known, selected) && id !in known
      requires (Matching(selected, key) != {} ==> id in measures) && keys.Keys == groups.Keys == known
      modifies calls.Repr()
      ensures CallsKnow(measures, known + {id}, selected)
      ensures old(InStep(keys, groups)) ==> InStep(keys[id := key], groups[id := group])
      ensures RowsKept(old(calls.view.rows), calls.view.rows, {group})
    {
      hide SumFlatCalls, Index.Valid, Index.Keys, Join.IsExact, RowsKept, FiledAnew, Told, ToldBy, Matching;
      calls.ExactIsSound(measures, dirty, stale);
      ghost var joined, filed := calls.joined.records, calls.view.uindex.Keys();
      var told := map[id := group];
      calls.OnLeftCreated(id, key, measures, told, dirty, stale);
      calls.ExactIsSound(measures, dirty, stale);
      NewlyFiled(joined, calls.joined.records, filed, calls.view.uindex.Keys(), told, groups, groups[id := group]);
      ToldByOne(id, group);
    }

    /** Accumulating into a record, which says nothing to its listeners yet. */
    method Write(id: Id, statistics: FunctionStatistics)
      requires Coherent() && id in records
      modifies `records, `dirty
      ensures Coherent() && records == old(records)[id := old(records)[id].(statistics := statistics)]
      ensures selection == old(selection) && dirty == old(dirty) + {id} && stale == old(stale)
      ensures old(Valid()) ==> Valid()
      ensures old(PathsRight(records, paths)) ==> PathsRight(records, paths)
    {
      hide Acyclic, RowKeys, JoinKeys, Groups, SumFlatCalls, Measures, PathsRight, AddressesOf;
      hide DerivedTable.AddressesValid, DerivedTable.InStep, DerivedTable.Indexed, DerivedTable.CallsKnow;
      var r := records[id].(statistics := statistics);
      RecordOf(records, id);
      WriteStays(kind, records, paths, r);
      AddressesStay(records, selection, r);
      WriteCall(id, r, RowKeys(addresses.rows));
    }

    method WriteCall(id: Id, r: CallStatistics, ghost selected: map<Handle, Address>)
      requires this !in calls.Repr() && id in records && CallsKnow(Measures(records, paths), records.Keys, selected)
      modifies `records, `dirty
      ensures records == old(records)[id := r] && dirty == old(dirty) + {id}
      ensures CallsKnow(Measures(records, paths), records.Keys, selected)
    {
      hide SumFlatCalls, Index.Valid, Index.Keys, Join.IsExact, Measures;
      MeasuresWritten(records, paths, id, r);
      calls.ExactIsSound(Measures(records, paths), dirty, stale);
      calls.LeftWritten(Measures(records, paths), Measures(records[id := r], paths), dirty, {id}, stale);
      records, dirty := records[id := r], dirty + {id};
      assert records.Keys == old(records).Keys;
    }

    /** What is left behind if a call is told to be of a group, by the groups it is filed under. */
    ghost function Astray(id: Id, group: GroupKey): set<GroupKey>
      requires calls.view.uindex.Valid()
      reads calls.joined, calls.view.uindex
    {
      Strays(calls.view.uindex.Keys(), Told(calls.joined.records, map[id := group]),
        LeftPairs(calls.joined.records, id))
    }

    /**
      Commits what was written to a record. The row that is summed up anew is that of the group the call comes out
      with; should it be filed under another one, that one's row stays as it was.
    */
    method Commit(id: Id)
      requires Coherent() && id in records && calls.view.uindex.Valid()
      modifies `dirty, `stale, calls.Repr()
      ensures Coherent() && records == old(records) && selection == old(selection) && dirty == old(dirty) - {id}
      ensures old(Valid()) ==> Valid()
      ensures var group := GroupOf(kind, records[id], ParentAddress(records, id));
        && stale == old(stale) + old(Astray(id, group))
        && RowsKept(old(calls.view.rows), calls.view.rows, {group})
        && (old(LeftPairs(calls.joined.records, id)) != {} ==> ShowsFiled(group))
      ensures calls.view.uindex.Valid() && forall key :: FiledGroup(key) == old(FiledGroup(key))
    {
      hide Acyclic, RowKeys, JoinKeys, Groups, GroupOf, SumFlatCalls, Measures, AddressesOf, RowsKept, LeftPairs;
      hide DerivedTable.AddressesValid, DerivedTable.InStep, DerivedTable.Indexed, DerivedTable.CallsKnow;
      hide DerivedTable.Astray, DerivedTable.ShowsFiled, ParentAddress, FiledIn;
      var caller := ParentAddressOf(id, records.Keys);
      CallerOf(records, id);
      KnownOf(kind, records, id);
      CommitCall(id, GroupOf(kind, records[id], caller), Measures(records, paths), records.Keys,
        RowKeys(addresses.rows), JoinKeys(kind, records), Groups(kind, records));
    }

    /** The row of a group holds the sum of what is filed under it. */
    ghost predicate ShowsFiled(key: GroupKey)
      reads `records, `paths, calls.Repr()
    {
      calls.view.uindex.Valid() && HasRow(calls.view.rows, calls.view.uindex.Keys(),
        Worth(calls.joined.records, Measures(records, paths)), SumFlatCalls(), key)
    }

    method CommitCall(id: Id, group: GroupKey, measures: map<Handle, Measure>, ghost known: set<Id>,
                      ghost selected: map<Handle, Address>, ghost keys: map<Handle, Address>,
                      ghost groups: map<Handle, GroupKey>)
      requires this !in calls.Repr() && CallsKnow(measures, known, selected) && id in groups && groups[id] == group
      requires calls.view.uindex.Valid() && measures == Measures(records, paths)
      modifies `dirty, `stale, calls.Repr()
      ensures CallsKnow(measures, known, selected) && dirty == old(dirty) - {id}
      ensures stale == old(stale) + old(Astray(id, group))
      ensures old(InStep(keys, groups)) ==> InStep(keys, groups)
      ensures RowsKept(old(calls.view.rows), calls.view.rows, {group})
      ensures old(LeftPairs(calls.joined.records, id)) != {} ==> ShowsFiled(group)
      ensures calls.view.uindex.Valid() && forall key :: FiledGroup(key) == old(FiledGroup(key))
    {
      hide SumFlatCalls, Index.Valid, Index.Keys, Join.IsExact, RowsKept, Told, Strays, HasRow, Worth, LeftPairs;
      hide FiledIn, Measures;
      calls.ExactIsSound(measures, dirty, stale);
      ghost var joined, filed := calls.joined.records, calls.view.uindex.Keys();
      NotAstray(joined, filed, groups, map[id := group], LeftPairs(joined, id));
      ghost var strays := Astray(id, group);
      calls.OnLeftModified(id, measures, map[id := group], dirty, stale);
      dirty, stale := dirty - {id}, stale + strays;
    }

    /** The calls filed under a group. */
    ghost function FiledGroup(key: GroupKey): set<Handle>
      requires calls.view.uindex.Valid()
      reads calls.joined, calls.view.uindex
    {
      FiledIn(calls.joined.records, calls.view.uindex.Keys(), key)
    }

    /**
      A call goes. The indexes of the hierarchy forget it, last made first: the join's, then the one by id. With the
      latter the group it is in is told, by which its row is found; and then the record is no more. Should it be filed
      under another group, that one's row stays as it was.
    */
    method Remove(id: Id)
      requires Coherent() && id in records && id !in selection.Values && calls.view.uindex.Valid()
      modifies Repr()
      ensures Coherent() && records == old(records) - {id} && paths == old(paths) - {id}
      ensures selection == old(selection) && dirty == old(dirty) - {id}
      ensures var group := old(GroupOf(kind, records[id], ParentAddress(records, id)));
        && stale == old(stale) + old(Astray(id, group))
        && RowsKept(old(calls.view.rows), calls.view.rows, {group})
      ensures calls.view.uindex.Valid() && forall key :: FiledGroup(key) == old(FiledGroup(key)) - {id}
      ensures old(Valid()) ==> stale == {} && (Valid() <==> Harmless(kind, old(records), Chosen(), id))
      ensures old(PathsRight(records, paths)) && Childless(old(records), id) ==> PathsRight(records, paths)
    {
      hide Acyclic, RowKeys, JoinKeys, Groups, GroupOf, SumFlatCalls, Measures, AddressesOf, RowsKept, LeftPairs;
      hide DerivedTable.AddressesValid, DerivedTable.InStep, DerivedTable.Indexed, DerivedTable.CallsKnow, FiledIn;
      hide DerivedTable.Astray, ParentAddress, PathsRight, Childless, Harmless;
      ghost var before, selected := records, RowKeys(addresses.rows);
      ghost var keys, groups := JoinKeys(kind, records), Groups(kind, records);
      GoneIsFine(kind, records, paths, id);
      AddressesStay(records, selection, records[id]);
      ChosenAreRows();
      DropCall(id, Measures(records, paths), selected, keys, groups);
      MeasuresGone(records, paths, id);
      records, paths := records - {id}, paths - {id};
      if InStep(keys - {id}, groups - {id}) {
        InStepStill(before, id, selected);
      }
    }

    lemma ChosenAreRows()
      requires AddressesValid(Addresses())
      ensures RowKeys(addresses.rows).Values == Chosen()
    {
      hide LeftCommutative, Fold, AddressesOf, Index.Valid, Index.Keys;
      addresses.Parts();
      RowsAreSelected(Addresses(), addresses.rows);
    }

    /** A call is dropped, together with what is known of it. */
    method DropCall(id: Id, measures: map<Handle, Measure>, ghost selected: map<Handle, Address>,
                    ghost keys: map<Handle, Address>, ghost groups: map<Handle, GroupKey>)
      requires {this as object, byId} !! addresses.Repr() !! calls.Repr()
      requires Indexed(records.Keys) && Acyclic(records) && id in records && calls.view.uindex.Valid()
      requires CallsKnow(measures, records.Keys, selected)
      requires keys == JoinKeys(kind, records) && groups == Groups(kind, records)
      modifies byId, `dirty, `stale, calls.Repr()
      ensures Indexed(records.Keys - {id}) && dirty == old(dirty) - {id} && calls.view.uindex.Valid()
      ensures CallsKnow(measures - {id}, records.Keys - {id}, selected)
      ensures var group := GroupOf(kind, records[id], ParentAddress(records, id));
        && stale == old(stale) + old(Astray(id, group))
        && RowsKept(old(calls.view.rows), calls.view.rows, {group})
      ensures forall key :: FiledGroup(key) == old(FiledGroup(key)) - {id}
      ensures old(InStep(keys, groups)) ==> InStep(keys - {id}, groups - {id}) && stale == {}
    {
      hide Acyclic, JoinKeys, Groups, GroupOf, SumFlatCalls, RowsKept, DerivedTable.CallsKnow, DerivedTable.Indexed;
      hide DerivedTable.InStep, DerivedTable.Forgotten, ParentAddress, FiledIn, Strays, Told, LeftPairs;
      hide Index.Valid, Index.Keys, Join.IsExact, Join.Tracks, Join.FiledAs;
      KnownOf(kind, records, id);
      ghost var lkeys := ForgetCall(id, measures, records.Keys, selected, keys, groups);
      var caller := ParentAddressOf(id, records.Keys - {id});
      NotItsOwnCaller(records, id);
      DropPairs(id, GroupOf(kind, records[id], caller), measures, lkeys, selected, keys, groups);
    }

    /** The indexes of the hierarchy forget a call, last made first. */
    method ForgetCall(id: Id, ghost measures: map<Handle, Measure>, ghost known: set<Id>,
                      ghost selected: map<Handle, Address>, ghost keys: map<Handle, Address>,
                      ghost groups: map<Handle, GroupKey>) returns (ghost lkeys: map<Handle, Address>)
      requires {this as object, byId} !! calls.Repr() && Indexed(known) && CallsKnow(measures, known, selected)
      modifies byId, calls.lindex
      ensures Indexed(known - {id}) && Forgotten(id, measures, lkeys, selected) && lkeys.Keys == known
      ensures calls.view.uindex.Valid()
      ensures old(InStep(keys, groups)) ==> lkeys == keys && stale == {} && calls.FiledAs(groups)
    {
      hide SumFlatCalls, Index.Valid, Index.Keys, Join.IsExact, Join.Tracks, Join.Complete, DerivedTable.Indexed;
      calls.ExactIsSound(measures, dirty, stale);
      lkeys := calls.lindex.Keys();
      calls.ForgetLeft(id, measures, dirty, stale);
      ForgetId(id, known);
    }

    /** The index of the join has forgotten a call whose pairs are there still. */
    ghost predicate Forgotten(id: Id, measures: map<Handle, Measure>, lkeys: map<Handle, Address>,
                              selected: map<Handle, Address>)
      reads `dirty, `stale, calls.Repr()
    {
      && calls.Tracks(measures, Undecided(calls.joined.records, dirty), stale)
      && calls.lindex.Valid() && calls.rindex.Valid() && calls.view.uindex.Valid() && calls.Complete(lkeys)
      && calls.lindex.Keys() == lkeys - {id} && calls.rindex.Keys() == selected
      && calls.view.aggregator == SumFlatCalls()
    }

    method DropPairs(id: Id, group: GroupKey, measures: map<Handle, Measure>, ghost lkeys: map<Handle, Address>,
                     ghost selected: map<Handle, Address>, ghost keys: map<Handle, Address>,
                     ghost groups: map<Handle, GroupKey>)
      requires this !in calls.Repr() && Forgotten(id, measures, lkeys, selected) && calls.view.uindex.Valid()
      requires id in groups && groups[id] == group
      modifies `dirty, `stale, calls.ViewRepr()
      ensures dirty == old(dirty) - {id} && CallsKnow(measures - {id}, lkeys.Keys - {id}, selected)
      ensures stale == old(stale) + old(Astray(id, group)) && calls.view.uindex.Valid()
      ensures RowsKept(old(calls.view.rows), calls.view.rows, {group})
      ensures forall key :: FiledGroup(key) == old(FiledGroup(key)) - {id}
      ensures lkeys == keys && old(stale == {} && calls.FiledAs(groups)) ==>
        InStep(keys - {id}, groups - {id}) && stale == {}
    {
      hide SumFlatCalls, Index.Valid, Index.Keys, Join.IsExact, Join.Tracks, RowsKept, Told, Strays, LeftPairs, FiledIn;
      hide Matches, PairsOf, Undecided;
      ghost var joined, filed := calls.joined.records, calls.view.uindex.Keys();
      NotAstray(joined, filed, groups, map[id := group], LeftPairs(joined, id));
      FiledWithout(joined, filed, id);
      ToldWithoutLeft(joined, groups, id);
      ghost var strays := Astray(id, group);
      calls.DropLeft(id, measures, map[id := group], dirty, stale, lkeys);
      dirty, stale := dirty - {id}, stale + strays;
      CallForgotten(id, measures, lkeys.Keys - {id}, selected);
    }

    lemma CallForgotten(id: Id, measures: map<Handle, Measure>, known: set<Id>, selected: map<Handle, Address>)
      requires CallsKnow(measures, known, selected) && id !in known
      ensures CallsKnow(measures - {id}, known, selected)
    {
      hide SumFlatCalls, Index.Valid, Index.Keys, Join.IsExact;
      calls.NoPairsLeft(id, measures, dirty, stale);
      calls.ExactIsSound(measures, dirty, stale);
      calls.LeftWritten(measures, measures - {id}, dirty, {}, stale);
      assert dirty + {} == dirty;
    }

    /** Exactly when the calls left come out as they are filed still. */
    lemma InStepStill(before: Records, id: Id, selected: map<Handle, Address>)
      requires Acyclic(before) && id in before && records == before - {id} && Acyclic(records)
      requires CallsKnow(Measures(records, paths), records.Keys, selected)
      requires InStep(JoinKeys(kind, before) - {id}, Groups(kind, before) - {id})
      ensures InStep(JoinKeys(kind, records), Groups(kind, records)) <==> Harmless(kind, before, selected.Values, id)
    {
      hide Measures, SumFlatCalls, Index.Valid, Index.Keys, Join.IsExact;
      calls.ExactIsSound(Measures(records, paths), dirty, stale);
      StepKept(kind, before, id, selected, calls.joined.records, calls.view.uindex.Keys());
    }

    // ---- What happens to the selection ----

    /** All that would be left behind if every joined call were told the group it comes out with. */
    ghost function AllAstray(): set<GroupKey>
      requires calls.view.uindex.Valid()
      reads `records, calls.joined, calls.view.uindex
    {
      Strays(calls.view.uindex.Keys(), Told(calls.joined.records, Groups(kind, records)), calls.joined.records.Keys)
    }

    /** The groups that calls with a join key come out with. */
    ghost function GroupsTold(address: Address): set<GroupKey>
      requires calls.lindex.Valid()
      reads `records, calls.lindex
    {
      ToldBy(Groups(kind, records), Matching(calls.lindex.Keys(), address))
    }

    /** Selects a record; its address may be selected already. */
    method Select(h: Handle, id: Id)
      requires Coherent() && h !in selection && id in records && calls.lindex.Valid() && calls.view.uindex.Valid()
      modifies `selection, `paths, `stale, addresses.Repr(), calls.Repr()
      ensures Coherent() && records == old(records) && selection == old(selection)[h := id] && dirty == old(dirty)
      ensures old(stale) <= stale <= old(stale) + old(AllAstray())
      ensures RowsKept(old(calls.view.rows), calls.view.rows, old(GroupsTold(records[id].address)))
      ensures old(Valid()) ==> Valid()
      ensures old(PathsRight(records, paths)) ==> PathsRight(records, paths)
    {
      hide Acyclic, RowKeys, RowsAfter, AddressesOf, Ids, JoinKeys, Groups, Measures, RowsKept, PathsRight;
      hide Index.Valid, Index.Keys, DerivedTable.CallsKnow, DerivedTable.AddressesValid, DerivedTable.InStep;
      hide DerivedTable.Indexed, DerivedTable.AllAstray, DerivedTable.GroupsTold;
      ghost var rows := addresses.rows;
      var record := LookUp(id, records.Keys);
      SelectionStep(records, selection, h, id);
      var event := AddAddress(h, record.value.address, Addresses());
      PassOn(event, record.value.address, rows, JoinKeys(kind, records));
      selection := selection[h := id];
      assert AddressesValid(Addresses());
    }

    method AddAddress(h: Handle, address: Address, selected: map<Handle, Address>) returns (event: RowEvent)
      requires AddressesValid(selected) && h !in selected
      modifies addresses.Repr()
      ensures AddressesValid(selected[h := address]) && RowsAfter(old(addresses.rows), addresses.rows, address, event)
    {
      hide Exact, Covers, LeftCommutative, Fold, RowsAfter, Index.Valid, Index.Keys, GroupBy.Valid, GroupBy.Sound;
      hide Recomputed;
      var after := selected[h := address];
      addresses.Parts();
      addresses.ValidIsSound();
      WriteKeepsExact(addresses.uindex.Keys(), addresses.rows, selected, after, addresses.aggregator, {}, {});
      ghost var none: set<Handle> := {};
      assert none - {h} == none && none + none == none;
      event := addresses.OnCreated(h, address, after, {});
    }

    /** Takes a record out of the selection; the address stays as long as another selected record has it. */
    method Unselect(h: Handle)
      requires Coherent() && h in selection && calls.lindex.Valid() && calls.view.uindex.Valid()
      modifies `selection, `paths, `stale, addresses.Repr(), calls.Repr()
      ensures Coherent() && records == old(records) && selection == old(selection) - {h} && dirty == old(dirty)
      ensures old(stale) <= stale <= old(stale) + old(AllAstray())
      ensures old(selection)[h] in records
      ensures RowsKept(old(calls.view.rows), calls.view.rows, old(GroupsTold(records[selection[h]].address)))
      ensures old(Valid()) ==> Valid()
      ensures old(PathsRight(records, paths)) ==> PathsRight(records, paths)
    {
      hide Acyclic, RowKeys, RowsAfter, AddressesOf, Ids, JoinKeys, Groups, Measures, RowsKept, PathsRight;
      hide Index.Valid, Index.Keys, DerivedTable.CallsKnow, DerivedTable.AddressesValid, DerivedTable.InStep;
      hide DerivedTable.Indexed, DerivedTable.AllAstray, DerivedTable.GroupsTold;
      ghost var rows := addresses.rows;
      SelectionStep(records, selection, h, selection[h]);
      var record := LookUp(selection[h], records.Keys);
      var event := DropAddress(h, record.value.address, Addresses());
      PassOn(event, record.value.address, rows, JoinKeys(kind, records));
      selection := selection - {h};
    }

    method DropAddress(h: Handle, address: Address, selected: map<Handle, Address>) returns (event: RowEvent)
      requires AddressesValid(selected) && h in selected && selected[h] == address
      modifies addresses.Repr()
      ensures AddressesValid(selected - {h}) && RowsAfter(old(addresses.rows), addresses.rows, address, event)
    {
      hide Exact, Covers, LeftCommutative, Fold, RowsAfter, Index.Valid, Index.Keys, GroupBy.Valid, GroupBy.Sound;
      addresses.Parts();
      addresses.ValidIsSound();
      event := addresses.OnRemoved(h, address, selected, {});
      ghost var none: set<Handle> := {};
      assert none - {h} == none && none + none == none;
      addresses.Parts();
      WriteKeepsExact(addresses.uindex.Keys(), addresses.rows, selected, selected - {h}, addresses.aggregator, {}, {});
    }

    /** What happened to the selected addresses is passed on to the joined calls, with groups looked up anew. */
    method PassOn(event: RowEvent, address: Address, ghost rows: map<Handle, Row<Address, ()>>,
                  ghost keys: map<Handle, Address>)
      requires {this as object, byId} !! addresses.Repr() !! calls.Repr()
      requires Indexed(records.Keys) && Acyclic(records) && paths.Keys <= records.Keys
      requires CallsKnow(Measures(records, paths), records.Keys, RowKeys(rows))
      requires RowsAfter(rows, addresses.rows, address, event) && calls.lindex.Valid() && calls.view.uindex.Valid()
      modifies `paths, `stale, calls.Repr()
      ensures paths.Keys <= records.Keys && (old(PathsRight(records, paths)) ==> PathsRight(records, paths))
      ensures CallsKnow(Measures(records, paths), records.Keys, RowKeys(addresses.rows))
      ensures old(stale) <= stale <= old(stale) + old(AllAstray())
      ensures old(InStep(keys, Groups(kind, records))) ==> InStep(keys, Groups(kind, records))
      ensures RowsKept(old(calls.view.rows), calls.view.rows, old(GroupsTold(address)))
    {
      hide Acyclic, RowKeys, RowsAfter, Measures, Groups, RowsKept, Index.Valid, Index.Keys, PathsRight;
      hide DerivedTable.CallsKnow, DerivedTable.InStep, DerivedTable.Indexed, DerivedTable.AllAstray;
      hide DerivedTable.GroupsTold;
      RowKeysChange(rows, addresses.rows, address, event);
      var groups := TellGroups();
      match event
      case RowCreated(a) => JoinRow(a, address, groups, RowKeys(rows), keys);
      case RowModified(a) => TouchRow(a, address, groups, Measures(records, paths), RowKeys(rows), keys);
      case RowRemoved(a) => DropRow(a, address, groups, Measures(records, paths), RowKeys(rows), keys);
      case RowDiscarded(a) => DropRow(a, address, groups, Measures(records, paths), RowKeys(rows), keys);
    }

    method JoinRow(a: Handle, address: Address, groups: map<Handle, GroupKey>, ghost selected: map<Handle, Address>,
                   ghost keys: map<Handle, Address>)
      requires this !in calls.Repr() && groups == Groups(kind, records)
      requires Indexed(records.Keys) && Acyclic(records) && paths.Keys <= records.Keys && a !in selected
      requires CallsKnow(Measures(records, paths), records.Keys, selected) && calls.lindex.Valid()
      modifies `paths, calls.Repr()
      ensures paths.Keys <= records.Keys && (old(PathsRight(records, paths)) ==> PathsRight(records, paths))
      ensures CallsKnow(Measures(records, paths), records.Keys, selected[a := address])
      ensures old(InStep(keys, groups)) ==> InStep(keys, groups)
      ensures RowsKept(old(calls.view.rows), calls.view.rows, old(GroupsTold(address)))
    {
      hide Acyclic, Measures, DerivedTable.CallsKnow, DerivedTable.Indexed, DerivedTable.InStep, RowsKept, Groups;
      hide DerivedTable.GroupsTold, PathsRight, Matching, Index.Valid, Index.Keys;
      var ls := CallsOf(address, records.Keys, selected);
      AskPaths(ls, records.Keys, selected);
      AllMeasured(records, paths, ls);
      FileRow(a, address, groups, Measures(records, paths), records.Keys, selected, keys);
    }

    method CallsOf(address: Address, ghost known: set<Id>, ghost selected: map<Handle, Address>)
        returns (ls: set<Handle>)
      requires CallsKnow(Measures(records, paths), known, selected) && calls.lindex.Valid()
      ensures ls == Matching(calls.lindex.Keys(), address) && ls <= known
    {
      hide Measures, SumFlatCalls, Index.Valid, Index.Keys, Join.IsExact;
      ls := calls.lindex.EqualRange(address);
    }

    method FileRow(a: Handle, address: Address, groups: map<Handle, GroupKey>, measures: map<Handle, Measure>,
                   ghost known: set<Id>, ghost selected: map<Handle, Address>, ghost keys: map<Handle, Address>)
      requires this !in calls.Repr() && CallsKnow(measures, known, selected) && a !in selected && calls.lindex.Valid()
      requires groups == Groups(kind, records) && known == records.Keys
      requires Matching(calls.lindex.Keys(), address) <= measures.Keys
      modifies calls.Repr()
      ensures CallsKnow(measures, known, selected[a := address])
      ensures old(InStep(keys, groups)) ==> InStep(keys, groups)
      ensures RowsKept(old(calls.view.rows), calls.view.rows, old(GroupsTold(address)))
    {
      hide SumFlatCalls, Index.Valid, Index.Keys, Join.IsExact, RowsKept, FiledAnew, Told, ToldBy, Groups;
      calls.ExactIsSound(measures, dirty, stale);
      ghost var joined, filed := calls.joined.records, calls.view.uindex.Keys();
      MatchingWithin(calls.lindex.Keys(), address);
      calls.OnRightCreated(a, address, measures, groups, dirty, stale);
      calls.ExactIsSound(measures, dirty, stale);
      NewlyFiled(joined, calls.joined.records, filed, calls.view.uindex.Keys(), groups, groups, groups);
    }

    method TouchRow(a: Handle, address: Address, groups: map<Handle, GroupKey>, measures: map<Handle, Measure>,
                    ghost selected: map<Handle, Address>, ghost keys: map<Handle, Address>)
      requires this !in calls.Repr() && CallsKnow(measures, records.Keys, selected)
      requires groups == Groups(kind, records) && a in selected && selected[a] == address
      requires calls.lindex.Valid() && calls.view.uindex.Valid()
      modifies `stale, calls.Repr()
      ensures CallsKnow(measures, records.Keys, selected)
      ensures old(stale) <= stale <= old(stale) + old(AllAstray())
      ensures old(InStep(keys, groups)) ==> InStep(keys, groups)
      ensures RowsKept(old(calls.view.rows), calls.view.rows, old(GroupsTold(address)))
    {
      hide SumFlatCalls, Index.Valid, Index.Keys, Join.IsExact, RowsKept, Told, ToldBy, Groups, Strays, Among, Matching;
      hide Matches, PairsOf;
      calls.ExactIsSound(measures, dirty, stale);
      ghost var joined, filed, rows := calls.joined.records, calls.view.uindex.Keys(), calls.view.rows;
      ghost var js := RightPairs(joined, a);
      ToldOfRow(joined, filed, groups, calls.lindex.Keys(), selected, a);
      NotAstray(joined, filed, groups, groups, js);
      calls.OnRightModified(a, measures, groups, dirty, stale);
      stale := stale + Strays(filed, Told(joined, groups), js);
      MoreKept(rows, calls.view.rows, Among(Told(joined, groups), js), old(GroupsTold(address)));
    }

    method DropRow(a: Handle, address: Address, groups: map<Handle, GroupKey>, measures: map<Handle, Measure>,
                   ghost selected: map<Handle, Address>, ghost keys: map<Handle, Address>)
      requires this !in calls.Repr() && CallsKnow(measures, records.Keys, selected)
      requires groups == Groups(kind, records) && (a in selected ==> selected[a] == address)
      requires calls.lindex.Valid() && calls.view.uindex.Valid()
      modifies `stale, calls.Repr()
      ensures CallsKnow(measures, records.Keys, selected - {a})
      ensures old(stale) <= stale <= old(stale) + old(AllAstray())
      ensures old(InStep(keys, groups)) ==> InStep(keys, groups)
      ensures RowsKept(old(calls.view.rows), calls.view.rows, old(GroupsTold(address)))
    {
      hide SumFlatCalls, Index.Valid, Index.Keys, Join.IsExact, RowsKept, Told, ToldBy, Groups, Strays, Among, Matching;
      hide Matches, PairsOf;
      calls.ExactIsSound(measures, dirty, stale);
      ghost var joined, filed, rows := calls.joined.records, calls.view.uindex.Keys(), calls.view.rows;
      ghost var js := RightPairs(joined, a);
      ToldOfRow(joined, filed, groups, calls.lindex.Keys(), selected, a);
      NotAstray(joined, filed, groups, groups, js);
      calls.OnRightRemoved(a, measures, groups, dirty, stale);
      stale := stale + Strays(filed, Told(joined, groups), js);
      ToldWithout(joined, groups, js);
      MoreKept(rows, calls.view.rows, Among(Told(joined, groups), js), old(GroupsTold(address)));
    }

    method ClearSelection()
      requires Coherent()
      modifies `selection, `dirty, `stale, addresses.Repr(), calls.Repr()
      ensures Coherent() && records == old(records) && selection.Keys == {} && dirty == {} && stale == {}
      ensures calls.view.rows == map[] && paths == old(paths)
      ensures old(Valid()) ==> Valid()
    {
      hide Acyclic, RowKeys, AddressesOf, Ids, JoinKeys, Groups, Measures, PathsRight;
      hide Index.Valid, Index.Keys, DerivedTable.CallsKnow, DerivedTable.AddressesValid, DerivedTable.InStep;
      hide DerivedTable.Indexed;
      ghost var keys := JoinKeys(kind, records);
      ForgetAddresses();
      ForgetRows(Measures(records, paths), records.Keys, RowKeys(old(addresses.rows)), keys);
      selection := map[];
      NothingSelected(records, selection);
    }

    method ForgetAddresses()
      requires AddressesValid(Addresses())
      modifies addresses.Repr()
      ensures AddressesValid(map[]) && RowKeys(addresses.rows) == map[]
    {
      hide Exact, Covers, LeftCommutative, Fold, AddressesOf, Index.Valid, Index.Keys, GroupBy.Valid;
      addresses.Parts();
      addresses.ValidIsSound();
      addresses.OnCleared();
      addresses.Parts();
      NoRows(addresses.aggregator);
    }

    method ForgetRows(ghost measures: map<Handle, Measure>, ghost known: set<Id>,
                      ghost selected: map<Handle, Address>, ghost keys: map<Handle, Address>)
      requires this !in calls.Repr() && CallsKnow(measures, known, selected)
      modifies `dirty, `stale, calls.Repr()
      ensures dirty == {} && stale == {} && calls.view.rows == map[] && CallsKnow(measures, known, map[])
      ensures old(InStep(keys, Groups(kind, records))) ==> InStep(keys, Groups(kind, records))
    {
      hide SumFlatCalls, Index.Valid, Index.Keys, Join.IsExact, Groups;
      calls.ExactIsSound(measures, dirty, stale);
      calls.OnRightCleared(measures);
      dirty, stale := {}, {};
    }

    /** The hierarchy may only be cleared once nothing of it is selected. */
    method ClearHierarchy()
      requires Coherent() && selection.Keys == {}
      modifies Repr()
      ensures Valid() && records.Keys == {} && selection == old(selection) && dirty == {} && paths == map[]
      ensures calls.view.rows == map[]
    {
      hide Acyclic, RowKeys, Measures, AddressesOf, Ids, Index.Valid, Index.Keys;
      hide DerivedTable.AddressesValid, DerivedTable.CallsKnow, DerivedTable.Indexed, DerivedTable.CallsGone;
      hide DerivedTable.Valid, JoinKeys, Groups;
      assert Addresses() == map[] by {
        NothingSelected(records, selection);
      }
      NothingSelectedIsEmpty();
      ForgetCalls(Measures(records, paths), records.Keys);
      ForgetRecords();
    }

    method ForgetRecords()
      requires {this as object, byId} !! addresses.Repr() !! calls.Repr()
      requires AddressesValid(map[]) && CallsGone() && stale == {} && selection.Keys == {}
      modifies byId, `records, `paths
      ensures Valid() && records.Keys == {} && paths == map[]
    {
      hide Index.Valid, Index.Keys, DerivedTable.AddressesValid, DerivedTable.Indexed, DerivedTable.CallsGone;
      hide DerivedTable.Valid;
      records, paths := map[], map[];
      ForgetAll();
      NothingIsValid();
    }

    method ForgetCalls(ghost measures: map<Handle, Measure>, ghost known: set<Id>)
      requires this !in calls.Repr() && CallsKnow(measures, known, map[])
      modifies `dirty, `stale, calls.Repr()
      ensures dirty == {} && stale == {} && calls.view.rows == map[] && CallsGone()
    {
      hide SumFlatCalls, Index.Valid, Index.Keys, Join.IsExact;
      calls.ExactIsSound(measures, dirty, stale);
      calls.OnLeftCleared(map[]);
      dirty, stale := {}, {};
    }

    // ---- What the table shows ----

    /** A row for exactly the groups the query finds, one each, with what it computes. */
    ghost predicate Shows()
      reads this, calls.view
    {
      && Acyclic(records)
      && (forall key :: (exists r :: r in calls.view.rows && calls.view.rows[r].key == key)
                   <==> QueryGroup(kind, records, Chosen(), key) != {})
      && (forall r :: r in calls.view.rows ==>
            calls.view.rows[r].value == Query(kind, records, paths, Chosen(), calls.view.rows[r].key))
      && OneRowPerKey(calls.view.rows)
    }

    /** All groups but stale ones have a row just if a call is filed under them; it sums up what is filed there. */
    ghost predicate RowsAreFiled()
      reads `records, `paths, `stale, calls.joined, calls.view, calls.view.uindex
    {
      && calls.view.uindex.Valid() && OneRowPerKey(calls.view.rows)
      && (forall key :: key !in stale ==>
            ((exists r :: r in calls.view.rows && calls.view.rows[r].key == key) <==> FiledGroup(key) != {}))
      && (forall r :: r in calls.view.rows && calls.view.rows[r].key !in stale ==>
            && FiledGroup(calls.view.rows[r].key) <= Measures(records, paths).Keys
            && calls.view.rows[r].value
               == Fold(FiledGroup(calls.view.rows[r].key), Measures(records, paths), Zero(), AddFlat))
    }

    /** Whatever went before what, with every write committed. */
    lemma ResultIsFiled()
      requires Coherent() && dirty == {}
      ensures RowsAreFiled()
    {
      hide Acyclic, Measures, Fold, AddFlat, Index.Valid, Index.Keys, AddressesOf, RowKeys, FiledIn, Worth, KeyRight;
      hide Matching, Matches, PairsOf, Filed, DerivedTable.Indexed, DerivedTable.AddressesValid;
      var measures := Measures(records, paths);
      calls.Parts(measures, Undecided(calls.joined.records, dirty), stale);
      assert Undecided(calls.joined.records, dirty) == {};
      RowsApart();
      forall key | key !in stale
        ensures (exists r :: r in calls.view.rows && calls.view.rows[r].key == key) <==> FiledGroup(key) != {}
        ensures FiledGroup(key) <= measures.Keys
        ensures forall r :: r in calls.view.rows && calls.view.rows[r].key == key ==>
          calls.view.rows[r].value == Fold(FiledGroup(key), measures, Zero(), AddFlat)
      {
        PairsStandForCalls(calls.joined.records, calls.view.uindex.Keys(), measures, calls.lindex.Keys(),
          calls.rindex.Keys(), key);
        RightRow(calls.view.uindex.Keys(), calls.view.rows, Worth(calls.joined.records, measures), key);
      }
    }

    /** The row that was summed up anew for a group holds what is filed there, even if that is nothing. */
    lemma FiledRow(key: GroupKey)
      requires Coherent() && ShowsFiled(key)
      ensures FiledGroup(key) <= Measures(records, paths).Keys
      ensures var sum := Fold(FiledGroup(key), Measures(records, paths), Zero(), AddFlat);
        exists r :: r in calls.view.rows && calls.view.rows[r] == Row(key, sum)
    {
      hide Acyclic, Measures, Fold, AddFlat, Index.Valid, Index.Keys, AddressesOf, RowKeys, FiledIn, Worth, RightBut;
      hide Matching, Matches, PairsOf, Filed, DerivedTable.Indexed, DerivedTable.AddressesValid;
      var measures := Measures(records, paths);
      calls.Parts(measures, Undecided(calls.joined.records, dirty), stale);
      RowsApart();
      PairsStandForCalls(calls.joined.records, calls.view.uindex.Keys(), measures, calls.lindex.Keys(),
        calls.rindex.Keys(), key);
    }

    /** A call that is filed anywhere has joined records. */
    lemma FiledHasPairs(key: GroupKey, id: Id)
      requires calls.view.uindex.Valid() && id in FiledGroup(key)
      ensures LeftPairs(calls.joined.records, id) != {}
    {
      var j :| j in Matching(calls.view.uindex.Keys(), key) && j in calls.joined.records
        && calls.joined.records[j].left == id;
      assert j in LeftPairs(calls.joined.records, id);
    }

    lemma RowsApart()
      requires AddressesValid(Addresses())
      ensures var keys := RowKeys(addresses.rows);
        forall a, b :: a in keys && b in keys && keys[a] == keys[b] ==> a == b
    {
      hide LeftCommutative, Fold, AddressesOf, Index.Valid, Index.Keys;
      addresses.Parts();
    }

    /** As long as calls are filed as they come out, what is filed under a group is what the query selects. */
    lemma FiledIsQuery(key: GroupKey)
      requires Valid()
      ensures calls.view.uindex.Valid() && FiledGroup(key) == QueryGroup(kind, records, Chosen(), key)
    {
      hide Acyclic, Measures, AddFlat, Index.Valid, Index.Keys, AddressesOf, RowKeys, FiledIn, QueryGroup, JoinKeys;
      hide Groups, Matches, PairsOf, Told, Join.IsExact, DerivedTable.Indexed, DerivedTable.AddressesValid;
      calls.ExactIsSound(Measures(records, paths), dirty, stale);
      ChosenAreRows();
      FiledAsQueried(kind, records, calls.joined.records, calls.view.uindex.Keys(), calls.rindex.Keys(), key);
    }

    lemma ShowsWhatIsFiled()
      requires Coherent() && dirty == {} && stale == {} && calls.view.uindex.Valid()
      requires forall key :: FiledGroup(key) == QueryGroup(kind, records, Chosen(), key)
      ensures Shows()
    {
      hide Acyclic, Measures, Fold, AddFlat, Index.Valid, Index.Keys, AddressesOf, RowKeys, QueryGroup, Query, JoinKeys;
      hide DerivedTable.FiledGroup, DerivedTable.CallsKnow, DerivedTable.Indexed, DerivedTable.AddressesValid, Groups;
      ResultIsFiled();
      forall r | r in calls.view.rows
        ensures calls.view.rows[r].value == Query(kind, records, paths, Chosen(), calls.view.rows[r].key)
      {
        AllPathsAgree(kind, records, paths, Chosen(), calls.view.rows[r].key);
      }
    }

    /** For as long as calls are filed as they come out, the table shows what the one-shot query finds. */
    lemma ResultIsQuery()
      requires Valid() && dirty == {}
      ensures Shows()
    {
      hide Acyclic, Measures, Index.Valid, Index.Keys, AddressesOf, RowKeys, QueryGroup, Query, JoinKeys, Groups;
      hide DerivedTable.FiledGroup, DerivedTable.CallsKnow, DerivedTable.Indexed, DerivedTable.AddressesValid;
      hide DerivedTable.Shows;
      Known();
      forall key ensures FiledGroup(key) == QueryGroup(kind, records, Chosen(), key) {
        FiledIsQuery(key);
      }
      ShowsWhatIsFiled();
    }

    /** So there is a row for each function and thread that made a call to a selected function, or in turn was called. */
    lemma RowsMean(key: GroupKey)
      requires Shows()
      ensures (exists r :: r in calls.view.rows && calls.view.rows[r].key == key)
         <==> exists id :: Counted(kind, records, Chosen(), key, id)
    {
      hide QueryGroup, Counted, DerivedTable.Chosen, Query, Acyclic;
      forall id ensures id in QueryGroup(kind, records, Chosen(), key) <==> Counted(kind, records, Chosen(), key, id) {
        GroupIsCounted(kind, records, Chosen(), key, id);
      }
      var group := QueryGroup(kind, records, Chosen(), key);
      if id :| id in group {
        assert Counted(kind, records, Chosen(), key, id);
      }
      if id :| Counted(kind, records, Chosen(), key, id) {
        assert id in group;
      }
    }

    lemma ValidIsCoherent()
      requires Valid()
      ensures Coherent() && stale == {} && Acyclic(records) && selection.Values <= records.Keys
      ensures paths.Keys <= records.Keys && calls.lindex.Valid() && calls.view.uindex.Valid()
    {
      Known();
    }

    lemma Known()
      requires Coherent()
      ensures Acyclic(records) && selection.Values <= records.Keys && paths.Keys <= records.Keys
      ensures calls.lindex.Valid() && calls.view.uindex.Valid()
    {
      hide Acyclic, Measures, AddressesOf, RowKeys, Index.Valid, Index.Keys;
    }
  }

  /** A row event says all about the keys of the rows. */
  lemma RowKeysChange<K, V>(before: map<Handle, Row<K, V>>, after: map<Handle, Row<K, V>>, key: K, event: RowEvent)
    requires RowsAfter(before, after, key, event)
    ensures match event
      case RowCreated(r) => r !in RowKeys(before) && RowKeys(after) == RowKeys(before)[r := key]
      case RowModified(r) => r in RowKeys(before) && RowKeys(before)[r] == key && RowKeys(after) == RowKeys(before)
      case RowRemoved(r) => r in RowKeys(before) && RowKeys(before)[r] == key && RowKeys(after) == RowKeys(before) - {r}
      case RowDiscarded(r) => r !in RowKeys(before) && RowKeys(after) == RowKeys(before) - {r}
  {
  }

  lemma RowOfSelected(selected: map<Handle, Address>, rows: map<Handle, Row<Address, ()>>, h: Handle) returns (a: Handle)
    requires Covers(selected, rows) && h in selected
    ensures a in rows && rows[a].key == selected[h]
  {
    a :| a in rows && rows[a].key == selected[h];
  }

  /** Every row of the selected addresses has a selected record behind it. */
  lemma SelectedByRow(selected: map<Handle, Address>, rows: map<Handle, Row<Address, ()>>, a: Handle)
    requires Covers(selected, rows) && a in rows
    ensures exists h :: h in selected && selected[h] == rows[a].key
  {
    var h :| h in Matching(selected, rows[a].key);
  }

  lemma NothingSelected(records: Records, selection: map<Handle, Id>)
    requires selection.Keys == {}
    ensures AddressesOf(records, selection) == map[]
  {
  }

  lemma NoRows(aggregator: Aggregator<Address, ()>)
    ensures Exact<Address, Address, ()>(map[], map[], map[], aggregator, {}) && RowKeys<Address, ()>(map[]) == map[]
  {
  }

  lemma SumFlatIsFine()
    ensures LeftCommutative(SumFlatCalls().step)
  {
    AddFlatCommutes();
  }

  lemma NothingToDerive(kind: Kind)
    ensures Acyclic(map[]) && Measures(map[], map[]) == map[] && JoinKeys(kind, map[]) == map[] && Ids({}) == map[]
    ensures Told<GroupKey>(map[], Groups(kind, map[])) == map[]
    ensures RowKeys<Address, ()>(map[]) == map[] && AddressesOf(map[], map[]) == map[]
  {
  }

  lemma ToldByOne(id: Handle, group: GroupKey)
    ensures ToldBy(map[id := group], {id}) == {group}
  {
  }

  ghost function FiledIn(joined: map<Handle, Pair>, filed: map<Handle, GroupKey>, key: GroupKey): set<Handle> {
    set j | j in Matching(filed, key) && j in joined :: joined[j].left
  }

  lemma FiledWithout(joined: map<Handle, Pair>, filed: map<Handle, GroupKey>, id: Handle)
    ensures var js := LeftPairs(joined, id);
      forall key :: FiledIn(joined - js, filed - js, key) == FiledIn(joined, filed, key) - {id}
  {
    var js := LeftPairs(joined, id);
    forall key ensures FiledIn(joined - js, filed - js, key) == FiledIn(joined, filed, key) - {id} {
      forall l | l in FiledIn(joined, filed, key) && l != id ensures l in FiledIn(joined - js, filed - js, key) {
        var j :| j in Matching(filed, key) && j in joined && joined[j].left == l;
        assert j in Matching(filed - js, key);
      }
    }
  }

  lemma RowsAreSelected(selected: map<Handle, Address>, rows: map<Handle, Row<Address, ()>>)
    requires Covers(selected, rows)
    ensures RowKeys(rows).Values == selected.Values
  {
    forall a | a in rows ensures rows[a].key in selected.Values {
      SelectedByRow(selected, rows, a);
    }
    forall h | h in selected ensures selected[h] in RowKeys(rows).Values {
      var a := RowOfSelected(selected, rows, h);
      assert a in RowKeys(rows);
    }
  }

  lemma StepKept(kind: Kind, before: Records, id: Id, selected: map<Handle, Address>, joined: map<Handle, Pair>,
      filed: map<Handle, GroupKey>)
    requires Acyclic(before) && id in before
    requires PairsOf(joined) == Matches(JoinKeys(kind, before) - {id}, selected)
    requires filed == Told(joined, Groups(kind, before) - {id})
    ensures Harmless(kind, before, selected.Values, id) <==>
      && JoinKeys(kind, before - {id}) == JoinKeys(kind, before) - {id}
      && filed == Told(joined, Groups(kind, before - {id}))
  {
    var after := before - {id};
    forall c | c in after
      ensures JoinKeys(kind, after)[c] == JoinKeyOf(kind, before[c], ParentAddress(after, c))
      ensures Groups(kind, after)[c] == GroupOf(kind, before[c], ParentAddress(after, c))
      ensures ParentAddress(after, c) == if before[c].parentId == id then 0 else ParentAddress(before, c)
      ensures before[c].parentId == id ==> ParentAddress(before, c) == before[id].address
    {
      GoneFrom(kind, before, id, c);
    }
    forall j | j in joined
      ensures joined[j].left in after && joined[j].right in selected
      ensures JoinKeys(kind, before)[joined[j].left] == selected[joined[j].right]
    {
      assert joined[j] in PairsOf(joined);
    }
    if Harmless(kind, before, selected.Values, id) {
      assert filed == Told(joined, Groups(kind, after));
    } else {
      HarmShows(kind, before, id, selected, joined);
    }
  }

  lemma HarmShows(kind: Kind, before: Records, id: Id, selected: map<Handle, Address>, joined: map<Handle, Pair>)
    requires Acyclic(before) && id in before && !Harmless(kind, before, selected.Values, id)
    requires PairsOf(joined) == Matches(JoinKeys(kind, before) - {id}, selected)
    ensures JoinKeys(kind, before - {id}) != JoinKeys(kind, before) - {id}
         || Told(joined, Groups(kind, before) - {id}) != Told(joined, Groups(kind, before - {id}))
  {
    var after := before - {id};
    var c :| c in before && before[c].parentId == id && (kind.Callers? ==> before[c].address in selected.Values);
    NotItsOwnCaller(before, id);
    GoneFrom(kind, before, id, c);
    if kind.Callers? {
      var a :| a in selected && selected[a] == before[c].address;
      assert Pair(c, a) in PairsOf(joined);
      var j :| j in joined && joined[j] == Pair(c, a);
      assert Told(joined, Groups(kind, before) - {id})[j] != Told(joined, Groups(kind, after))[j];
    } else {
      assert JoinKeys(kind, after)[c] != (JoinKeys(kind, before) - {id})[c];
    }
  }

  /** The pairs of a row are those of the calls joined by its address. */
  lemma ToldOfRow(joined: map<Handle, Pair>, filed: map<Handle, GroupKey>, groups: map<Handle, GroupKey>,
      lkeys: map<Handle, Address>, selected: map<Handle, Address>, a: Handle)
    requires PairsOf(joined) == Matches(lkeys, selected) && lkeys.Keys == groups.Keys
    ensures var js := RightPairs(joined, a);
      && (forall j :: j in js ==> joined[j].left in groups)
      && Strays(filed, Told(joined, groups), js) <= Strays(filed, Told(joined, groups), joined.Keys)
      && (a in selected ==> Among(Told(joined, groups), js) <= ToldBy(groups, Matching(lkeys, selected[a])))
      && (a !in selected ==> js == {} && Among(Told(joined, groups), js) == {})
  {
    forall j | j in joined
      ensures joined[j].left in lkeys && joined[j].right in selected && lkeys[joined[j].left] == selected[joined[j].right]
    {
      assert joined[j] in PairsOf(joined);
    }
  }

  lemma RightRow(filed: map<Handle, GroupKey>, rows: map<Handle, Row<GroupKey, FunctionStatistics>>,
      worth: map<Handle, Measure>, key: GroupKey)
    requires KeyRight(filed, rows, worth, SumFlatCalls(), {}, key) && OneRowPerKey(rows)
    ensures Matching(filed, key) <= worth.Keys
    ensures (exists r :: r in rows && rows[r].key == key) <==> Matching(filed, key) != {}
    ensures forall r :: r in rows && rows[r].key == key ==>
      rows[r].value == Fold(Matching(filed, key), worth, Zero(), AddFlat)
  {
    hide Fold, Matching, AddFlat;
    assert Matching(filed, key) !! {};
  }

  /** The joined records of a group stand for calls, one for each. */
  lemma PairsStandForCalls(joined: map<Handle, Pair>, filed: map<Handle, GroupKey>, measures: map<Handle, Measure>,
      lkeys: map<Handle, Address>, selected: map<Handle, Address>, key: GroupKey)
    requires Filed(joined, measures, filed) && Once(joined) && PairsOf(joined) == Matches(lkeys, selected)
    requires forall a, b :: a in selected && b in selected && selected[a] == selected[b] ==> a == b
    ensures Matching(filed, key) <= Worth(joined, measures).Keys && FiledIn(joined, filed, key) <= measures.Keys
    ensures Matching(filed, key) == {} <==> FiledIn(joined, filed, key) == {}
    ensures Fold(Matching(filed, key), Worth(joined, measures), Zero(), AddFlat)
         == Fold(FiledIn(joined, filed, key), measures, Zero(), AddFlat)
  {
    var group, calls := Matching(filed, key), FiledIn(joined, filed, key);
    forall i, j | i in group && j in group && joined[i].left == joined[j].left ensures i == j {
      assert joined[i] in PairsOf(joined) && joined[j] in PairsOf(joined);
      assert joined[i].right == joined[j].right;
    }
    forall l | l in calls ensures exists j :: j in group && Lefts(joined)[j] == l {
      var j :| j in group && j in joined && joined[j].left == l;
      assert Lefts(joined)[j] == l;
    }
    forall j | j in group ensures joined[j].left in calls {
    }
    AddFlatCommutes();
    hide Fold, AddFlat, LeftCommutative, Matches, PairsOf;
    FoldRename(group, Worth(joined, measures), calls, measures, Lefts(joined), Zero(), AddFlat);
  }

  lemma FiledAsQueried(kind: Kind, records: Records, joined: map<Handle, Pair>, filed: map<Handle, GroupKey>,
      selected: map<Handle, Address>, key: GroupKey)
    requires PairsOf(joined) == Matches(JoinKeys(kind, records), selected)
    requires filed == Told(joined, Groups(kind, records))
    ensures FiledIn(joined, filed, key) == QueryGroup(kind, records, selected.Values, key)
  {
    hide ParentAddress, GroupOf, JoinKeyOf;
    forall j | j in joined
      ensures joined[j].left in records && joined[j].right in selected
      ensures JoinKeys(kind, records)[joined[j].left] == selected[joined[j].right]
    {
      assert joined[j] in PairsOf(joined);
    }
    forall id | id in QueryGroup(kind, records, selected.Values, key) ensures id in FiledIn(joined, filed, key) {
      var a :| a in selected && selected[a] == JoinKeys(kind, records)[id];
      assert Pair(id, a) in PairsOf(joined);
      var j :| j in joined && joined[j] == Pair(id, a);
      assert j in Matching(filed, key);
    }
  }

  ghost function RowKeys<K, V>(rows: map<Handle, Row<K, V>>): map<Handle, K> {
    map r | r in rows :: rows[r].key
  }

  function NoAggregation(): Aggregator<Address, ()> {
    Aggregator((), (v: (), a: Address) => v)
  }

  lemma NoAggregationCommutes()
    ensures LeftCommutative(NoAggregation().step)
  {
  }
}
