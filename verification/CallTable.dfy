/**
  The frontend's table of call statistics. A nested update of a thread's call
  tree is read into a flat table, keyed by thread, parent record and address;
  a record that is there already accumulates what is read.
*/
module CallTables {
  import opened Statistics

  /** Zero is no record: the parent of the outermost calls. */
  type Id = nat
  type ThreadId = nat

  datatype CallStatistics = CallStatistics(
    id: Id,
    threadId: ThreadId,
    parentId: Id,
    address: Address,
    statistics: FunctionStatistics)

  datatype CallNodeKey = CallNodeKey(threadId: ThreadId, parentId: Id, address: Address)

  function KeyOf(r: CallStatistics): CallNodeKey {
    CallNodeKey(r.threadId, r.parentId, r.address)
  }

  type Records = map<Id, CallStatistics>

  /** Records of a thread hang off earlier records of the same thread, and no two share a key. */
  ghost predicate Hierarchical(records: Records) {
    && (forall id :: id in records ==> id != 0 && records[id].id == id && HangsOff(records, id))
    && (forall i, j :: i in records && j in records && KeyOf(records[i]) == KeyOf(records[j]) ==> i == j)
  }

  ghost predicate HangsOff(records: Records, id: Id)
    requires id in records
  {
    var r := records[id];
    r.parentId != 0 ==> r.parentId < id && r.parentId in records && records[r.parentId].threadId == r.threadId
  }

  /** The addresses on the way from the outermost call to the record; none lead to no record. */
  ghost function PathTo(records: Records, id: Id): Path
    requires Hierarchical(records) && (id == 0 || id in records)
  {
    if id == 0 then [] else
    assert HangsOff(records, id);
    PathTo(records, records[id].parentId) + [records[id].address]
  }

  lemma PathStep(records: Records, id: Id)
    requires Hierarchical(records) && id in records
    ensures records[id].id == id && (records[id].parentId == 0 || records[id].parentId in records)
    ensures PathTo(records, id) == PathTo(records, records[id].parentId) + [records[id].address]
  {
    assert HangsOff(records, id);
  }

  /** A path leads to no more than one record of a thread. */
  lemma {:induction false} PathInjective(records: Records, i: Id, j: Id)
    requires Hierarchical(records) && (i == 0 || i in records) && (j == 0 || j in records)
    requires PathTo(records, i) == PathTo(records, j)
    requires i != 0 && j != 0 ==> records[i].threadId == records[j].threadId
    ensures i == j
  {
    if i == 0 || j == 0 {
    } else {
      var p, q := PathTo(records, records[i].parentId), PathTo(records, records[j].parentId);
      assert HangsOff(records, i) && HangsOff(records, j);
      assert (p + [records[i].address])[..|p|] == p;
      assert (q + [records[j].address])[..|q|] == q;
      assert |p| == |q|;
      assert (p + [records[i].address])[|p|] == (q + [records[j].address])[|q|];
      PathInjective(records, records[i].parentId, records[j].parentId);
      assert KeyOf(records[i]) == KeyOf(records[j]);
    }
  }

  ghost predicate LeadsTo(records: Records, t: ThreadId, p: Path, id: Id)
    requires Hierarchical(records)
  {
    id in records && records[id].threadId == t && PathTo(records, id) == p
  }

  ghost function Paths(records: Records, t: ThreadId): (paths: set<Path>)
    requires Hierarchical(records)
    ensures forall p :: p in paths <==> exists id :: LeadsTo(records, t, p, id)
  {
    var paths := set id | id in records && records[id].threadId == t :: PathTo(records, id);
    assert forall id :: id in records && records[id].threadId == t ==> LeadsTo(records, t, PathTo(records, id), id);
    paths
  }

  ghost function RecordAt(records: Records, t: ThreadId, p: Path): (id: Id)
    requires Hierarchical(records) && p in Paths(records, t)
    ensures LeadsTo(records, t, p, id)
  {
    var id :| LeadsTo(records, t, p, id);
    id
  }

  /** The call forest of a thread, rebuilt from the flat table. */
  ghost function ThreadForest(records: Records, t: ThreadId): Forest
    requires Hierarchical(records)
  {
    map p | p in Paths(records, t) :: records[RecordAt(records, t, p)].statistics
  }

  lemma ForestAt(records: Records, t: ThreadId, p: Path, id: Id)
    requires Hierarchical(records) && LeadsTo(records, t, p, id)
    ensures p in ThreadForest(records, t) && ThreadForest(records, t)[p] == records[id].statistics
  {
    PathInjective(records, id, RecordAt(records, t, p));
  }

  lemma ForestWitness(records: Records, t: ThreadId, p: Path) returns (id: Id)
    requires Hierarchical(records) && p in ThreadForest(records, t)
    ensures LeadsTo(records, t, p, id)
  {
    id := RecordAt(records, t, p);
  }

  /** What identifies the records that are there never changes. */
  ghost predicate Extends(before: Records, after: Records) {
    forall id :: id in before ==>
      id in after && after[id].id == before[id].id && KeyOf(after[id]) == KeyOf(before[id])
  }

  lemma {:induction false} PathStays(before: Records, after: Records, id: Id)
    requires Hierarchical(before) && Hierarchical(after) && Extends(before, after) && (id == 0 || id in before)
    ensures PathTo(after, id) == PathTo(before, id)
    decreases id
  {
    if id != 0 {
      assert KeyOf(after[id]) == KeyOf(before[id]);
      assert HangsOff(before, id);
      PathStays(before, after, before[id].parentId);
    }
  }

  /** A record made under a parent is a bare node one step further down. */
  lemma CreationAddsNode(before: Records, r: CallStatistics, t: ThreadId)
    requires Hierarchical(before) && r.id !in before && r.statistics == Zero()
    requires Hierarchical(before[r.id := r])
    ensures ThreadForest(before[r.id := r], t)
         == if r.threadId != t then ThreadForest(before, t)
            else ThreadForest(before, t)[PathTo(before[r.id := r], r.id) := Zero()]
    ensures PathTo(before[r.id := r], r.id) !in ThreadForest(before, r.threadId)
  {
    hide ThreadForest;
    var after := before[r.id := r];
    var old', new', p := ThreadForest(before, t), ThreadForest(after, t), PathTo(after, r.id);
    forall q | q in old' ensures q in new' && new'[q] == old'[q] {
      var id := ForestWitness(before, t, q);
      PathStays(before, after, id);
      ForestAt(before, t, q, id);
      ForestAt(after, t, q, id);
    }
    forall q | q in new' ensures q in old' || (r.threadId == t && q == p) {
      var id := ForestWitness(after, t, q);
      if id != r.id {
        PathStays(before, after, id);
        ForestAt(before, t, q, id);
      }
    }
    if r.threadId == t {
      ForestAt(after, t, p, r.id);
    }
    if p in ThreadForest(before, r.threadId) {
      var id := ForestWitness(before, r.threadId, p);
      PathStays(before, after, id);
      PathInjective(after, id, r.id);
    }
  }

  lemma ModificationKeepsHierarchy(before: Records, r: CallStatistics)
    requires Hierarchical(before) && r.id in before && KeyOf(r) == KeyOf(before[r.id])
    ensures Hierarchical(before[r.id := r]) && PathTo(before[r.id := r], r.id) == PathTo(before, r.id)
  {
    var after := before[r.id := r];
    forall id | id in after ensures id != 0 && after[id].id == id && HangsOff(after, id) {
      assert HangsOff(before, id);
    }
    forall i, j | i in after && j in after && KeyOf(after[i]) == KeyOf(after[j]) ensures i == j {
      assert KeyOf(before[i]) == KeyOf(before[j]);
    }
    PathStays(before, after, r.id);
  }

  /** A modified record changes the node it stands for. */
  lemma ModificationChangesNode(before: Records, r: CallStatistics, t: ThreadId)
    requires Hierarchical(before) && r.id in before && KeyOf(r) == KeyOf(before[r.id])
    requires Hierarchical(before[r.id := r])
    ensures ThreadForest(before[r.id := r], t)
         == if r.threadId != t then ThreadForest(before, t)
            else ThreadForest(before, t)[PathTo(before, r.id) := r.statistics]
    ensures r.threadId == t ==> PathTo(before, r.id) in ThreadForest(before, t)
    ensures r.threadId == t ==> ThreadForest(before, t)[PathTo(before, r.id)] == before[r.id].statistics
  {
    hide ThreadForest, PathTo, HangsOff;
    var after := before[r.id := r];
    PathStays(before, after, r.id);
    var old', new', p := ThreadForest(before, t), ThreadForest(after, t), PathTo(before, r.id);
    if r.threadId == t {
      ForestAt(after, t, p, r.id);
      ForestAt(before, t, p, r.id);
    }
    forall q | q in old' ensures q in new' && ((r.threadId == t && q == p) || new'[q] == old'[q]) {
      var id := ForestWitness(before, t, q);
      PathStays(before, after, id);
      ForestAt(before, t, q, id);
      ForestAt(after, t, q, id);
    }
    forall q | q in new' ensures q in old' {
      var id := ForestWitness(after, t, q);
      PathStays(before, after, id);
      ForestAt(before, t, q, id);
    }
  }

  // ---- Nested updates ----

  /** A node of a serialized call tree: statistics come first, then the callees. */
  datatype Item = Item(address: Address, statistics: FunctionStatistics, callees: seq<Item>)

  function ItemForest(prefix: Path, item: Item): Forest
    decreases item, 0
  {
    var p := prefix + [item.address];
    Merge(map[p := item.statistics], ItemsForest(p, item.callees))
  }

  function ItemsForest(prefix: Path, items: seq<Item>): Forest
    decreases items, |items|
  {
    if items == [] then map[] else
    Merge(ItemsForest(prefix, items[..|items| - 1]), ItemForest(prefix, items[|items| - 1]))
  }

  class StatisticsTable {
    var records: Records
    var nextId: Id
    /** The unique index by thread, parent and address. */
    var byNode: map<CallNodeKey, Id>

    ghost predicate Valid()
      reads this
    {
      && Hierarchical(records) && nextId >= 1
      && (forall id :: id in records ==> id < nextId && KeyOf(records[id]) in byNode && byNode[KeyOf(records[id])] == id)
      && (forall key :: key in byNode ==> byNode[key] in records && KeyOf(records[byNode[key]]) == key)
    }

    /** A record of the thread, or none at all. */
    ghost predicate IsParent(thread: ThreadId, parent: Id)
      reads this
    {
      parent == 0 || (parent in records && records[parent].threadId == thread)
    }

    ghost function Forest(thread: ThreadId): Forest
      requires Valid()
      reads this
    {
      ThreadForest(records, thread)
    }

    ghost function PathOf(id: Id): Path
      requires Valid() && (id == 0 || id in records)
      reads this
    {
      PathTo(records, id)
    }

    constructor ()
      ensures Valid() && records == map[]
      ensures forall t :: Forest(t) == map[]
    {
      records, nextId, byNode := map[], 1, map[];
    }

    /** Finds the record or creates an empty one. */
    method Upsert(key: CallNodeKey) returns (id: Id)
      requires Valid() && IsParent(key.threadId, key.parentId)
      modifies this
      ensures Valid() && Extends(old(records), records)
      ensures id in records && KeyOf(records[id]) == key
      ensures PathOf(id) == old(PathOf(key.parentId)) + [key.address]
      ensures Forest(key.threadId) == Merge(old(Forest(key.threadId)), map[PathOf(id) := Zero()])
      ensures forall t :: t != key.threadId ==> Forest(t) == old(Forest(t))
    {
      hide Merge, ThreadForest, PathTo, Hierarchical;
      if key in byNode {
        id := byNode[key];
        PathStep(records, id);
        MergeBare(Forest(key.threadId), PathOf(id));
        assert LeadsTo(records, key.threadId, PathOf(id), id);
        ForestAt(records, key.threadId, PathOf(id), id);
      } else {
        id := nextId;
        var r := CallStatistics(id, key.threadId, key.parentId, key.address, Zero());
        ghost var before := records;
        CreationKeepsHierarchy(before, r);
        PathStays(before, before[id := r], key.parentId);
        PathStep(before[id := r], id);
        nextId := nextId + 1;
        records := records[id := r];
        byNode := byNode[key := id];
        MergeBare(ThreadForest(before, key.threadId), PathOf(id));
        forall t ensures Forest(t)
            == if t != key.threadId then ThreadForest(before, t) else ThreadForest(before, t)[PathOf(id) := Zero()] {
          CreationAddsNode(before, r, t);
        }
        CreationAddsNode(before, r, key.threadId);
      }
    }

    /** Adds what was read to the record. */
    method Accumulate(id: Id, v: FunctionStatistics)
      requires Valid() && id in records
      modifies this
      ensures Valid() && Extends(old(records), records) && PathOf(id) == old(PathOf(id))
      ensures var t := old(records)[id].threadId; Forest(t) == Merge(old(Forest(t)), map[PathOf(id) := v])
      ensures forall t :: t != old(records)[id].threadId ==> Forest(t) == old(Forest(t))
    {
      hide Merge, ThreadForest, PathTo, Hierarchical;
      var r := records[id].(statistics := Add(records[id].statistics, v));
      ghost var before := records;
      PathStep(records, id);
      ModificationKeepsHierarchy(before, r);
      records := records[id := r];
      forall t ensures Forest(t)
          == if t != r.threadId then ThreadForest(before, t) else ThreadForest(before, t)[PathOf(id) := r.statistics] {
        ModificationChangesNode(before, r, t);
      }
      ModificationChangesNode(before, r, r.threadId);
      MergeOne(ThreadForest(before, r.threadId), PathOf(id), v);
    }

    method ReadItem(thread: ThreadId, parent: Id, item: Item)
      requires Valid() && IsParent(thread, parent)
      modifies this
      ensures Valid() && Extends(old(records), records)
      ensures Forest(thread) == Merge(old(Forest(thread)), ItemForest(old(PathOf(parent)), item))
      ensures forall t :: t != thread ==> Forest(t) == old(Forest(t))
      decreases item, 0
    {
      hide Merge, ThreadForest, PathTo, Hierarchical;
      ghost var f := Forest(thread);
      var id := Upsert(CallNodeKey(thread, parent, item.address));
      ghost var p := PathOf(id);
      Accumulate(id, item.statistics);
      ReadItems(thread, id, item.callees);
      ghost var blank, read := map[p := Zero()], map[p := item.statistics];
      MergeAssociates(f, blank, read);
      BareUnder(p, item.statistics);
      MergeAssociates(f, read, ItemsForest(p, item.callees));
    }

    method ReadItems(thread: ThreadId, parent: Id, items: seq<Item>)
      requires Valid() && IsParent(thread, parent)
      modifies this
      ensures Valid() && Extends(old(records), records)
      ensures Forest(thread) == Merge(old(Forest(thread)), ItemsForest(old(PathOf(parent)), items))
      ensures forall t :: t != thread ==> Forest(t) == old(Forest(t))
      decreases items, |items|
    {
      hide Merge, ThreadForest, PathTo, Hierarchical;
      ghost var p := PathOf(parent);
      MergeEmpty(Forest(thread));
      assert items[..|items|] == items;
      for i := 0 to |items|
        invariant Valid() && Extends(old(records), records) && IsParent(thread, parent) && PathOf(parent) == p
        invariant Forest(thread) == Merge(old(Forest(thread)), ItemsForest(p, items[..i]))
        invariant forall t :: t != thread ==> Forest(t) == old(Forest(t))
      {
        ghost var before := records;
        ReadItem(thread, parent, items[i]);
        PathStays(before, records, parent);
        assert items[..i + 1][..i] == items[..i];
        MergeAssociates(old(Forest(thread)), ItemsForest(p, items[..i]), ItemForest(p, items[i]));
      }
    }
  }

  lemma CreationKeepsHierarchy(before: Records, r: CallStatistics)
    requires Hierarchical(before) && r.id !in before && r.id != 0
    requires r.parentId != 0 ==> r.parentId < r.id && r.parentId in before && before[r.parentId].threadId == r.threadId
    requires forall id :: id in before ==> KeyOf(before[id]) != KeyOf(r)
    ensures Hierarchical(before[r.id := r])
  {
    var after := before[r.id := r];
    forall id | id in after ensures id != 0 && after[id].id == id && HangsOff(after, id) {
      assert id in before ==> HangsOff(before, id);
    }
  }
}
