/**
  A table of records with the indexes attached to it. Records are created and
  written to before they are committed; what an index holds changes with
  commits only.
*/
module Tables {
  import opened Indexes

  /** A component was told of a record; a record being removed is to be there still. */
  datatype Note = Note(component: nat, record: Handle, isThere: bool)

  /** What all components are told, in the order they were attached. */
  ghost function InOrder(n: nat, record: Handle, isThere: bool): (notes: seq<Note>)
    ensures |notes| == n && forall i :: 0 <= i < n ==> notes[i] == Note(i, record, isThere)
  {
    seq(n, i requires 0 <= i < n => Note(i, record, isThere))
  }

  ghost function InReverse(n: nat, record: Handle, isThere: bool): (notes: seq<Note>)
    ensures |notes| == n && forall i :: 0 <= i < n ==> notes[i] == Note(n - 1 - i, record, isThere)
  {
    seq(n, i requires 0 <= i < n => Note(n - 1 - i, record, isThere))
  }

  lemma TakeOne(notes: seq<Note>, i: nat)
    requires i < |notes|
    ensures notes[..i + 1] == notes[..i] + [notes[i]] && notes[..|notes|] == notes
  {
  }

  /** The keys of committed records. */
  function KeysOf<T(!new), K(!new)>(records: map<Handle, T>, committed: set<Handle>, keyer: T -> K): map<Handle, K>
    requires committed <= records.Keys
  {
    map h | h in committed :: keyer(records[h])
  }

  class Table<T(!new), K(==, !new)> {
    const keyers: seq<T -> K>
    /** One index per keyer, in the order they were attached. */
    const components: seq<Index<K>>
    var records: map<Handle, T>
    var nextRecord: Handle
    /** Records that were committed, and not removed since. */
    var committed: set<Handle>
    /** Who was told of creations and removals. */
    ghost var notes: seq<Note>

    ghost predicate Attached()
      reads this, components
    {
      && |components| == |keyers|
      && (forall i, j :: 0 <= i < j < |components| ==> components[i] != components[j])
      && (forall i :: 0 <= i < |components| ==> components[i].Valid())
    }

    ghost predicate Stored()
      reads this
    {
      committed <= records.Keys && forall h :: h in records ==> h < nextRecord
    }

    /** Every index is the committed records by key. */
    ghost predicate Indexed(keys: seq<T -> K>, values: map<Handle, T>, done: set<Handle>)
      requires Attached() && |keys| == |components| && done <= values.Keys
      reads this, components
    {
      forall i :: 0 <= i < |components| ==> components[i].Keys() == KeysOf(values, done, keys[i])
    }

    ghost predicate Valid()
      reads this, components
    {
      Attached() && Stored() && Indexed(keyers, records, committed)
    }

    /** No two committed records have the same key. */
    ghost predicate Unique(i: nat)
      requires i < |keyers| && committed <= records.Keys
      reads this
    {
      forall g, h :: g in committed && h in committed && keyers[i](records[g]) == keyers[i](records[h]) ==> g == h
    }

    /** Each index is attached to the table while there are no records. */
    constructor (keyers: seq<T -> K>, components: seq<Index<K>>)
      requires |components| == |keyers|
      requires forall i, j :: 0 <= i < j < |components| ==> components[i] != components[j]
      requires forall i :: 0 <= i < |components| ==> components[i].Valid() && components[i].Keys() == map[]
      ensures Valid() && this.keyers == keyers && this.components == components && records == map[] && committed == {}
      ensures nextRecord == 0 && notes == []
    {
      this.keyers, this.components := keyers, components;
      records, nextRecord, committed, notes := map[], 0, {}, [];
    }

    method Create(value: T) returns (record: Handle)
      requires Valid()
      modifies this`records, this`nextRecord
      ensures Valid() && record !in old(records) && records == old(records)[record := value]
      ensures record == old(nextRecord) && nextRecord == record + 1
    {
      record := nextRecord;
      records, nextRecord := records[record := value], nextRecord + 1;
      KeysAgree(old(records));
    }

    /** A record may be written to at any time; once committed, it is to keep its keys. */
    method Write(record: Handle, value: T)
      requires Valid() && record in records
      requires record in committed ==> forall i :: 0 <= i < |keyers| ==> keyers[i](value) == keyers[i](records[record])
      modifies this`records
      ensures Valid() && records == old(records)[record := value]
    {
      records := records[record := value];
      KeysAgree(old(records));
    }

    lemma KeysAgree(before: map<Handle, T>)
      requires committed <= before.Keys && committed <= records.Keys && |components| == |keyers|
      requires forall h, i :: h in committed && 0 <= i < |keyers| ==> keyers[i](records[h]) == keyers[i](before[h])
      ensures forall i :: 0 <= i < |keyers| ==> KeysOf(records, committed, keyers[i]) == KeysOf(before, committed,
        keyers[i])
    {
    }

    /** Components learn of a new record in the order they were attached. */
    method NotifyCreated(record: Handle, value: T)
      requires Attached() && forall i :: 0 <= i < |components| ==> record !in components[i].Keys()
      modifies this`notes, components
      ensures Attached() && notes == old(notes) + InOrder(|components|, record, record in records)
      ensures forall i :: 0 <= i < |components| ==>
        components[i].Keys() == old(components[i].Keys())[record := keyers[i](value)]
    {
      hide Index.Valid, Index.Keys;
      ghost var told := InOrder(|components|, record, record in records);
      for i := 0 to |components|
        invariant Attached() && notes == old(notes) + told[..i]
        invariant forall j :: 0 <= j < i ==>
          components[j].Keys() == old(components[j].Keys())[record := keyers[j](value)]
        invariant forall j :: i <= j < |components| ==> components[j].Keys() == old(components[j].Keys())
      {
        components[i].Created(record, keyers[i](value));
        TakeOne(told, i);
        notes := notes + [Note(i, record, record in records)];
      }
    }

    /** They learn of a removal in the reverse order. */
    method NotifyRemoved(record: Handle)
      requires Attached()
      modifies this`notes, components
      ensures Attached() && notes == old(notes) + InReverse(|components|, record, record in records)
      ensures forall i :: 0 <= i < |components| ==> components[i].Keys() == old(components[i].Keys()) - {record}
    {
      hide Index.Valid, Index.Keys;
      ghost var told := InReverse(|components|, record, record in records);
      for i := |components| downto 0
        invariant Attached() && notes == old(notes) + told[..|components| - i]
        invariant forall j :: i <= j < |components| ==> components[j].Keys() == old(components[j].Keys()) - {record}
        invariant forall j :: 0 <= j < i ==> components[j].Keys() == old(components[j].Keys())
      {
        components[i].Removed(record);
        TakeOne(told, |components| - 1 - i);
        notes := notes + [Note(i, record, record in records)];
      }
    }

    method NotifyCleared()
      requires Attached()
      modifies components
      ensures Attached() && forall i :: 0 <= i < |components| ==> components[i].Keys() == map[]
    {
      for i := |components| downto 0
        invariant Attached()
        invariant forall j :: i <= j < |components| ==> components[j].Keys() == map[]
      {
        components[i].Cleared();
      }
    }

    /** Every component knows the record by the time the commit is told to anyone else. */
    method CommitCreation(record: Handle)
      requires Valid() && record in records && record !in committed
      modifies this`committed, this`notes, components
      ensures Valid() && committed == old(committed) + {record}
      ensures notes == old(notes) + InOrder(|components|, record, true)
    {
      hide Index.Valid, Index.Keys;
      NotifyCreated(record, records[record]);
      forall i | 0 <= i < |keyers|
        ensures KeysOf(records, committed + {record}, keyers[i]) == KeysOf(records, committed,
          keyers[i])[record := keyers[i](records[record])]
      {
      }
      committed := committed + {record};
    }

    /** Components forget a record that is still there; then others are told, and then it is erased. */
    method Forget(record: Handle)
      requires Valid() && record in records
      modifies this`committed, this`notes, components
      ensures Valid() && committed == old(committed) - {record}
      ensures notes == old(notes) + InReverse(|components|, record, true)
    {
      hide Index.Valid, Index.Keys;
      NotifyRemoved(record);
      forall i | 0 <= i < |keyers|
        ensures KeysOf(records, committed - {record}, keyers[i]) == KeysOf(records, committed, keyers[i]) - {record}
      {
      }
      committed := committed - {record};
    }

    method Erase(record: Handle)
      requires Valid() && record in records && record !in committed
      modifies this`records
      ensures Valid() && records == old(records) - {record}
    {
      records := records - {record};
      KeysAgree(old(records));
    }

    method CommitRemoval(record: Handle)
      requires Valid() && record in records
      modifies this`committed, this`records, this`notes, components
      ensures Valid() && committed == old(committed) - {record} && records == old(records) - {record}
      ensures notes == old(notes) + InReverse(|components|, record, true)
    {
      hide Index.Valid, Index.Keys, Table.Valid;
      Forget(record);
      Erase(record);
    }

    /** The records go first. */
    method DropRecords()
      requires Attached()
      modifies this`committed, this`records
      ensures Attached() && Stored() && committed == {} && records == map[]
    {
      records, committed := map[], {};
    }

    lemma NothingIsValid()
      requires Attached() && Stored() && records == map[] && committed == {}
      requires forall i :: 0 <= i < |components| ==> components[i].Keys() == map[]
      ensures Valid()
    {
      hide Index.Keys;
    }

    method Clear()
      requires Valid()
      modifies this`committed, this`records, components
      ensures Valid() && committed == {} && records == map[]
    {
      hide Index.Valid, Index.Keys;
      DropRecords();
      NotifyCleared();
    }

    /** The record of a key, or a new one that is yet to be committed. */
    method Upsert(i: nat, key: K, constructed: T) returns (record: Handle, isNew: bool)
      requires Valid() && i < |keyers| && keyers[i](constructed) == key
      modifies this`records, this`nextRecord
      ensures Valid() && record in records && keyers[i](records[record]) == key
      ensures isNew <==> forall h :: h in committed ==> keyers[i](records[h]) != key
      ensures if isNew then record !in old(records) && records == old(records)[record := constructed]
              else record in committed && records == old(records)
    {
      assert components[i].Keys() == KeysOf(records, committed, keyers[i]);
      record, isNew := components[i].Locate(key, nextRecord);
      if isNew {
        forall h | h in committed ensures keyers[i](records[h]) != key {
          assert h in components[i].Keys();
        }
        record := Create(constructed);
      }
    }

    /** A table filled through its unique index, each record committed before the next one, never has a key twice. */
    method Put(i: nat, key: K, constructed: T) returns (record: Handle)
      requires Valid() && i < |keyers| && keyers[i](constructed) == key && Unique(i)
      modifies this`records, this`nextRecord, this`committed, this`notes, components
      ensures Valid() && Unique(i) && record in committed && keyers[i](records[record]) == key
      ensures committed == old(committed) + {record}
    {
      hide Index.Valid, Index.Keys, Table.Valid;
      var isNew;
      record, isNew := Upsert(i, key, constructed);
      if isNew {
        CommitCreation(record);
      }
    }
  }
}
