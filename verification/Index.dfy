/**
  The index every table component is built on: a multimap from keys to record
  handles, and the way back from a handle to its entry, so that an entry can be
  erased after the record's key can no longer be computed.
*/
module Indexes {
  import opened Wrappers

  /** A handle stands for a record of a table, wherever the record lives. */
  type Handle = nat

  datatype Entry<K> = Entry(key: K, record: Handle)

  class Index<K(==)> {
    /** The multimap; entries stay put once inserted. */
    var entries: map<nat, Entry<K>>
    var nextEntry: nat
    var removalIndex: map<Handle, nat>

    /** One entry for each indexed record, and the removal index leads right to it. */
    ghost predicate Valid()
      reads this
    {
      && (forall e :: e in entries ==>
            e < nextEntry && entries[e].record in removalIndex && removalIndex[entries[e].record] == e)
      && (forall h :: h in removalIndex ==> removalIndex[h] in entries && entries[removalIndex[h]].record == h)
    }

    /** The key each record is indexed by. */
    ghost function Keys(): map<Handle, K>
      requires Valid()
      reads this
    {
      map h | h in removalIndex :: entries[removalIndex[h]].key
    }

    constructor ()
      ensures Valid() && Keys() == map[]
    {
      entries, nextEntry, removalIndex := map[], 0, map[];
    }

    /** An index made for a table that has records already. */
    constructor Over(keys: map<Handle, K>)
      ensures Valid() && Keys() == keys
    {
      entries, nextEntry, removalIndex := map[], 0, map[];
      new;
      var rest := keys.Keys;
      while rest != {}
        invariant Valid() && rest <= keys.Keys && Keys() == keys - rest
      {
        var record :| record in rest;
        Created(record, keys[record]);
        rest := rest - {record};
      }
    }

    method Created(record: Handle, key: K)
      requires Valid() && record !in Keys()
      modifies this
      ensures Valid() && Keys() == old(Keys())[record := key]
    {
      entries := entries[nextEntry := Entry(key, record)];
      removalIndex := removalIndex[record := nextEntry];
      nextEntry := nextEntry + 1;
    }

    method KeyOf(record: Handle) returns (key: K)
      requires Valid() && record in Keys()
      ensures key == Keys()[record]
    {
      key := entries[removalIndex[record]].key;
    }

    /** No other entry is touched, so that whoever stands at one of them may go on from there. */
    method Removed(record: Handle)
      requires Valid()
      modifies this`entries, this`removalIndex
      ensures Valid() && Keys() == old(Keys()) - {record}
      ensures entries == Without(old(entries), record)
    {
      if record in removalIndex {
        entries := entries - {removalIndex[record]};
        removalIndex := removalIndex - {record};
      }
    }

    method Cleared()
      modifies this
      ensures Valid() && Keys() == map[]
    {
      entries, removalIndex := map[], map[];
    }

    method EqualRange(key: K) returns (records: set<Handle>)
      requires Valid()
      ensures records == Matching(Keys(), key)
    {
      records := set e | e in entries && entries[e].key == key :: entries[e].record;
      assert forall h :: h in Matching(Keys(), key) ==> removalIndex[h] in entries;
    }

    /** The first entry of the key's range that is not before the given one; none at the range's end. */
    method NextInRange(key: K, from: nat) returns (cursor: Option<nat>)
      requires Valid()
      ensures cursor.Some? ==> from <= cursor.value && cursor.value in entries && entries[cursor.value].key == key
      ensures Ahead(entries, key, cursor) == set e | e in Range(entries, key) && from <= e
    {
      var e := from;
      while e < nextEntry
        invariant from <= e && forall f :: f in Range(entries, key) && from <= f ==> e <= f
      {
        if e in entries && entries[e].key == key {
          return Some(e);
        }
        e := e + 1;
      }
      cursor := None;
    }

    /** The first entry of the key's range. */
    method FirstInRange(key: K) returns (cursor: Option<nat>)
      requires Valid()
      ensures cursor.Some? ==> cursor.value in entries && entries[cursor.value].key == key
      ensures Ahead(entries, key, cursor) == Range(entries, key)
    {
      cursor := NextInRange(key, 0);
    }

    /** Each entry is that of one record, and each record has one. */
    lemma EntryOf(e: nat)
      requires Valid() && e in entries
      ensures entries[e].record in Keys() && Keys()[entries[e].record] == entries[e].key
      ensures forall f :: f in entries && entries[f].record == entries[e].record ==> f == e
    {
    }

    lemma NoRange(key: K)
      requires Valid() && Range(entries, key) == {}
      ensures Matching(Keys(), key) == {}
    {
      forall h | h in removalIndex ensures entries[removalIndex[h]].key != key {
        assert removalIndex[h] !in Range(entries, key);
      }
    }

    /** The first record found, if any. */
    method Find(key: K) returns (record: Option<Handle>)
      requires Valid()
      ensures record.None? ==> Matching(Keys(), key) == {}
      ensures record.Some? ==> record.value in Matching(Keys(), key)
    {
      var records := EqualRange(key);
      if records == {} {
        record := None;
      } else {
        var r :| r in records;
        record := Some(r);
      }
    }

    /** The record of a key for a table that is filled through its index, or the handle a new one is to get. */
    method Locate(key: K, next: Handle) returns (record: Handle, isNew: bool)
      requires Valid()
      ensures isNew <==> Matching(Keys(), key) == {}
      ensures isNew ==> record == next && forall h :: h in Keys() ==> Keys()[h] != key
      ensures !isNew ==> record in Keys() && Keys()[record] == key
    {
      var found := Find(key);
      isNew := found.None?;
      record := if isNew then next else found.value;
      if isNew {
        forall h | h in Keys() ensures Keys()[h] != key {
          assert h !in Matching(Keys(), key);
        }
      }
    }
  }

  ghost function Matching<K>(keys: map<Handle, K>, key: K): set<Handle> {
    set h | h in keys && keys[h] == key
  }

  ghost function Without<K>(entries: map<nat, Entry<K>>, record: Handle): map<nat, Entry<K>> {
    map e | e in entries && entries[e].record != record :: entries[e]
  }

  // ---- Going through the entries of a key ----

  function Range<K(==)>(entries: map<nat, Entry<K>>, key: K): set<nat> {
    set e | e in entries && entries[e].key == key
  }

  /** What is still to come for a cursor, which is at an entry or at the end. */
  function Ahead<K(==)>(entries: map<nat, Entry<K>>, key: K, cursor: Option<nat>): set<nat> {
    set e | e in Range(entries, key) && cursor.Some? && cursor.value <= e
  }

  /** A cursor moved on before its entry goes is at an entry still or at the end, and all that is left is ahead. */
  lemma WalkGoesOn<K>(entries: map<nat, Entry<K>>, key: K, e: nat, next: Option<nat>)
    requires e in entries && entries[e].key == key && Ahead(entries, key, Some(e)) == Range(entries, key)
    requires next.Some? ==> e < next.value && next.value in entries && entries[next.value].key == key
    requires Ahead(entries, key, next) == set f | f in Range(entries, key) && e + 1 <= f
    requires forall f :: f in entries && entries[f].record == entries[e].record ==> f == e
    ensures var after := Without(entries, entries[e].record);
      && (next.Some? ==> next.value in after && after[next.value].key == key)
      && Ahead(after, key, next) == Range(after, key)
  {
    var after := Without(entries, entries[e].record);
    forall f | f in Range(after, key) ensures f in Ahead(after, key, next) {
      assert f in Range(entries, key) && f != e;
      assert f in Ahead(entries, key, Some(e));
      assert f in Ahead(entries, key, next);
    }
  }
}
