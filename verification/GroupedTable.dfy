/**
  A table with a grouped view attached to it: the view's index of the underlying
  records is one of the table's components, and its rows follow the table's own
  notifications, which come after those of the components.
*/
module GroupedTables {
  import opened Folds
  import opened Indexes
  import opened Tables
  import opened GroupByViews

  datatype Command<T> =
    | Create(value: T)
    | Write(record: Handle, value: T)
    | Commit(record: Handle)
    | Remove(record: Handle)
    | Clear

  /** What there is in a table: records, the next one's handle, who is committed, and who was written to since. */
  datatype State<T> = State(records: map<Handle, T>, next: Handle, committed: set<Handle>, dirty: set<Handle>)

  function Start<T>(): State<T> {
    State(map[], 0, {}, {})
  }

  /** Records that are there may be written to, committed and removed; a committed one is to keep its keys. */
  ghost predicate Allowed<T(!new), K(!new)>(keyers: seq<T -> K>, s: State<T>, c: Command<T>) {
    match c
    case Create(_) => true
    case Write(h, value) =>
      h in s.records
      && (h in s.committed ==> forall i :: 0 <= i < |keyers| ==> keyers[i](value) == keyers[i](s.records[h]))
    case Commit(h) => h in s.records
    case Remove(h) => h in s.records
    case Clear => true
  }

  function Step<T>(s: State<T>, c: Command<T>): State<T> {
    match c
    case Create(value) => s.(records := s.records[s.next := value], next := s.next + 1)
    case Write(h, value) => s.(records := s.records[h := value], dirty := s.dirty + ({h} * s.committed))
    case Commit(h) => s.(committed := s.committed + {h}, dirty := s.dirty - {h})
    case Remove(h) => s.(records := s.records - {h}, committed := s.committed - {h}, dirty := s.dirty - {h})
    case Clear => s.(records := map[], committed := {}, dirty := {})
  }

  function Play<T>(s: State<T>, commands: seq<Command<T>>): State<T>
    decreases |commands|
  {
    if commands == [] then s else Play(Step(s, commands[0]), commands[1..])
  }

  // ---- What a run leaves behind ----

  /** Records are numbered in the order they are created. */
  function Created<T>(commands: seq<Command<T>>): nat {
    if commands == [] then 0 else
    Created(commands[..|commands| - 1]) + if commands[|commands| - 1].Create? then 1 else 0
  }

  predicate Makes<T>(commands: seq<Command<T>>, j: nat, h: Handle) {
    j < |commands| && commands[j].Create? && Created(commands[..j]) == h
  }

  predicate Commits<T>(commands: seq<Command<T>>, j: nat, h: Handle) {
    j < |commands| && commands[j].Commit? && commands[j].record == h
  }

  predicate Writes<T>(commands: seq<Command<T>>, j: nat, h: Handle) {
    j < |commands| && commands[j].Write? && commands[j].record == h
  }

  /** From then on the record is not removed, not even with all the others. */
  predicate Stays<T>(commands: seq<Command<T>>, j: nat, h: Handle) {
    forall k :: j < k < |commands| ==> !commands[k].Clear? && !(commands[k].Remove? && commands[k].record == h)
  }

  predicate Unwritten<T>(commands: seq<Command<T>>, j: nat, h: Handle) {
    forall k :: j < k < |commands| ==> !Writes(commands, k, h)
  }

  lemma {:induction false} PlayLast<T>(s: State<T>, commands: seq<Command<T>>, c: Command<T>)
    ensures Play(s, commands + [c]) == Step(Play(s, commands), c)
    decreases |commands|
  {
    hide Step;
    if commands == [] {
      assert (commands + [c])[1..] == [];
    } else {
      assert (commands + [c])[1..] == commands[1..] + [c];
      PlayLast(Step(s, commands[0]), commands[1..], c);
    }
  }

  /** A record is committed after a run just if it was committed at some time and has stayed since. */
  lemma {:induction false} CommittedAfter<T>(commands: seq<Command<T>>, h: Handle)
    ensures h in Play(Start<T>(), commands).committed <==>
      exists j: nat :: Commits(commands, j, h) && Stays(commands, j, h)
    decreases |commands|
  {
    if commands != [] {
      var n := |commands| - 1;
      var rest, c := commands[..n], commands[n];
      assert commands == rest + [c];
      CommittedAfter(rest, h);
      PlayLast(Start(), rest, c);
      hide Play;
      if c.Commit? && c.record == h {
        assert Commits(commands, n, h) && Stays(commands, n, h);
      } else if j: nat :| Commits(rest, j, h) && Stays(rest, j, h) {
        if h in Play(Start<T>(), commands).committed {
          assert Commits(commands, j, h) && Stays(commands, j, h);
        }
      }
      if j: nat :| Commits(commands, j, h) && Stays(commands, j, h) {
        if j < n {
          assert Commits(rest, j, h) && Stays(rest, j, h);
        }
      }
    }
  }

  ghost predicate AllAllowed<T(!new), K(!new)>(keyers: seq<T -> K>, s: State<T>, commands: seq<Command<T>>)
    decreases |commands|
  {
    commands == [] || (Allowed(keyers, s, commands[0]) && AllAllowed(keyers, Step(s, commands[0]), commands[1..]))
  }

  lemma {:induction false} AllowedLast<T(!new), K(!new)>(keyers: seq<T -> K>, s: State<T>, commands: seq<Command<T>>,
                                                         c: Command<T>)
    requires AllAllowed(keyers, s, commands + [c])
    ensures AllAllowed(keyers, s, commands) && Allowed(keyers, Play(s, commands), c)
    decreases |commands|
  {
    hide Allowed, Step;
    assert (commands + [c])[0] == if commands == [] then c else commands[0];
    if commands != [] {
      assert (commands + [c])[1..] == commands[1..] + [c];
      AllowedLast(keyers, Step(s, commands[0]), commands[1..], c);
    }
  }

  /** Handles are given out one after the other. */
  lemma {:induction false} NumberedInOrder<T(!new), K(!new)>(keyers: seq<T -> K>, commands: seq<Command<T>>)
    requires AllAllowed(keyers, Start(), commands)
    ensures var s := Play(Start(), commands);
      s.next == Created(commands) && forall h :: h in s.records ==> h < s.next
    decreases |commands|
  {
    if commands != [] {
      var rest, c := commands[..|commands| - 1], commands[|commands| - 1];
      assert commands == rest + [c];
      AllowedLast(keyers, Start(), rest, c);
      NumberedInOrder(keyers, rest);
      PlayLast(Start(), rest, c);
      hide Play, AllAllowed;
    }
  }

  lemma {:induction false} NothingBefore<T(!new), K(!new)>(keyers: seq<T -> K>, commands: seq<Command<T>>, h: Handle)
    requires AllAllowed(keyers, Start(), commands) && Play(Start(), commands).next <= h
    ensures forall j: nat :: !Makes(commands, j, h) && !Writes(commands, j, h)
    decreases |commands|
  {
    if commands != [] {
      var n := |commands| - 1;
      var rest, c := commands[..n], commands[n];
      assert commands == rest + [c];
      AllowedLast(keyers, Start(), rest, c);
      NumberedInOrder(keyers, rest);
      PlayLast(Start(), rest, c);
      hide Play, AllAllowed;
      NothingBefore(keyers, rest, h);
      forall j: nat ensures !Makes(commands, j, h) && !Writes(commands, j, h) {
        if j < n {
          assert !Makes(rest, j, h) && !Writes(rest, j, h) && commands[..j] == rest[..j];
        } else if j == n {
          assert commands[..n] == rest;
        }
      }
    }
  }

  /** A record is there just if it was made and has stayed since. */
  lemma {:induction false} ThereAfter<T(!new), K(!new)>(keyers: seq<T -> K>, commands: seq<Command<T>>, h: Handle)
    requires AllAllowed(keyers, Start(), commands)
    ensures h in Play(Start(), commands).records <==> exists j: nat :: Makes(commands, j, h) && Stays(commands, j, h)
    decreases |commands|
  {
    if commands != [] {
      var n := |commands| - 1;
      var rest, c := commands[..n], commands[n];
      assert commands == rest + [c];
      AllowedLast(keyers, Start(), rest, c);
      ThereAfter(keyers, rest, h);
      NumberedInOrder(keyers, rest);
      PlayLast(Start(), rest, c);
      hide Play, AllAllowed;
      if c.Create? && Created(rest) == h {
        assert Makes(commands, n, h) && Stays(commands, n, h);
      } else if j: nat :| Makes(rest, j, h) && Stays(rest, j, h) {
        assert commands[..j] == rest[..j];
        if h in Step(Play(Start(), rest), c).records {
          assert Makes(commands, j, h) && Stays(commands, j, h);
        }
      }
      if j: nat :| Makes(commands, j, h) && Stays(commands, j, h) {
        assert commands[..j] == rest[..j];
        if j < n {
          assert Makes(rest, j, h) && Stays(rest, j, h);
        }
      }
    }
  }

  /** It is what was written to it last, or what it was made with if nothing was. */
  lemma {:induction false} ValueAfter<T(!new), K(!new)>(keyers: seq<T -> K>, commands: seq<Command<T>>, h: Handle,
                                                        j: nat)
    requires AllAllowed(keyers, Start(), commands) && h in Play(Start(), commands).records
    requires (Makes(commands, j, h) || Writes(commands, j, h)) && Unwritten(commands, j, h)
    ensures Play(Start(), commands).records[h] == commands[j].value
    decreases |commands|
  {
    var n := |commands| - 1;
    var rest, c := commands[..n], commands[n];
    assert commands == rest + [c];
    AllowedLast(keyers, Start(), rest, c);
    NumberedInOrder(keyers, rest);
    PlayLast(Start(), rest, c);
    hide Play, AllAllowed;
    assert commands[..j] == rest[..j];
    if j < n {
      assert Makes(rest, j, h) || Writes(rest, j, h);
      assert !Writes(commands, n, h) && Unwritten(rest, j, h) by {
        forall k | j < k < n ensures !Writes(rest, k, h) {
          assert !Writes(commands, k, h);
        }
      }
      if h !in Play(Start(), rest).records {
        NothingBefore(keyers, rest, h);
      } else {
        ValueAfter(keyers, rest, h, j);
      }
    }
  }

  /** A write to a committed record, with no commit since, nor its removal. */
  predicate Pends<T>(commands: seq<Command<T>>, j: nat, h: Handle) {
    && Writes(commands, j, h) && h in Play(Start<T>(), commands[..j]).committed
    && Stays(commands, j, h) && forall k :: j < k < |commands| ==> !Commits(commands, k, h)
  }

  /** Those are the writes that leave a group undecided. */
  lemma {:induction false} PendingAfter<T>(commands: seq<Command<T>>, h: Handle)
    ensures h in Play(Start<T>(), commands).dirty <==> exists j: nat :: Pends(commands, j, h)
    decreases |commands|
  {
    if commands != [] {
      var n := |commands| - 1;
      var rest, c := commands[..n], commands[n];
      assert commands == rest + [c];
      PendingAfter(rest, h);
      PlayLast(Start(), rest, c);
      hide Play;
      if h in Play(Start(), commands).dirty {
        if c.Write? && c.record == h && h in Play(Start(), rest).committed {
          assert Pends(commands, n, h);
        } else {
          var j: nat :| Pends(rest, j, h);
          assert commands[..j] == rest[..j];
          forall k | j < k <= n ensures !Commits(commands, k, h) {
            assert k < n ==> !Commits(rest, k, h);
          }
          assert Pends(commands, j, h);
        }
      }
      if j: nat :| Pends(commands, j, h) {
        if j < n {
          assert commands[..j] == rest[..j];
          assert !Commits(commands, n, h);
          forall k | j < k < n ensures !Commits(rest, k, h) {
            assert !Commits(commands, k, h);
          }
          assert Pends(rest, j, h);
        }
      }
    }
  }

  /** The one-shot query: committed records of a key. */
  ghost function Group<T(!new), K(!new)>(s: State<T>, keyer: T -> K, key: K): set<Handle> {
    set h | h in s.committed && h in s.records && keyer(s.records[h]) == key
  }

  /** Exactly one row for each key of a committed record, and its value is that of the whole group. */
  ghost predicate IsQuery<T(!new), K(!new), V(!new)>(
      rows: map<Handle, Row<K, V>>, s: State<T>, keyer: T -> K, aggregator: Aggregator<T, V>)
  {
    && (forall key :: (exists r :: r in rows && rows[r].key == key) <==> Group(s, keyer, key) != {})
    && (forall q, r :: q in rows && r in rows && rows[q].key == rows[r].key ==> q == r)
    && (forall r :: r in rows && Group(s, keyer, rows[r].key) !! s.dirty ==>
          rows[r].value == Fold(Group(s, keyer, rows[r].key), s.records, aggregator.zero, aggregator.step))
  }

  lemma ExactIsQuery<T(!new), K(!new), V(!new)>(
      rows: map<Handle, Row<K, V>>, s: State<T>, keyer: T -> K, aggregator: Aggregator<T, V>)
    requires s.committed <= s.records.Keys
    requires Exact(KeysOf(s.records, s.committed, keyer), rows, s.records, aggregator, s.dirty)
    ensures IsQuery(rows, s, keyer, aggregator)
  {
    hide Fold;
    var keys := KeysOf(s.records, s.committed, keyer);
    forall key ensures Matching(keys, key) == Group(s, keyer, key) {
    }
    forall key ensures (exists r :: r in rows && rows[r].key == key) <==> Matching(keys, key) != {} {
      if h :| h in Matching(keys, key) {
        assert h in keys && keys[h] == key;
      }
    }
  }

  lemma NothingIsExact<T(!new), K, V(!new)>(aggregator: Aggregator<T, V>)
    ensures Exact<T, K, V>(map[], map[], map[], aggregator, {}) && Covers<K, V>(map[], map[])
  {
  }

  class GroupedTable<T(!new), K(==, !new), V(!new)> {
    const keyer: T -> K
    const table: Table<T, K>
    const view: GroupBy<T, K, V>
    /** Where the view's index is among the table's components. */
    const at: nat
    /** Records written to, but not committed since. */
    ghost var dirty: set<Handle>

    ghost function Repr(): set<object> {
      {this, table, view, view.aindex} + set c | c in table.components
    }

    ghost predicate Attached() {
      && at < |table.components| == |table.keyers|
      && table.components[at] == view.uindex && table.keyers[at] == keyer
      && view.aindex !in table.components
    }

    ghost predicate Valid()
      reads Repr()
    {
      Attached() && table.Valid() && view.IsExact(table.records, dirty)
    }

    ghost function Contents(): State<T>
      reads `dirty, table
    {
      State(table.records, table.nextRecord, table.committed, dirty)
    }

    /** The view is made for a table that has no records yet, but may have other indexes. */
    constructor (keyers: seq<T -> K>, components: seq<Index<K>>, at: nat, view: GroupBy<T, K, V>)
      requires |components| == |keyers| && at < |components|
      requires forall i, j :: 0 <= i < j < |components| ==> components[i] != components[j]
      requires forall i :: 0 <= i < |components| ==> components[i].Valid() && components[i].Keys() == map[]
      requires view.Valid() && view.rows == map[] && components[at] == view.uindex && view.aindex !in components
      ensures Valid() && Contents() == Start() && fresh(table)
      ensures this.view == view && this.at == at && keyer == keyers[at] && table.keyers == keyers && table.components ==
        components
    {
      hide LeftCommutative, Fold, Index.Valid, Index.Keys;
      this.at, this.view, this.keyer, this.dirty := at, view, keyers[at], {};
      table := new Table(keyers, components);
      new;
      assert view.uindex.Keys() == map[];
    }

    lemma Parts()
      requires Attached() && table.Valid()
      ensures table.committed <= table.records.Keys && view.uindex.Valid()
      ensures view.uindex.Keys() == KeysOf(table.records, table.committed, keyer)
    {
    }

    method Create(value: T)
      requires Valid()
      modifies table`records, table`nextRecord
      ensures Valid() && Contents() == Step(old(Contents()), Command.Create(value))
    {
      hide Exact, Covers, Fold, LeftCommutative, Index.Valid, Index.Keys, GroupBy.Valid, Table.Valid;
      view.Parts();
      Parts();
      ghost var before, keys := table.records, view.uindex.Keys();
      var _ := table.Create(value);
      WriteKeepsExact(keys, view.rows, before, table.records, view.aggregator, dirty, {});
      assert dirty + {} == dirty;
    }

    method Write(h: Handle, value: T)
      requires Valid() && Allowed(table.keyers, Contents(), Command.Write(h, value))
      modifies table`records, `dirty
      ensures Valid() && Contents() == Step(old(Contents()), Command.Write(h, value))
    {
      hide Exact, Covers, Fold, LeftCommutative, Index.Valid, Index.Keys, GroupBy.Valid, Table.Valid;
      view.Parts();
      Parts();
      ghost var before, keys, written := table.records, view.uindex.Keys(), {h} * table.committed;
      table.Write(h, value);
      WriteKeepsExact(keys, view.rows, before, table.records, view.aggregator, dirty, written);
      dirty := dirty + written;
    }

    /** The components learn of a record that is new; then its row is made or updated. */
    method Commit(h: Handle)
      requires Valid() && h in table.records
      modifies Repr()
      ensures Valid() && Contents() == Step(old(Contents()), Command.Commit(h))
    {
      hide Exact, Covers, Fold, LeftCommutative, Index.Valid, Index.Keys, GroupBy.Valid, Table.Valid;
      view.Parts();
      Parts();
      ghost var keys := view.uindex.Keys();
      KeysWith(table.records, table.committed, keyer, h);
      if h !in table.committed {
        table.CommitCreation(h);
        Parts();
      }
      var _ := view.UpdateRow(h, keyer(table.records[h]), table.records, dirty, keys);
      dirty := dirty - {h};
    }

    /** The components forget the record; its row is updated or removed next, and then the record is erased. */
    method Remove(h: Handle)
      requires Valid() && h in table.records
      modifies Repr()
      ensures Valid() && Contents() == Step(old(Contents()), Command.Remove(h))
    {
      hide Exact, Covers, Fold, LeftCommutative, Index.Valid, Index.Keys, Table.Valid, RowsAfter, Refreshed, Matching;
      Parts();
      view.ValidIsSound();
      ghost var keys, rows, records := view.uindex.Keys(), view.rows, table.records;
      KeysWith(records, table.committed, keyer, h);
      table.Forget(h);
      Parts();
      MatchingWithin(view.uindex.Keys(), keyer(records[h]));
      var event := view.Refresh(keyer(table.records[h]), table.records);
      RefreshedExact(keys, rows, view.rows, records, view.aggregator, dirty, h, keyer(records[h]), event);
      table.Erase(h);
      dirty := dirty - {h};
      WriteKeepsExact(keys - {h}, view.rows, records, table.records, view.aggregator, dirty, {});
      assert dirty + {} == dirty;
      ExactCovers(keys - {h}, view.rows, table.records, view.aggregator, dirty);
    }

    /** The records are gone before the rows, and the rows before the components hear of it. */
    method Clear()
      requires Valid()
      modifies Repr()
      ensures Valid() && Contents() == Step(old(Contents()), Command.Clear)
    {
      hide Exact, Covers, Fold, LeftCommutative, Index.Valid, Index.Keys, Table.Valid, Table.Indexed;
      view.Parts();
      TableParts();
      table.DropRecords();
      view.ClearRows();
      table.NotifyCleared();
      dirty := {};
      table.NothingIsValid();
      NothingIsExact<T, K, V>(view.aggregator);
    }

    lemma TableParts()
      requires table.Valid()
      ensures table.Attached()
    {
    }

    method Do(c: Command<T>)
      requires Valid() && Allowed(table.keyers, Contents(), c)
      modifies Repr()
      ensures Valid() && Contents() == Step(old(Contents()), c)
    {
      hide GroupedTable.Valid;
      match c
      case Create(value) => Create(value);
      case Write(h, value) => Write(h, value);
      case Commit(h) => Commit(h);
      case Remove(h) => Remove(h);
      case Clear => Clear();
    }

    /**
      Whatever is done to the table from when it was empty, its rows are those of the one-shot query over the
      committed records, but for the values of groups that have been written to since their last commit.
    */
    method Run(commands: seq<Command<T>>)
      requires Valid() && Contents() == Start() && AllAllowed(table.keyers, Start(), commands)
      modifies Repr()
      ensures Valid() && Contents() == Play(Start(), commands)
      ensures IsQuery(view.rows, Play(Start(), commands), keyer, view.aggregator)
    {
      hide GroupedTable.Valid, Step, Allowed;
      var i := 0;
      assert commands[0..] == commands;
      while i < |commands|
        invariant 0 <= i <= |commands| && Valid()
        invariant AllAllowed(table.keyers, Contents(), commands[i..])
        invariant Play(Contents(), commands[i..]) == Play(Start(), commands)
      {
        assert commands[i..][0] == commands[i] && commands[i..][1..] == commands[i + 1..];
        Do(commands[i]);
        i := i + 1;
      }
      RowsAreQuery();
    }

    lemma RowsAreQuery()
      requires Valid()
      ensures IsQuery(view.rows, Contents(), keyer, view.aggregator)
    {
      hide IsQuery, Exact;
      Parts();
      ExactIsQuery(view.rows, Contents(), keyer, view.aggregator);
    }
  }

  lemma KeysWith<T(!new), K(!new)>(records: map<Handle, T>, committed: set<Handle>, keyer: T -> K, h: Handle)
    requires committed <= records.Keys && h in records
    ensures KeysOf(records, committed + {h}, keyer) == KeysOf(records, committed, keyer)[h := keyer(records[h])]
    ensures h in committed ==>
      KeysOf(records, committed, keyer)[h := keyer(records[h])] == KeysOf(records, committed, keyer)
    ensures KeysOf(records, committed - {h}, keyer) == KeysOf(records, committed, keyer) - {h}
    ensures KeysOf(records - {h}, committed - {h}, keyer) == KeysOf(records, committed, keyer) - {h}
    ensures h in KeysOf(records, committed, keyer) <==> h in committed
    ensures h in committed ==> KeysOf(records, committed, keyer)[h] == keyer(records[h])
  {
  }
}
