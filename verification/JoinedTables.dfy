/**
  Two tables joined by keys of their records, and an aggregate of the joined
  records: after any sequence of creations, writes, commits, removals and clears
  on both sides these are the one-shot queries.
*/
module JoinedTables {
  import opened Folds
  import opened Indexes
  import opened Tables
  import opened GroupByViews
  import opened StaleRows
  import opened JoinViews
  import opened GroupedTables

  datatype Change<L, R> = Left(left: Command<L>) | Right(right: Command<R>)

  datatype Sides<L, R> = Sides(left: State<L>, right: State<R>)

  ghost predicate MayDo<L(!new), R(!new), J(!new), K(!new)>(lkey: L -> J, group: L -> K, rkey: R -> J,
                                                            s: Sides<L, R>, c: Change<L, R>) {
    match c
    case Left(c) => Allowed([lkey], s.left, c) && Allowed([group], s.left, c)
    case Right(c) => Allowed([rkey], s.right, c)
  }

  function Done<L, R>(s: Sides<L, R>, c: Change<L, R>): Sides<L, R> {
    match c
    case Left(c) => s.(left := Step(s.left, c))
    case Right(c) => s.(right := Step(s.right, c))
  }

  function AllDone<L, R>(s: Sides<L, R>, commands: seq<Change<L, R>>): Sides<L, R>
    decreases |commands|
  {
    if commands == [] then s else AllDone(Done(s, commands[0]), commands[1..])
  }

  ghost predicate MayDoAll<L(!new), R(!new), J(!new), K(!new)>(lkey: L -> J, group: L -> K, rkey: R -> J,
                                                               s: Sides<L, R>, commands: seq<Change<L, R>>)
    decreases |commands|
  {
    || commands == []
    || (MayDo(lkey, group, rkey, s, commands[0])
        && MayDoAll(lkey, group, rkey, Done(s, commands[0]), commands[1..]))
  }

  // ---- The one-shot queries ----

  /** All pairs of committed records with equal keys. */
  ghost function AllPairs<L(!new), R(!new), J(!new)>(s: Sides<L, R>, lkey: L -> J, rkey: R -> J): set<Pair> {
    set l, r | l in s.left.committed && l in s.left.records && r in s.right.committed && r in s.right.records
      && lkey(s.left.records[l]) == rkey(s.right.records[r]) :: Pair(l, r)
  }

  /** Those of them whose left record is of a group. */
  ghost function PairGroup<L(!new), K(!new)>(all: set<Pair>, lefts: map<Handle, L>, group: L -> K, key: K): set<Pair> {
    set p | p in all && p.left in lefts && group(lefts[p.left]) == key
  }

  ghost function LeftsOf<L>(all: set<Pair>, lefts: map<Handle, L>): map<Pair, L> {
    map p | p in all && p.left in lefts :: lefts[p.left]
  }

  /** A row for exactly the groups of these pairs, one each; groups that no write is pending in are aggregated. */
  ghost predicate RowsOf<L(!new), K(!new), V(!new)>(
      rows: map<Handle, Row<K, V>>, all: set<Pair>, lefts: map<Handle, L>, dirty: set<Handle>, group: L -> K,
      aggregator: Aggregator<L, V>)
  {
    && OneRowPerKey(rows)
    && forall key ::
      var ps := PairGroup(all, lefts, group, key);
      && ((exists r :: r in rows && rows[r].key == key) <==> ps != {})
      && ((forall p :: p in ps ==> p.left !in dirty) ==>
            forall r :: r in rows && rows[r].key == key ==>
              rows[r].value == Fold(ps, LeftsOf(all, lefts), aggregator.zero, aggregator.step))
  }

  lemma RowsAreOf<L(!new), K(!new), V(!new)>(
      joined: map<Handle, Pair>, keys: map<Handle, K>, rows: map<Handle, Row<K, V>>, lefts: map<Handle, L>,
      groups: map<Handle, K>, dirty: set<Handle>, group: L -> K, aggregator: Aggregator<L, V>)
    requires LeftCommutative(aggregator.step) && Once(joined) && keys == Told(joined, groups)
    requires keys.Keys == joined.Keys && groups.Keys <= lefts.Keys
    requires forall l :: l in groups ==> groups[l] == group(lefts[l])
    requires RightBut(keys, rows, Worth(joined, lefts), aggregator, Undecided(joined, dirty), {})
    ensures RowsOf(rows, PairsOf(joined), lefts, dirty, group, aggregator)
  {
    hide Fold, LeftCommutative, Once;
    var all := PairsOf(joined);
    forall key
      ensures var ps := PairGroup(all, lefts, group, key);
        && ((exists r :: r in rows && rows[r].key == key) <==> ps != {})
        && ((forall p :: p in ps ==> p.left !in dirty) ==>
              forall r :: r in rows && rows[r].key == key ==>
                rows[r].value == Fold(ps, LeftsOf(all, lefts), aggregator.zero, aggregator.step))
    {
      assert KeyRight(keys, rows, Worth(joined, lefts), aggregator, Undecided(joined, dirty), key);
      GroupStandsForPairs(joined, keys, lefts, groups, group, aggregator, key);
    }
  }

  lemma GroupStandsForPairs<L(!new), K(!new), V(!new)>(
      joined: map<Handle, Pair>, keys: map<Handle, K>, lefts: map<Handle, L>, groups: map<Handle, K>, group: L -> K,
      aggregator: Aggregator<L, V>, key: K)
    requires LeftCommutative(aggregator.step) && Once(joined) && keys == Told(joined, groups)
    requires keys.Keys == joined.Keys && groups.Keys <= lefts.Keys
    requires forall l :: l in groups ==> groups[l] == group(lefts[l])
    ensures var ps, js := PairGroup(PairsOf(joined), lefts, group, key), Matching(keys, key);
      && js <= Worth(joined, lefts).Keys && ps <= LeftsOf(PairsOf(joined), lefts).Keys
      && (forall j :: j in js ==> joined[j] in ps) && (forall p :: p in ps ==> exists j :: j in js && joined[j] == p)
      && Fold(js, Worth(joined, lefts), aggregator.zero, aggregator.step)
         == Fold(ps, LeftsOf(PairsOf(joined), lefts), aggregator.zero, aggregator.step)
  {
    var ps, js := PairGroup(PairsOf(joined), lefts, group, key), Matching(keys, key);
    forall p | p in ps ensures exists j :: j in js && joined[j] == p {
      var j :| j in joined && joined[j] == p;
      assert j in keys && j in js;
    }
    hide Fold, LeftCommutative;
    FoldRename(js, Worth(joined, lefts), ps, LeftsOf(PairsOf(joined), lefts), joined, aggregator.zero, aggregator.step);
  }

  /** Handles are given out in order; what is committed or pending is there. */
  ghost predicate Sane<T(!new)>(s: State<T>) {
    s.dirty <= s.committed <= s.records.Keys && forall h :: h in s.records ==> h < s.next
  }

  class LiveJoin<L(!new), R(!new), J(==, !new), K(==, !new), V(!new)> {
    const lkey: L -> J
    const rkey: R -> J
    /** What left records, and the pairs they are in, are grouped by. */
    const group: L -> K
    const join: Join<L, J, K, V>
    var left: State<L>
    var right: State<R>

    ghost function Repr(): set<object> {
      {this} + join.Repr()
    }

    ghost function Contents(): Sides<L, R>
      reads this
    {
      Sides(left, right)
    }

    ghost predicate Valid()
      reads Repr()
    {
      && this !in join.Repr() && Sane(left) && Sane(right)
      && Joins(left.records, left.dirty, KeysOf(left.records, left.committed, lkey),
           KeysOf(left.records, left.committed, group), KeysOf(right.records, right.committed, rkey))
    }

    /** The join is right for its sides, and all joined records are filed as they come out. */
    ghost predicate Joins(lefts: map<Handle, L>, dirty: set<Handle>, lkeys: map<Handle, J>, groups: map<Handle, K>,
                          rkeys: map<Handle, J>)
      reads join.Repr()
    {
      && join.IsExact(lefts, dirty, {}) && join.lindex.Valid() && join.rindex.Valid() && join.view.uindex.Valid()
      && join.lindex.Keys() == lkeys && join.rindex.Keys() == rkeys && join.FiledAs(groups)
    }

    constructor (lkey: L -> J, rkey: R -> J, group: L -> K, aggregator: Aggregator<L, V>)
      requires LeftCommutative(aggregator.step)
      ensures Valid() && Contents() == Sides(Start(), Start()) && fresh(Repr())
      ensures this.lkey == lkey && this.rkey == rkey && this.group == group && join.view.aggregator == aggregator
    {
      hide LeftCommutative, Index.Valid, Index.Keys, Join.IsExact, Join.FiledAs;
      this.lkey, this.rkey, this.group := lkey, rkey, group;
      left, right := Start(), Start();
      join := new Join(aggregator);
      new;
      assert KeysOf<L, J>(map[], {}, lkey) == map[] && KeysOf<L, K>(map[], {}, group) == map[];
      assert KeysOf<R, J>(map[], {}, rkey) == map[];
    }

    /** Records that are not joined, or pending, may become what they like. */
    lemma JoinsWritten(lefts: map<Handle, L>, lefts': map<Handle, L>, dirty: set<Handle>, written: set<Handle>,
                       lkeys: map<Handle, J>, groups: map<Handle, K>, rkeys: map<Handle, J>)
      requires Joins(lefts, dirty, lkeys, groups, rkeys) && lkeys.Keys <= lefts'.Keys
      requires forall l :: l in lkeys && l !in written && l in lefts ==> lefts'[l] == lefts[l]
      ensures Joins(lefts', dirty + written, lkeys, groups, rkeys)
    {
      hide Index.Valid, Index.Keys, Join.IsExact;
      join.ExactIsSound(lefts, dirty, {});
      var records := join.joined.records;
      forall j | j in records ensures records[j].left in lkeys {
        assert records[j] in PairsOf(records);
      }
      join.LeftWritten(lefts, lefts', dirty, written, {});
    }

    /** It takes a joined record for a write to be pending. */
    lemma JoinsUndecided(lefts: map<Handle, L>, dirty: set<Handle>, dirty': set<Handle>, lkeys: map<Handle, J>,
                         groups: map<Handle, K>, rkeys: map<Handle, J>)
      requires Joins(lefts, dirty, lkeys, groups, rkeys)
      requires forall j :: j in join.joined.records && join.joined.records[j].left in dirty ==>
        join.joined.records[j].left in dirty'
      ensures Joins(lefts, dirty', lkeys, groups, rkeys)
    {
      hide Index.Valid, Index.Keys, RightBut;
      join.Relax(lefts, Undecided(join.joined.records, dirty), Undecided(join.joined.records, dirty'), {});
    }

    // ---- The left side ----

    method JoinLeft(l: Handle, key: J, lefts: map<Handle, L>, told: K, ghost groups: map<Handle, K>,
                    ghost dirty: set<Handle>, ghost lkeys: map<Handle, J>, ghost rkeys: map<Handle, J>)
      requires Joins(lefts, dirty, lkeys, groups, rkeys) && l !in lkeys && l in lefts && l !in groups
      modifies join.Repr()
      ensures Joins(lefts, dirty, lkeys[l := key], groups[l := told], rkeys)
    {
      hide Index.Valid, Index.Keys, Join.IsExact, FiledAnew, Told, RowsKept, ToldBy, Matching;
      join.ExactIsSound(lefts, dirty, {});
      ghost var joined, filed := join.joined.records, join.view.uindex.Keys();
      join.OnLeftCreated(l, key, lefts, map[l := told], dirty, {});
      join.ExactIsSound(lefts, dirty, {});
      NewlyFiled(joined, join.joined.records, filed, join.view.uindex.Keys(), map[l := told], groups,
        groups[l := told]);
    }

    method TouchLeft(l: Handle, lefts: map<Handle, L>, told: K, ghost groups: map<Handle, K>,
                     ghost dirty: set<Handle>, ghost lkeys: map<Handle, J>, ghost rkeys: map<Handle, J>)
      requires Joins(lefts, dirty, lkeys, groups, rkeys) && l in groups && groups[l] == told
      modifies join.Repr()
      ensures Joins(lefts, dirty - {l}, lkeys, groups, rkeys)
    {
      hide Index.Valid, Index.Keys, Join.IsExact, Told, RowsKept, Strays, LeftPairs, HasRow, Worth;
      join.ExactIsSound(lefts, dirty, {});
      NotAstray(join.joined.records, join.view.uindex.Keys(), groups, map[l := told],
        LeftPairs(join.joined.records, l));
      ghost var none: set<K> := {};
      assert none + none == none;
      join.OnLeftModified(l, lefts, map[l := told], dirty, {});
    }

    method DropLeft(l: Handle, lefts: map<Handle, L>, told: K, ghost groups: map<Handle, K>,
                    ghost dirty: set<Handle>, ghost lkeys: map<Handle, J>, ghost rkeys: map<Handle, J>)
      requires Joins(lefts, dirty, lkeys, groups, rkeys)
      requires if l in lkeys then l in groups && groups[l] == told else l !in groups
      modifies join.Repr()
      ensures Joins(lefts, dirty - {l}, lkeys - {l}, groups - {l}, rkeys)
    {
      hide Index.Valid, Index.Keys, Join.IsExact, Told, RowsKept, Strays, Worth, Matches, PairsOf;
      join.ExactIsSound(lefts, dirty, {});
      ghost var joined, filed := join.joined.records, join.view.uindex.Keys();
      if l !in lkeys {
        join.NoPairsLeft(l, lefts, dirty, {});
      }
      NotAstray(joined, filed, groups, map[l := told], LeftPairs(joined, l));
      ToldWithoutLeft(joined, groups, l);
      ghost var none: set<K> := {};
      assert none + none == none;
      join.OnLeftRemoved(l, lefts, map[l := told], dirty, {});
    }

    method CreateLeft(value: L)
      requires Valid()
      modifies `left
      ensures Valid() && Contents() == Done(old(Contents()), Left(Command.Create(value)))
    {
      hide LiveJoin.Joins;
      ghost var lkeys := KeysOf(left.records, left.committed, lkey);
      ghost var groups := KeysOf(left.records, left.committed, group);
      JoinsWritten(left.records, left.records[left.next := value], left.dirty, {}, lkeys, groups,
        KeysOf(right.records, right.committed, rkey));
      KeysElsewhere(left.records, left.committed, lkey, left.next, value);
      KeysElsewhere(left.records, left.committed, group, left.next, value);
      assert left.dirty + {} == left.dirty;
      left := Step(left, Command.Create(value));
    }

    method WriteLeft(h: Handle, value: L)
      requires Valid() && MayDo(lkey, group, rkey, Contents(), Left(Command.Write(h, value)))
      modifies `left
      ensures Valid() && Contents() == Done(old(Contents()), Left(Command.Write(h, value)))
    {
      hide LiveJoin.Joins;
      ghost var lkeys := KeysOf(left.records, left.committed, lkey);
      ghost var groups := KeysOf(left.records, left.committed, group);
      JoinsWritten(left.records, left.records[h := value], left.dirty, {h} * left.committed, lkeys, groups,
        KeysOf(right.records, right.committed, rkey));
      SameKeys(left, lkey, h, value);
      SameKeys(left, group, h, value);
      left := Step(left, Command.Write(h, value));
    }

    method CommitLeft(h: Handle)
      requires Valid() && h in left.records
      modifies `left, join.Repr()
      ensures Valid() && Contents() == Done(old(Contents()), Left(Command.Commit(h)))
    {
      hide LiveJoin.Joins;
      ghost var lkeys := KeysOf(left.records, left.committed, lkey);
      ghost var groups := KeysOf(left.records, left.committed, group);
      ghost var rkeys := KeysOf(right.records, right.committed, rkey);
      KeysWith(left.records, left.committed, lkey, h);
      KeysWith(left.records, left.committed, group, h);
      var value := left.records[h];
      if h in left.committed {
        TouchLeft(h, left.records, group(value), groups, left.dirty, lkeys, rkeys);
      } else {
        JoinLeft(h, lkey(value), left.records, group(value), groups, left.dirty, lkeys, rkeys);
        assert left.dirty - {h} == left.dirty;
      }
      left := Step(left, Command.Commit(h));
    }

    method RemoveLeft(h: Handle)
      requires Valid() && h in left.records
      modifies `left, join.Repr()
      ensures Valid() && Contents() == Done(old(Contents()), Left(Command.Remove(h)))
    {
      hide LiveJoin.Joins;
      ghost var lkeys := KeysOf(left.records, left.committed, lkey);
      ghost var groups := KeysOf(left.records, left.committed, group);
      ghost var rkeys := KeysOf(right.records, right.committed, rkey);
      KeysWith(left.records, left.committed, lkey, h);
      KeysWith(left.records, left.committed, group, h);
      DropLeft(h, left.records, group(left.records[h]), groups, left.dirty, lkeys, rkeys);
      JoinsWritten(left.records, left.records - {h}, left.dirty - {h}, {}, lkeys - {h}, groups - {h}, rkeys);
      assert left.dirty - {h} + {} == left.dirty - {h};
      left := Step(left, Command.Remove(h));
    }

    method ClearLeft()
      requires Valid()
      modifies `left, join.Repr()
      ensures Valid() && Contents() == Done(old(Contents()), Left(Command.Clear))
    {
      hide Index.Valid, Index.Keys, Join.IsExact;
      join.ExactIsSound(left.records, left.dirty, {});
      join.OnLeftCleared(map[]);
      left := Step(left, Command.Clear);
      NoKeys<L, J>(lkey);
      NoKeys<L, K>(group);
    }

    // ---- The right side ----

    method CreateRight(value: R)
      requires Valid()
      modifies `right
      ensures Valid() && Contents() == Done(old(Contents()), Right(Command.Create(value)))
    {
      hide LiveJoin.Joins;
      KeysElsewhere(right.records, right.committed, rkey, right.next, value);
      right := Step(right, Command.Create(value));
    }

    method WriteRight(h: Handle, value: R)
      requires Valid() && MayDo(lkey, group, rkey, Contents(), Right(Command.Write(h, value)))
      modifies `right
      ensures Valid() && Contents() == Done(old(Contents()), Right(Command.Write(h, value)))
    {
      hide LiveJoin.Joins;
      SameKeys(right, rkey, h, value);
      right := Step(right, Command.Write(h, value));
    }

    method CommitRight(h: Handle)
      requires Valid() && h in right.records
      modifies `right, join.Repr()
      ensures Valid() && Contents() == Done(old(Contents()), Right(Command.Commit(h)))
    {
      hide LiveJoin.Joins;
      ghost var lkeys := KeysOf(left.records, left.committed, lkey);
      ghost var rkeys := KeysOf(right.records, right.committed, rkey);
      var groups := KeysOf(left.records, left.committed, group);
      KeysWith(right.records, right.committed, rkey, h);
      if h in right.committed {
        TouchRight(h, left.records, groups, left.dirty, lkeys, rkeys);
      } else {
        JoinRight(h, rkey(right.records[h]), left.records, groups, left.dirty, lkeys, rkeys);
      }
      right := Step(right, Command.Commit(h));
    }

    method RemoveRight(h: Handle)
      requires Valid() && h in right.records
      modifies `right, join.Repr()
      ensures Valid() && Contents() == Done(old(Contents()), Right(Command.Remove(h)))
    {
      hide LiveJoin.Joins;
      ghost var lkeys := KeysOf(left.records, left.committed, lkey);
      ghost var rkeys := KeysOf(right.records, right.committed, rkey);
      var groups := KeysOf(left.records, left.committed, group);
      KeysWith(right.records, right.committed, rkey, h);
      DropRight(h, left.records, groups, left.dirty, lkeys, rkeys);
      right := Step(right, Command.Remove(h));
    }

    method ClearRight()
      requires Valid()
      modifies `right, join.Repr()
      ensures Valid() && Contents() == Done(old(Contents()), Right(Command.Clear))
    {
      hide LiveJoin.Joins;
      ForgetRight(left.records, left.dirty, KeysOf(left.records, left.committed, lkey),
        KeysOf(left.records, left.committed, group), KeysOf(right.records, right.committed, rkey));
      right := Step(right, Command.Clear);
      NoKeys<R, J>(rkey);
    }

    method JoinRight(r: Handle, key: J, lefts: map<Handle, L>, groups: map<Handle, K>, ghost dirty: set<Handle>,
                     ghost lkeys: map<Handle, J>, ghost rkeys: map<Handle, J>)
      requires Joins(lefts, dirty, lkeys, groups, rkeys) && r !in rkeys && lkeys.Keys <= lefts.Keys * groups.Keys
      modifies join.Repr()
      ensures Joins(lefts, dirty, lkeys, groups, rkeys[r := key])
    {
      hide Index.Valid, Index.Keys, Join.IsExact, FiledAnew, Told, RowsKept, ToldBy, Matching;
      join.ExactIsSound(lefts, dirty, {});
      MatchingWithin(lkeys, key);
      ghost var joined, filed := join.joined.records, join.view.uindex.Keys();
      join.OnRightCreated(r, key, lefts, groups, dirty, {});
      join.ExactIsSound(lefts, dirty, {});
      NewlyFiled(joined, join.joined.records, filed, join.view.uindex.Keys(), groups, groups, groups);
    }

    method TouchRight(r: Handle, lefts: map<Handle, L>, groups: map<Handle, K>, ghost dirty: set<Handle>,
                      ghost lkeys: map<Handle, J>, ghost rkeys: map<Handle, J>)
      requires Joins(lefts, dirty, lkeys, groups, rkeys) && lkeys.Keys <= groups.Keys
      modifies join.Repr()
      ensures Joins(lefts, dirty, lkeys, groups, rkeys)
    {
      hide Index.Valid, Index.Keys, Join.IsExact, Told, RowsKept, Strays, Among;
      join.ExactIsSound(lefts, dirty, {});
      JoinedLefts(join.joined.records, lkeys, rkeys);
      NotAstray(join.joined.records, join.view.uindex.Keys(), groups, groups, RightPairs(join.joined.records, r));
      ghost var none: set<K> := {};
      assert none + none == none;
      join.OnRightModified(r, lefts, groups, dirty, {});
    }

    method DropRight(r: Handle, lefts: map<Handle, L>, groups: map<Handle, K>, ghost dirty: set<Handle>,
                     ghost lkeys: map<Handle, J>, ghost rkeys: map<Handle, J>)
      requires Joins(lefts, dirty, lkeys, groups, rkeys) && lkeys.Keys <= groups.Keys
      modifies join.Repr()
      ensures Joins(lefts, dirty, lkeys, groups, rkeys - {r})
    {
      hide Index.Valid, Index.Keys, Join.IsExact, Told, RowsKept, Strays, Among;
      join.ExactIsSound(lefts, dirty, {});
      ghost var joined, js := join.joined.records, RightPairs(join.joined.records, r);
      JoinedLefts(joined, lkeys, rkeys);
      NotAstray(joined, join.view.uindex.Keys(), groups, groups, js);
      ToldWithout(joined, groups, js);
      ghost var none: set<K> := {};
      assert none + none == none;
      join.OnRightRemoved(r, lefts, groups, dirty, {});
    }

    method ForgetRight(ghost lefts: map<Handle, L>, ghost dirty: set<Handle>, ghost lkeys: map<Handle, J>,
                       ghost groups: map<Handle, K>, ghost rkeys: map<Handle, J>)
      requires Joins(lefts, dirty, lkeys, groups, rkeys)
      modifies join.Repr()
      ensures Joins(lefts, dirty, lkeys, groups, map[])
    {
      hide Index.Valid, Index.Keys, Join.IsExact;
      join.ExactIsSound(lefts, dirty, {});
      join.OnRightCleared(lefts);
      JoinsUndecided(lefts, {}, dirty, lkeys, groups, map[]);
    }

    // ---- Whole runs ----

    method Do(c: Change<L, R>)
      requires Valid() && MayDo(lkey, group, rkey, Contents(), c)
      modifies Repr()
      ensures Valid() && Contents() == Done(old(Contents()), c)
    {
      hide LiveJoin.Valid;
      match c
      case Left(Create(value)) => CreateLeft(value);
      case Left(Write(h, value)) => WriteLeft(h, value);
      case Left(Commit(h)) => CommitLeft(h);
      case Left(Remove(h)) => RemoveLeft(h);
      case Left(Clear) => ClearLeft();
      case Right(Create(value)) => CreateRight(value);
      case Right(Write(h, value)) => WriteRight(h, value);
      case Right(Commit(h)) => CommitRight(h);
      case Right(Remove(h)) => RemoveRight(h);
      case Right(Clear) => ClearRight();
    }

    /**
      Whatever is done to either side from when both were empty: the joined records are all pairs of committed records
      with equal keys, each once, and the rows are those of the one-shot query over these pairs, but for the values of
      groups written to since their last commit.
    */
    method Run(commands: seq<Change<L, R>>)
      requires Valid() && Contents() == Sides(Start(), Start())
      requires MayDoAll(lkey, group, rkey, Sides(Start(), Start()), commands)
      modifies Repr()
      ensures Valid() && Contents() == AllDone(Sides(Start(), Start()), commands)
      ensures Once(join.joined.records) && PairsOf(join.joined.records) == AllPairs(Contents(), lkey, rkey)
      ensures RowsOf(join.view.rows, AllPairs(Contents(), lkey, rkey), left.records, left.dirty, group,
        join.view.aggregator)
    {
      hide LiveJoin.Valid, Done, MayDo, Once, RowsOf, PairsOf, AllPairs;
      ghost var start := Contents();
      assert commands[0..] == commands;
      for i := 0 to |commands|
        invariant Valid() && MayDoAll(lkey, group, rkey, Contents(), commands[i..])
        invariant AllDone(Contents(), commands[i..]) == AllDone(start, commands)
      {
        assert commands[i..][0] == commands[i] && commands[i..][1..] == commands[i + 1..];
        Do(commands[i]);
      }
      IsQuery();
    }

    lemma IsQuery()
      requires Valid()
      ensures Once(join.joined.records) && PairsOf(join.joined.records) == AllPairs(Contents(), lkey, rkey)
      ensures RowsOf(join.view.rows, AllPairs(Contents(), lkey, rkey), left.records, left.dirty, group,
        join.view.aggregator)
    {
      hide Index.Valid, Index.Keys, RightBut, LeftCommutative, Once, RowsOf, Told;
      var records := join.joined.records;
      join.Parts(left.records, Undecided(records, left.dirty), {});
      RowsAreOf(records, join.view.uindex.Keys(), join.view.rows, left.records,
        KeysOf(left.records, left.committed, group), left.dirty, group, join.view.aggregator);
      assert PairsOf(records) == AllPairs(Contents(), lkey, rkey);
    }
  }

  lemma KeysElsewhere<T(!new), K(!new)>(records: map<Handle, T>, committed: set<Handle>, keyer: T -> K, h: Handle,
                                        value: T)
    requires committed <= records.Keys && h !in records
    ensures KeysOf(records[h := value], committed, keyer) == KeysOf(records, committed, keyer)
  {
  }

  lemma SameKeys<T(!new), K(!new)>(s: State<T>, keyer: T -> K, h: Handle, value: T)
    requires s.committed <= s.records.Keys && Allowed([keyer], s, Command.Write(h, value))
    ensures KeysOf(s.records[h := value], s.committed, keyer) == KeysOf(s.records, s.committed, keyer)
  {
    assert [keyer][0] == keyer;
  }

  lemma NoKeys<T(!new), K(!new)>(keyer: T -> K)
    ensures KeysOf<T, K>(map[], {}, keyer) == map[]
  {
  }

  lemma JoinedLefts<J>(joined: map<Handle, Pair>, lkeys: map<Handle, J>, rkeys: map<Handle, J>)
    requires PairsOf(joined) == Matches(lkeys, rkeys)
    ensures forall j :: j in joined ==> joined[j].left in lkeys
  {
    forall j | j in joined ensures joined[j].left in lkeys {
      assert joined[j] in PairsOf(joined);
    }
  }
}
