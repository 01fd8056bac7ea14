/**
  A table of all pairs of records of two tables whose keys are equal, kept up to
  date by the notifications of either side, and an aggregated view that listens
  to it.
*/
module JoinViews {
  import opened Folds
  import opened Indexes
  import opened Wrappers
  import opened GroupByViews
  import opened StaleRows

  datatype Pair = Pair(left: Handle, right: Handle)

  ghost function PairsOf(joined: map<Handle, Pair>): set<Pair> {
    set j | j in joined :: joined[j]
  }

  ghost predicate Grown(before: map<Handle, Pair>, after: map<Handle, Pair>) {
    forall j :: j in before ==> j in after && after[j] == before[j]
  }

  /** No pair is held twice. */
  ghost predicate Once(joined: map<Handle, Pair>) {
    forall i, j :: i in joined && j in joined && joined[i] == joined[j] ==> i == j
  }

  /** The one-shot query: all pairs with equal keys. */
  ghost function Matches<J>(lkeys: map<Handle, J>, rkeys: map<Handle, J>): set<Pair> {
    set l, r | l in lkeys && r in rkeys && lkeys[l] == rkeys[r] :: Pair(l, r)
  }

  ghost function PairsOfLeft(l: Handle, rs: set<Handle>): set<Pair> {
    set r | r in rs :: Pair(l, r)
  }

  ghost function PairsOfRight(ls: set<Handle>, r: Handle): set<Pair> {
    set l | l in ls :: Pair(l, r)
  }

  lemma MatchesGrow<J>(lkeys: map<Handle, J>, rkeys: map<Handle, J>, h: Handle, key: J)
    ensures h !in lkeys ==>
      Matches(lkeys[h := key], rkeys) == Matches(lkeys, rkeys) + PairsOfLeft(h, Matching(rkeys, key))
    ensures h !in rkeys ==>
      Matches(lkeys, rkeys[h := key]) == Matches(lkeys, rkeys) + PairsOfRight(Matching(lkeys, key), h)
  {
  }

  lemma MatchesShrink<J>(lkeys: map<Handle, J>, rkeys: map<Handle, J>, h: Handle)
    ensures Matches(lkeys - {h}, rkeys) == set p | p in Matches(lkeys, rkeys) && p.left != h
    ensures Matches(lkeys, rkeys - {h}) == set p | p in Matches(lkeys, rkeys) && p.right != h
  {
  }

  /** A record needs a look for as long as the left record it pairs is not committed. */
  ghost function Undecided(joined: map<Handle, Pair>, dirty: set<Handle>): set<Handle> {
    set j | j in joined && joined[j].left in dirty
  }

  lemma PairsInsert(joined: map<Handle, Pair>, j: Handle, p: Pair)
    requires j !in joined && p !in PairsOf(joined) && Once(joined)
    ensures PairsOf(joined[j := p]) == PairsOf(joined) + {p} && Once(joined[j := p])
  {
    var after := joined[j := p];
    assert p == after[j];
    forall q | q in PairsOf(joined) ensures q in PairsOf(after) {
      var i :| i in joined && joined[i] == q;
      assert after[i] == q;
    }
  }

  lemma PairsRemove(joined: map<Handle, Pair>, j: Handle)
    requires j in joined && Once(joined)
    ensures PairsOf(joined - {j}) == PairsOf(joined) - {joined[j]} && Once(joined - {j})
  {
    var after := joined - {j};
    forall q | q in PairsOf(joined) && q != joined[j] ensures q in PairsOf(after) {
      var i :| i in joined && joined[i] == q;
      assert after[i] == q;
    }
  }

  lemma PairsWithout(joined: map<Handle, Pair>, js: set<Handle>)
    requires Once(joined) && js <= joined.Keys
    ensures PairsOf(joined - js) == set p | p in PairsOf(joined) && forall j :: j in js ==> joined[j] != p
  {
    forall q | q in PairsOf(joined) && forall j :: j in js ==> joined[j] != q ensures q in PairsOf(joined - js) {
      var i :| i in joined && joined[i] == q;
      assert (joined - js)[i] == q;
    }
  }

  ghost function Lefts(joined: map<Handle, Pair>): map<Handle, Handle> {
    map j | j in joined :: joined[j].left
  }

  lemma MatchingWithout<K>(keys: map<Handle, K>, key: K, h: Handle)
    ensures Matching(keys - {h}, key) == Matching(keys, key) - {h}
  {
  }

  lemma MatchingSides(joined: map<Handle, Pair>, side: Handle)
    ensures Matching(Lefts(joined), side) == LeftPairs(joined, side)
    ensures Matching(Rights(joined), side) == RightPairs(joined, side)
  {
  }

  ghost function Rights(joined: map<Handle, Pair>): map<Handle, Handle> {
    map j | j in joined :: joined[j].right
  }

  lemma SidesInsert(joined: map<Handle, Pair>, j: Handle, p: Pair)
    ensures Lefts(joined).Keys == Rights(joined).Keys == joined.Keys
    ensures Lefts(joined[j := p]) == Lefts(joined)[j := p.left]
    ensures Rights(joined[j := p]) == Rights(joined)[j := p.right]
  {
  }

  lemma SidesRemove(joined: map<Handle, Pair>, j: Handle)
    ensures Lefts(joined - {j}) == Lefts(joined) - {j} && Rights(joined - {j}) == Rights(joined) - {j}
  {
  }

  /** The aggregated view files each joined record under some key; left records are there. */
  ghost predicate Filed<T(!new), K(!new)>(joined: map<Handle, Pair>, left: map<Handle, T>, keys: map<Handle, K>) {
    keys.Keys == joined.Keys && forall j :: j in joined ==> joined[j].left in left
  }

  /** The keys joined records come out with: those of their left records. */
  function Told<K>(joined: map<Handle, Pair>, groups: map<Handle, K>): map<Handle, K> {
    map j | j in joined && joined[j].left in groups :: groups[joined[j].left]
  }

  /** The keys of groups left behind as joined records come out with other keys than they are filed under. */
  function Strays<K(==)>(keys: map<Handle, K>, told: map<Handle, K>, js: set<Handle>): set<K> {
    (set j | j in js && j in keys && j in told && keys[j] != told[j] :: keys[j])
    + (set j | j in js && j in keys && j in told && keys[j] != told[j] :: told[j])
  }

  lemma StraysMore<K>(keys: map<Handle, K>, told: map<Handle, K>, js: set<Handle>, j: Handle)
    requires j in keys && j in told
    ensures Strays(keys, told, js + {j}) == Strays(keys, told, js) + Apart(keys[j], told[j])
    ensures Strays(keys, told, {}) == {}
  {
  }

  lemma NoStrays<K>(keys: map<Handle, K>, told: map<Handle, K>, js: set<Handle>)
    requires forall j :: j in js && j in keys && j in told ==> keys[j] == told[j]
    ensures Strays(keys, told, js) == {}
  {
  }

  /** What a set of left records is told by. */
  function ToldBy<K>(groups: map<Handle, K>, ls: set<Handle>): set<K> {
    set l | l in ls && l in groups :: groups[l]
  }

  function ToldPairs<K>(groups: map<Handle, K>, ps: set<Pair>): set<K> {
    set p | p in ps && p.left in groups :: groups[p.left]
  }

  function Among<K>(told: map<Handle, K>, js: set<Handle>): set<K> {
    set j | j in js && j in told :: told[j]
  }

  function LeftPairs(joined: map<Handle, Pair>, l: Handle): set<Handle> {
    set j | j in joined && joined[j].left == l
  }

  function RightPairs(joined: map<Handle, Pair>, r: Handle): set<Handle> {
    set j | j in joined && joined[j].right == r
  }

  lemma ToldToSides<K>(groups: map<Handle, K>, h: Handle, others: set<Handle>)
    ensures ToldPairs(groups, set r | r in others :: Pair(h, r)) <= ToldBy(groups, {h})
    ensures ToldPairs(groups, set l | l in others :: Pair(l, h)) == ToldBy(groups, others)
  {
    var ps := set l | l in others :: Pair(l, h);
    forall key | key in ToldBy(groups, others) ensures key in ToldPairs(groups, ps) {
      var l :| l in others && l in groups && groups[l] == key;
      assert Pair(l, h) in ps;
    }
  }

  lemma AmongLeft<K>(joined: map<Handle, Pair>, groups: map<Handle, K>, l: Handle)
    requires l in groups
    ensures Among(Told(joined, groups), LeftPairs(joined, l)) <= {groups[l]}
  {
  }

  /** Joined records that are new are filed under what their left records are told by; the others stay filed. */
  ghost predicate FiledAnew<K(!new)>(
      before: map<Handle, Pair>, after: map<Handle, Pair>, keys: map<Handle, K>, keys': map<Handle, K>,
      groups: map<Handle, K>)
  {
    && Grown(before, after)
    && (forall j :: j in before && j in keys ==> j in keys' && keys'[j] == keys[j])
    && (forall j :: j in after && j !in before ==>
          after[j].left in groups && j in keys' && keys'[j] == groups[after[j].left])
  }

  /** What is filed anew with the keys it comes out with is filed as everything else. */
  lemma NewlyFiled<K(!new)>(
      before: map<Handle, Pair>, after: map<Handle, Pair>, filed: map<Handle, K>, filed': map<Handle, K>,
      told: map<Handle, K>, groups: map<Handle, K>, groups': map<Handle, K>)
    requires FiledAnew(before, after, filed, filed', told) && filed.Keys == before.Keys && filed'.Keys == after.Keys
    requires forall l :: l in told ==> l in groups' && groups'[l] == told[l]
    requires forall l :: l in groups ==>
      l in groups' && (groups'[l] == groups[l] || forall j :: j in before ==> before[j].left != l)
    ensures filed == Told(before, groups) ==> filed' == Told(after, groups')
  {
  }

  /** What is filed as it comes out is not led astray by being told what it comes out with. */
  lemma NotAstray<K>(joined: map<Handle, Pair>, filed: map<Handle, K>, groups: map<Handle, K>, told: map<Handle, K>,
      js: set<Handle>)
    requires forall l :: l in told && l in groups ==> told[l] == groups[l]
    requires forall j :: j in js && j in joined && joined[j].left in told ==> joined[j].left in groups
    ensures filed == Told(joined, groups) ==> Strays(filed, Told(joined, told), js) == {}
  {
    if filed == Told(joined, groups) {
      NoStrays(filed, Told(joined, told), js);
    }
  }

  lemma ToldWithout<K>(joined: map<Handle, Pair>, groups: map<Handle, K>, js: set<Handle>)
    ensures Told(joined - js, groups) == Told(joined, groups) - js
  {
  }

  lemma ToldWithoutLeft<K>(joined: map<Handle, Pair>, groups: map<Handle, K>, l: Handle)
    ensures var js := LeftPairs(joined, l);
      Told(joined - js, groups - {l}) == Told(joined, groups) - js
  {
  }

  lemma FiledOneMore<K(!new)>(
      start: map<Handle, Pair>, before: map<Handle, Pair>, keys0: map<Handle, K>, keys: map<Handle, K>,
      groups: map<Handle, K>, j: Handle, p: Pair)
    requires FiledAnew(start, before, keys0, keys, groups) && j !in before && p.left in groups
    requires keys.Keys == before.Keys && keys0.Keys == start.Keys
    ensures FiledAnew(start, before[j := p], keys0, keys[j := groups[p.left]], groups)
  {
  }

  function Worth<T>(joined: map<Handle, Pair>, left: map<Handle, T>): map<Handle, T> {
    map j | j in joined && joined[j].left in left :: left[joined[j].left]
  }

  lemma WorthInsert<T>(joined: map<Handle, Pair>, left: map<Handle, T>, j: Handle, p: Pair)
    requires p.left in left
    ensures Worth(joined[j := p], left) == Worth(joined, left)[j := left[p.left]]
  {
  }

  lemma NothingJoined<T(!new), K(!new), V(!new)>(left: map<Handle, T>, aggregator: Aggregator<T, V>)
    ensures Filed<T, K>(map[], left, map[]) && Worth(map[], left) == map[]
    ensures RightBut<T, K, V>(map[], map[], map[], aggregator, {}, {})
  {
  }

  lemma KeysOthers<K>(keys: map<Handle, K>, j: Handle, key: K)
    ensures j !in keys ==> forall k :: k != key ==> Matching(keys[j := key], k) == Matching(keys, k)
    ensures j in keys ==> forall k :: k != keys[j] ==> Matching(keys - {j}, k) == Matching(keys, k)
    ensures j in Matching(keys[j := key], key)
  {
  }

  /** A group that is not empty is aggregated, however the row was come by. */
  lemma RecomputedIsRefreshed<T(!new), K, V(!new)>(
      keys: map<Handle, K>, rows: map<Handle, Row<K, V>>, values: map<Handle, T>, aggregator: Aggregator<T, V>, key: K,
      event: RowEvent)
    requires Recomputed(keys, rows, values, aggregator, key, event) && Matching(keys, key) != {}
    ensures Refreshed(keys, rows, values, aggregator, key, event)
  {
  }

  lemma WorthRemove<T>(joined: map<Handle, Pair>, left: map<Handle, T>, j: Handle)
    ensures Worth(joined - {j}, left) == Worth(joined, left) - {j}
  {
  }

  lemma NoPairs<J>(rkeys: map<Handle, J>)
    ensures PairsOf(map[]) == {} && Matches(map[], rkeys) == {}
  {
  }

  lemma NewPairs<J>(lkeys: map<Handle, J>, rkeys: map<Handle, J>, l: Handle, rs: set<Handle>)
    requires l !in lkeys
    ensures PairsOfLeft(l, rs) !! Matches(lkeys, rkeys) && PairsOfLeft(l, rs) == set r | r in rs :: Pair(l, r)
  {
  }

  lemma PairsHaveLefts<T(!new), J, K(!new)>(
      joined: map<Handle, Pair>, lkeys: map<Handle, J>, rkeys: map<Handle, J>, left: map<Handle, T>,
      groups: map<Handle, K>)
    requires PairsOf(joined) == Matches(lkeys, rkeys) && lkeys.Keys == left.Keys == groups.Keys
    ensures Told(joined, groups).Keys == Worth(joined, left).Keys == joined.Keys
    ensures Filed(joined, left, Told(joined, groups)) && Undecided(joined, {}) == {}
  {
    forall j | j in joined ensures joined[j].left in left {
      assert joined[j] in PairsOf(joined);
    }
  }

  /** The joined records, with an index by the record of either side. */
  class JoinedTable {
    var records: map<Handle, Pair>
    var next: Handle
    const byLeft: Index<Handle>
    const byRight: Index<Handle>

    ghost function Repr(): set<object> {
      {this, byLeft, byRight}
    }

    ghost predicate Valid()
      reads this, byLeft, byRight
    {
      && byLeft != byRight && byLeft.Valid() && byRight.Valid()
      && byLeft.Keys() == Lefts(records)
      && byRight.Keys() == Rights(records)
      && Once(records) && forall j :: j in records ==> j < next
    }

    constructor ()
      ensures Valid() && records == map[] && fresh(Repr())
    {
      byLeft := new Index();
      byRight := new Index();
      records, next := map[], 0;
    }

    /** Creates, fills and commits a record. */
    method Insert(p: Pair) returns (j: Handle)
      requires Valid() && p !in PairsOf(records)
      modifies Repr()
      ensures Valid() && j !in old(records) && records == old(records)[j := p]
      ensures PairsOf(records) == old(PairsOf(records)) + {p}
    {
      hide Index.Valid, Index.Keys, PairsOf, Once, Lefts, Rights;
      j := next;
      PairsInsert(records, j, p);
      SidesInsert(records, j, p);
      next := next + 1;
      records := records[j := p];
      byLeft.Created(j, p.left);
      byRight.Created(j, p.right);
    }

    method InsertAll(ps: set<Pair>)
      requires Valid() && ps !! PairsOf(records)
      modifies Repr()
      ensures Valid() && PairsOf(records) == old(PairsOf(records)) + ps
    {
      hide PairsOf, JoinedTable.Valid;
      var rest := ps;
      while rest != {}
        invariant rest <= ps && Valid() && PairsOf(records) == old(PairsOf(records)) + (ps - rest)
      {
        var p :| p in rest;
        var _ := Insert(p);
        rest := rest - {p};
      }
    }

    /** Pairs all records of one side with their matches on the other. */
    method Fill<J(==)>(lkeys: map<Handle, J>, rindex: Index<J>)
      requires Valid() && records == map[] && rindex.Valid() && {rindex as object} !! Repr()
      modifies Repr()
      ensures Valid() && PairsOf(records) == Matches(lkeys, rindex.Keys())
    {
      hide PairsOf, Matches, PairsOfLeft, JoinedTable.Valid, Index.Valid, Index.Keys, Matching;
      ghost var rkeys := rindex.Keys();
      NoPairs<J>(rkeys);
      var rest := lkeys.Keys;
      assert lkeys - rest == map[];
      while rest != {}
        invariant rest <= lkeys.Keys && Valid() && rindex.Valid() && rindex.Keys() == rkeys
        invariant PairsOf(records) == Matches(lkeys - rest, rkeys)
      {
        var l :| l in rest;
        var matches := rindex.EqualRange(lkeys[l]);
        MatchesGrow(lkeys - rest, rkeys, l, lkeys[l]);
        assert (lkeys - rest)[l := lkeys[l]] == lkeys - (rest - {l});
        NewPairs(lkeys - rest, rkeys, l, matches);
        InsertAll(set r | r in matches :: Pair(l, r));
        rest := rest - {l};
      }
      assert lkeys - {} == lkeys;
    }

    /** Removes a record from the indexes, last made first, and then from the table. */
    method Remove(j: Handle)
      requires Valid() && j in records
      modifies Repr()
      ensures Valid() && records == old(records) - {j}
      ensures byLeft.entries == Without(old(byLeft.entries), j) && byRight.entries == Without(old(byRight.entries), j)
      ensures byLeft.Keys() == old(byLeft.Keys()) - {j} && byRight.Keys() == old(byRight.Keys()) - {j}
      ensures PairsOf(records) == old(PairsOf(records)) - {old(records)[j]}
    {
      hide Index.Valid, Index.Keys, PairsOf, Once, Lefts, Rights;
      PairsRemove(records, j);
      SidesRemove(records, j);
      byRight.Removed(j);
      byLeft.Removed(j);
      records := records - {j};
    }

    method Clear()
      requires Valid()
      modifies Repr()
      ensures Valid() && records == map[] && PairsOf(records) == {}
    {
      records := map[];
      byRight.Cleared();
      byLeft.Cleared();
    }

    method OfLeft(l: Handle) returns (js: set<Handle>)
      requires Valid()
      ensures js == LeftPairs(records, l)
    {
      js := byLeft.EqualRange(l);
    }

    method OfRight(r: Handle) returns (js: set<Handle>)
      requires Valid()
      ensures js == RightPairs(records, r)
    {
      js := byRight.EqualRange(r);
    }
  }

  class Join<T(!new), J(==, !new), K(==, !new), V(!new)> {
    const lindex: Index<J>
    const rindex: Index<J>
    const joined: JoinedTable
    const view: GroupBy<T, K, V>

    ghost function Repr(): set<object> {
      {lindex, rindex} + ViewRepr()
    }

    ghost function ViewRepr(): set<object> {
      joined.Repr() + view.Repr()
    }

    /** Everything is in its place, whatever the joined and the aggregated rows are worth. */
    ghost predicate Sound()
      reads Repr()
    {
      && lindex != rindex && {lindex as object, rindex} !! joined.Repr() !! view.Repr()
      && lindex.Valid() && rindex.Valid() && joined.Valid() && view.Sound()
    }

    /** The aggregate is right for what is filed, but for the groups of the given records and for stale keys. */
    ghost predicate Tracks(left: map<Handle, T>, undecided: set<Handle>, stale: set<K>)
      reads Repr()
    {
      && Sound() && Filed(joined.records, left, view.uindex.Keys())
      && RightBut(view.uindex.Keys(), view.rows, Worth(joined.records, left), view.aggregator, undecided, stale)
    }

    /** Exactly the pairs with equal keys. */
    ghost predicate Complete(lkeys: map<Handle, J>)
      requires rindex.Valid()
      reads joined, rindex
    {
      PairsOf(joined.records) == Matches(lkeys, rindex.Keys())
    }

    ghost predicate IsExact(left: map<Handle, T>, dirty: set<Handle>, stale: set<K>)
      reads Repr()
    {
      Tracks(left, Undecided(joined.records, dirty), stale) && Complete(lindex.Keys())
    }

    /** All joined records are filed under the keys they come out with. */
    ghost predicate FiledAs(groups: map<Handle, K>)
      requires view.uindex.Valid()
      reads joined, view.uindex
    {
      view.uindex.Keys() == Told(joined.records, groups)
    }

    lemma Parts(left: map<Handle, T>, undecided: set<Handle>, stale: set<K>)
      requires Tracks(left, undecided, stale)
      ensures Sound() && lindex.Valid() && rindex.Valid() && joined.Valid() && view.Sound() && view.uindex.Valid()
      ensures joined.byLeft.Valid() && joined.byRight.Valid() && Once(joined.records)
      ensures joined.byLeft.Keys() == Lefts(joined.records) && joined.byRight.Keys() == Rights(joined.records)
      ensures view.uindex.Keys().Keys == joined.records.Keys == Worth(joined.records, left).Keys
      ensures LeftCommutative(view.aggregator.step) && Filed(joined.records, left, view.uindex.Keys())
      ensures forall j :: j in joined.records ==> joined.records[j].left in left
      ensures RightBut(view.uindex.Keys(), view.rows, Worth(joined.records, left), view.aggregator, undecided, stale)
    {
      hide RightBut, LeftCommutative, Index.Valid, Index.Keys;
    }

    lemma ExactIsSound(left: map<Handle, T>, dirty: set<Handle>, stale: set<K>)
      requires IsExact(left, dirty, stale)
      ensures Sound() && lindex.Valid() && rindex.Valid() && view.uindex.Valid() && joined.Valid()
      ensures view.uindex.Keys().Keys == joined.records.Keys
      ensures forall j :: j in joined.records ==> joined.records[j].left in left
      ensures PairsOf(joined.records) == Matches(lindex.Keys(), rindex.Keys())
    {
    }

    constructor (aggregator: Aggregator<T, V>)
      requires LeftCommutative(aggregator.step)
      ensures IsExact(map[], {}, {}) && fresh(Repr())
      ensures lindex.Valid() && rindex.Valid() && lindex.Keys() == map[] && rindex.Keys() == map[]
      ensures joined.records == map[] && view.rows == map[] && view.uindex.Valid()
      ensures FiledAs(map[])
      ensures view.aggregator == aggregator
    {
      hide LeftCommutative, Fold, Index.Valid, Index.Keys, JoinedTable.Valid, Covers, RightBut;
      NothingJoined<T, K, V>(map[], aggregator);
      lindex := new Index();
      rindex := new Index();
      joined := new JoinedTable();
      view := new GroupBy(aggregator);
      new;
      view.ValidIsSound();
      NoPairs(rindex.Keys());
      assert Undecided(joined.records, {}) == {};
    }

    /** A join made for tables that have records already, and an aggregate made for the join. */
    constructor Over(aggregator: Aggregator<T, V>, left: map<Handle, T>, groups: map<Handle, K>,
                     lkeys: map<Handle, J>, rkeys: map<Handle, J>)
      requires LeftCommutative(aggregator.step) && lkeys.Keys == left.Keys == groups.Keys
      ensures IsExact(left, {}, {}) && FiledAs(groups) && fresh(Repr())
      ensures lindex.Keys() == lkeys && rindex.Keys() == rkeys
      ensures view.aggregator == aggregator
    {
      hide LeftCommutative, Fold, Index.Valid, Index.Keys, GroupBy.Valid, JoinedTable.Valid, Covers, Exact;
      hide PairsOf, Matches;
      hide Filed, Worth, Told, Undecided, RightBut, Join.IsExact, Join.FiledAs, GroupBy.IsExact;
      lindex := new Index.Over(lkeys);
      var opposite := new Index.Over(rkeys);
      rindex := opposite;
      var pairs := new JoinedTable();
      pairs.Fill(lkeys, opposite);
      joined := pairs;
      PairsHaveLefts(pairs.records, lkeys, rkeys, left, groups);
      view := new GroupBy.Over(aggregator, Told(pairs.records, groups), Worth(pairs.records, left));
      new;
      MadeOver(left, groups);
    }

    lemma MadeOver(left: map<Handle, T>, groups: map<Handle, K>)
      requires lindex != rindex && {lindex as object, rindex} !! joined.Repr() !! view.Repr()
      requires lindex.Valid() && rindex.Valid() && joined.Valid() && view.IsExact(Worth(joined.records, left), {})
      requires view.uindex.Keys() == Told(joined.records, groups) && Filed(joined.records, left, view.uindex.Keys())
      requires Undecided(joined.records, {}) == {} && PairsOf(joined.records) == Matches(lindex.Keys(), rindex.Keys())
      ensures IsExact(left, {}, {}) && FiledAs(groups)
    {
      hide LeftCommutative, Fold, Index.Valid, Index.Keys, JoinedTable.Valid, Covers, Exact, PairsOf, Matches;
      hide Filed, Worth, Told, RightBut;
      view.ValidIsSound();
      RightIsExact(view.uindex.Keys(), view.rows, Worth(joined.records, left), view.aggregator, {});
    }

    // ---- One joined record ----

    /** A joined record is made, and filed under the key its left record comes out with. */
    method AddPair(p: Pair, key: K, left: map<Handle, T>, ghost undecided: set<Handle>, ghost stale: set<K>)
        returns (j: Handle)
      requires Tracks(left, undecided, stale) && p !in PairsOf(joined.records) && p.left in left
      modifies ViewRepr()
      ensures Tracks(left, undecided, stale)
      ensures j !in old(joined.records) && joined.records == old(joined.records)[j := p]
      ensures PairsOf(joined.records) == old(PairsOf(joined.records)) + {p}
      ensures view.uindex.Valid() && view.uindex.Keys() == old(view.uindex.Keys())[j := key]
      ensures RowsKept(old(view.rows), view.rows, {key})
    {
      hide LeftCommutative, Fold, Worth, Once, PairsOf, RightBut, Recomputed, Refreshed, RowsAfter, RowsKept, Matching;
      hide Index.Valid, Index.Keys, JoinedTable.Valid;
      Parts(left, undecided, stale);
      ghost var records, keys, rows := joined.records, view.uindex.Keys(), view.rows;
      j := joined.Insert(p);
      WorthInsert(records, left, j, p);
      KeysOthers(keys, j, key);
      var event := view.OnCreated(j, key, Worth(joined.records, left), {});
      RecomputedIsRefreshed(view.uindex.Keys(), view.rows, Worth(joined.records, left), view.aggregator, key, event);
      RightAfter(keys, rows, Worth(records, left), view.uindex.Keys(), view.rows, Worth(joined.records, left),
        view.aggregator, undecided, undecided, stale, stale, key, event);
      NoRowsKept(rows);
      RowsKeptAfter(rows, rows, view.rows, {}, key, event);
    }

    lemma NoRowsKept(rows: map<Handle, Row<K, V>>)
      ensures RowsKept(rows, rows, {})
      ensures forall key: K :: {} + {key} == {key}
    {
    }

    /** The modification of a left record is passed on; the row of the key it comes out with is computed anew. */
    method TouchPair(j: Handle, key: K, left: map<Handle, T>, ghost undecided: set<Handle>, ghost stale: set<K>)
      requires Tracks(left, undecided, stale) && j in joined.records
      modifies view, view.aindex
      ensures view.uindex.Valid() && view.uindex.Keys() == old(view.uindex.Keys())
      ensures Tracks(left, undecided - {j}, stale + Apart(view.uindex.Keys()[j], key))
      ensures RowsKept(old(view.rows), view.rows, {key})
      ensures HasRow(view.rows, view.uindex.Keys(), Worth(joined.records, left), view.aggregator, key)
    {
      hide LeftCommutative, Fold, Worth, Once, PairsOf, RightBut, Recomputed, RowsAfter, RowsKept, Matching, Apart;
      hide HasRow, Index.Valid, Index.Keys, JoinedTable.Valid;
      Parts(left, undecided, stale);
      ghost var keys, rows, values := view.uindex.Keys(), view.rows, Worth(joined.records, left);
      var event := view.OnModified(j, key, Worth(joined.records, left), {});
      TouchedRight(keys, rows, view.rows, values, view.aggregator, undecided, stale, j, key, event);
    }

    /**
      Removes a joined record. Indexes forget it, last made first; then the aggregate is told, which finds the row by
      the key as it comes out now.
    */
    method DropPair(j: Handle, key: K, left: map<Handle, T>, ghost undecided: set<Handle>, ghost stale: set<K>)
      requires Tracks(left, undecided, stale) && j in joined.records
      modifies ViewRepr()
      ensures Tracks(left, undecided - {j}, stale + Apart(old(view.uindex.Keys())[j], key))
      ensures joined.records == old(joined.records) - {j} && view.uindex.Valid()
      ensures joined.byLeft.entries == Without(old(joined.byLeft.entries), j)
      ensures joined.byRight.entries == Without(old(joined.byRight.entries), j)
      ensures joined.byLeft.Keys() == old(joined.byLeft.Keys()) - {j}
      ensures joined.byRight.Keys() == old(joined.byRight.Keys()) - {j}
      ensures view.uindex.Keys() == old(view.uindex.Keys()) - {j}
      ensures RowsKept(old(view.rows), view.rows, {key})
    {
      hide LeftCommutative, Fold, Worth, Once, PairsOf, RightBut, Refreshed, RowsAfter, RowsKept, Matching;
      hide Index.Valid, Index.Keys, JoinedTable.Valid, GroupBy.RowsIndexed;
      Parts(left, undecided, stale);
      ghost var records, keys, rows := joined.records, view.uindex.Keys(), view.rows;
      WorthRemove(records, left, j);
      KeysOthers(keys, j, key);
      view.uindex.Removed(j);
      joined.Remove(j);
      MatchingWithin(view.uindex.Keys(), key);
      var event := view.Refresh(key, Worth(joined.records, left));
      RightAfter(keys, rows, Worth(records, left), keys - {j}, view.rows, Worth(joined.records, left), view.aggregator,
        undecided, undecided - {j}, stale, stale + Apart(keys[j], key), key, event);
      NoRowsKept(rows);
      RowsKeptAfter(rows, rows, view.rows, {}, key, event);
    }

    // ---- Values ----

    /** What left records are worth may change; the pairs of those written to leave their groups undecided. */
    lemma LeftWritten(left: map<Handle, T>, left': map<Handle, T>, dirty: set<Handle>, written: set<Handle>,
                      stale: set<K>)
      requires IsExact(left, dirty, stale)
      requires forall j :: j in joined.records ==> joined.records[j].left in left'
      requires forall j :: j in joined.records && joined.records[j].left !in written && joined.records[j].left in left ==>
        left'[joined.records[j].left] == left[joined.records[j].left]
      ensures IsExact(left', dirty + written, stale)
    {
      hide LeftCommutative, Fold, Once, PairsOf, RightBut, Index.Valid, Index.Keys, JoinedTable.Valid, GroupBy.Sound;
      Parts(left, Undecided(joined.records, dirty), stale);
      var records := joined.records;
      RightWritten(view.uindex.Keys(), view.rows, Worth(records, left), Worth(records, left'), view.aggregator,
        Undecided(records, dirty), Undecided(records, dirty + written), stale);
    }

    /** Leaves more records undecided than need be. */
    lemma Relax(left: map<Handle, T>, undecided: set<Handle>, undecided': set<Handle>, stale: set<K>)
      requires Tracks(left, undecided, stale) && undecided <= undecided'
      ensures Tracks(left, undecided', stale)
    {
      hide LeftCommutative, Fold, Once, PairsOf, RightBut, Index.Valid, Index.Keys, JoinedTable.Valid, GroupBy.Sound;
      Parts(left, undecided, stale);
      var values := Worth(joined.records, left);
      RightWritten(view.uindex.Keys(), view.rows, values, values, view.aggregator, undecided, undecided', stale);
    }

    // ---- Many joined records ----

    /** Pairs a new record with each of its matches, in whatever order they come. */
    method AddPairs(ps: set<Pair>, left: map<Handle, T>, groups: map<Handle, K>, ghost undecided: set<Handle>,
                    ghost stale: set<K>)
      requires Tracks(left, undecided, stale) && ps !! PairsOf(joined.records)
      requires forall p :: p in ps ==> p.left in left && p.left in groups
      modifies ViewRepr()
      ensures Tracks(left, undecided, stale) && PairsOf(joined.records) == old(PairsOf(joined.records)) + ps
      ensures FiledAnew(old(joined.records), joined.records, old(view.uindex.Keys()), view.uindex.Keys(), groups)
      ensures RowsKept(old(view.rows), view.rows, ToldPairs(groups, ps))
      ensures view.uindex.Valid() && Grown(old(joined.records), joined.records)
    {
      hide LeftCommutative, Fold, Once, Filed, Worth, PairsOf, RightBut, RowsKept, FiledAnew;
      hide Index.Valid, Index.Keys, JoinedTable.Valid, GroupBy.Sound;
      Parts(left, undecided, stale);
      ghost var records, keys, rows := joined.records, view.uindex.Keys(), view.rows;
      NothingFiledAnew(records, keys, groups);
      NoRowsKept(rows);
      var rest := ps;
      ghost var told: set<K> := {};
      while rest != {}
        invariant rest <= ps && Tracks(left, undecided, stale) && view.uindex.Valid()
        invariant PairsOf(joined.records) == PairsOf(records) + (ps - rest)
        invariant FiledAnew(records, joined.records, keys, view.uindex.Keys(), groups)
        invariant RowsKept(rows, view.rows, told) && told == ToldPairs(groups, ps - rest)
        invariant Grown(records, joined.records)
      {
        var p :| p in rest;
        Parts(left, undecided, stale);
        ghost var rows', records', keys' := view.rows, joined.records, view.uindex.Keys();
        var j := AddPair(p, groups[p.left], left, undecided, stale);
        FiledOneMore(records, records', keys, keys', groups, j, p);
        RowsKeptOn(rows, rows', view.rows, told, {groups[p.left]});
        rest, told := rest - {p}, told + {groups[p.left]};
      }
      assert ps - rest == ps;
    }

    lemma NothingFiledAnew(records: map<Handle, Pair>, keys: map<Handle, K>, groups: map<Handle, K>)
      ensures FiledAnew(records, records, keys, keys, groups)
    {
    }

    lemma RowsKeptOn(start: map<Handle, Row<K, V>>, before: map<Handle, Row<K, V>>, after: map<Handle, Row<K, V>>,
                     told: set<K>, more: set<K>)
      requires RowsKept(start, before, told) && RowsKept(before, after, more)
      ensures RowsKept(start, after, told + more)
    {
    }

    method TouchPairs(js: set<Handle>, left: map<Handle, T>, groups: map<Handle, K>, ghost undecided: set<Handle>,
                      ghost stale: set<K>)
      requires Tracks(left, undecided, stale) && js <= joined.records.Keys
      requires forall j :: j in js ==> joined.records[j].left in groups
      modifies view, view.aindex
      ensures view.uindex.Valid() && view.uindex.Keys() == old(view.uindex.Keys())
      ensures Tracks(left, undecided - js, stale + Strays(view.uindex.Keys(), Told(joined.records, groups), js))
      ensures RowsKept(old(view.rows), view.rows, Among(Told(joined.records, groups), js))
      ensures forall j :: j in js ==>
        HasRow(view.rows, view.uindex.Keys(), Worth(joined.records, left), view.aggregator, groups[joined.records[j].left])
    {
      hide LeftCommutative, Fold, Once, Filed, Worth, RightBut, RowsKept, Strays, Apart, HasRow;
      hide Index.Valid, Index.Keys, JoinedTable.Valid, GroupBy.Sound;
      Parts(left, undecided, stale);
      ghost var keys, rows, told := view.uindex.Keys(), view.rows, Told(joined.records, groups);
      ghost var values := Worth(joined.records, left);
      NoRowsKept(rows);
      NoStrays(keys, told, {});
      var rest := js;
      ghost var done, stale', kept := {}, stale, {};
      assert undecided - {} == undecided && stale + {} == stale;
      while rest != {}
        invariant rest <= js && done == js - rest && view.uindex.Valid() && view.uindex.Keys() == keys
        invariant Tracks(left, undecided - done, stale') && stale' == stale + Strays(keys, told, done)
        invariant RowsKept(rows, view.rows, kept) && kept == Among(told, done)
        invariant forall k :: k in kept ==> HasRow(view.rows, keys, values, view.aggregator, k)
      {
        var j :| j in rest;
        var key := groups[joined.records[j].left];
        ghost var rows' := view.rows;
        TouchPair(j, key, left, undecided - done, stale');
        RowsHad(rows', view.rows, keys, values, view.aggregator, kept, key);
        StraysMore(keys, told, done, j);
        assert undecided - (done + {j}) == undecided - done - {j};
        assert stale + (Strays(keys, told, done) + Apart(keys[j], told[j])) == stale' + Apart(keys[j], key);
        RowsKeptOn(rows, rows', view.rows, kept, {key});
        rest, done, stale', kept := rest - {j}, done + {j}, stale' + Apart(keys[j], key), kept + {key};
      }
      assert done == js;
    }

    // ---- Going through the pairs of a record ----

    /**
      The index of a side is being walked for one of its records: the cursor is at one of its entries or at the end,
      and all the joined records there are for it now are ahead.
    */
    ghost predicate Walks(index: Index<Handle>, side: Handle, cursor: Option<nat>, left: map<Handle, T>,
                          undecided: set<Handle>, stale: set<K>)
      reads Repr(), index
    {
      && Tracks(left, undecided, stale) && (index == joined.byLeft || index == joined.byRight)
      && (cursor.Some? ==> cursor.value in index.entries && index.entries[cursor.value].key == side)
      && Ahead(index.entries, side, cursor) == Range(index.entries, side)
    }

    /** What is known at an entry. */
    lemma WalkStands(index: Index<Handle>, side: Handle, at: nat, left: map<Handle, T>, undecided: set<Handle>,
                     stale: set<K>)
      requires Walks(index, side, Some(at), left, undecided, stale)
      ensures Tracks(left, undecided, stale) && (index == joined.byLeft || index == joined.byRight) && index.Valid()
      ensures at in index.entries && index.entries[at].key == side
      ensures Ahead(index.entries, side, Some(at)) == Range(index.entries, side)
      ensures var j := index.entries[at].record;
        && j in index.Keys() && index.Keys()[j] == side && j in Matching(index.Keys(), side)
        && (forall f :: f in index.entries && index.entries[f].record == j ==> f == at)
        && j in joined.records && view.uindex.Valid() && j in view.uindex.Keys()
    {
      hide RightBut, LeftCommutative, Once;
      Parts(left, undecided, stale);
      index.EntryOf(at);
    }

    /** The cursor moves on before the entry it was at goes. */
    method DropNext(index: Index<Handle>, side: Handle, at: nat, left: map<Handle, T>, groups: map<Handle, K>,
                    ghost undecided: set<Handle>, ghost stale: set<K>) returns (cursor: Option<nat>, j: Handle)
      requires Walks(index, side, Some(at), left, undecided, stale) && index.Valid() && view.uindex.Valid()
      requires forall j :: j in Matching(index.Keys(), side) ==>
        j in joined.records && joined.records[j].left in groups && j in view.uindex.Keys()
      modifies ViewRepr()
      ensures j in old(Matching(index.Keys(), side)) && index.Valid() && view.uindex.Valid()
      ensures Walks(index, side, cursor, left, undecided - {j},
        stale + old(Apart(view.uindex.Keys()[j], groups[joined.records[j].left])))
      ensures Matching(index.Keys(), side) == old(Matching(index.Keys(), side)) - {j}
      ensures joined.records == old(joined.records) - {j} && view.uindex.Keys() == old(view.uindex.Keys()) - {j}
      ensures RowsKept(old(view.rows), view.rows, {groups[old(joined.records)[j].left]})
    {
      hide LeftCommutative, Fold, Once, Filed, Worth, RightBut, RowsKept, Apart, Without, Lefts, Rights, Matching;
      hide Index.Valid, Index.Keys, JoinedTable.Valid, GroupBy.Sound, Join.Walks;
      WalkStands(index, side, at, left, undecided, stale);
      j := index.entries[at].record;
      cursor := index.NextInRange(side, at + 1);
      WalkGoesOn(index.entries, side, at, cursor);
      ghost var key := groups[joined.records[j].left];
      DropPair(j, groups[joined.records[j].left], left, undecided, stale);
      MatchingWithout(old(index.Keys()), side, j);
      WalkStarts(index, side, cursor, left, undecided - {j}, stale + Apart(old(view.uindex.Keys())[j], key));
    }

    lemma WalkStarts(index: Index<Handle>, side: Handle, cursor: Option<nat>, left: map<Handle, T>,
                     undecided: set<Handle>, stale: set<K>)
      requires Tracks(left, undecided, stale) && (index == joined.byLeft || index == joined.byRight)
      requires cursor.Some? ==> cursor.value in index.entries && index.entries[cursor.value].key == side
      requires Ahead(index.entries, side, cursor) == Range(index.entries, side)
      ensures Walks(index, side, cursor, left, undecided, stale) && index.Valid() && view.uindex.Valid()
    {
      hide RightBut, LeftCommutative, Once;
      Parts(left, undecided, stale);
    }

    lemma WalkEnds(index: Index<Handle>, side: Handle, left: map<Handle, T>, undecided: set<Handle>, stale: set<K>)
      requires Walks(index, side, None, left, undecided, stale)
      ensures Tracks(left, undecided, stale) && index.Valid() && Matching(index.Keys(), side) == {}
    {
      hide RightBut, LeftCommutative, Once;
      Parts(left, undecided, stale);
      index.NoRange(side);
    }

    method StartWalk(index: Index<Handle>, side: Handle, ghost left: map<Handle, T>, ghost undecided: set<Handle>,
                     ghost stale: set<K>) returns (cursor: Option<nat>)
      requires Tracks(left, undecided, stale) && (index == joined.byLeft || index == joined.byRight)
      ensures Walks(index, side, cursor, left, undecided, stale) && index.Valid() && view.uindex.Valid()
    {
      hide LeftCommutative, Fold, Once, Filed, Worth, RightBut, Index.Valid, Index.Keys, Join.Walks;
      hide JoinedTable.Valid, GroupBy.Sound, Lefts, Rights;
      Parts(left, undecided, stale);
      cursor := index.FirstInRange(side);
      WalkStarts(index, side, cursor, left, undecided, stale);
    }

    /** Removes the joined records of one side's record by walking the index they are removed from. */
    method DropRange(index: Index<Handle>, side: Handle, left: map<Handle, T>, groups: map<Handle, K>,
                     ghost undecided: set<Handle>, ghost stale: set<K>) returns (ghost gone: set<Handle>)
      requires Tracks(left, undecided, stale) && (index == joined.byLeft || index == joined.byRight)
      requires index.Valid() && view.uindex.Valid()
      requires forall j :: j in Matching(index.Keys(), side) ==>
        j in joined.records && joined.records[j].left in groups && j in view.uindex.Keys()
      modifies ViewRepr()
      ensures gone == old(Matching(index.Keys(), side)) && view.uindex.Valid()
      ensures Tracks(left, undecided - gone,
        stale + old(Strays(view.uindex.Keys(), Told(joined.records, groups), Matching(index.Keys(), side))))
      ensures joined.records == old(joined.records) - gone && view.uindex.Keys() == old(view.uindex.Keys()) - gone
      ensures RowsKept(old(view.rows), view.rows, Among(Told(old(joined.records), groups), gone))
    {
      hide LeftCommutative, Fold, Once, Filed, Worth, RightBut, RowsKept, Strays, Apart, Matching;
      hide Index.Valid, Index.Keys, JoinedTable.Valid, GroupBy.Sound, Without, Lefts, Rights;
      hide Join.Walks, Join.Tracks;
      gone := {};
      ghost var keys, rows, records := view.uindex.Keys(), view.rows, joined.records;
      ghost var told := Told(records, groups);
      ghost var range := Matching(index.Keys(), side);
      NoRowsKept(rows);
      NoStrays(keys, told, {});
      assert undecided - {} == undecided && stale + {} == stale;
      var cursor := StartWalk(index, side, left, undecided, stale);
      ghost var stale', kept := stale, {};
      while cursor.Some?
        invariant index.Valid() && view.uindex.Valid()
        invariant Walks(index, side, cursor, left, undecided - gone, stale') && gone <= range
        invariant stale' == stale + Strays(keys, told, gone) && Matching(index.Keys(), side) == range - gone
        invariant joined.records == records - gone && view.uindex.Keys() == keys - gone
        invariant RowsKept(rows, view.rows, kept) && kept == Among(told, gone)
        decreases range - gone
      {
        var j;
        ghost var rows' := view.rows;
        cursor, j := DropNext(index, side, cursor.value, left, groups, undecided - gone, stale');
        ghost var key := groups[records[j].left];
        StraysMore(keys, told, gone, j);
        assert undecided - (gone + {j}) == undecided - gone - {j};
        assert stale + (Strays(keys, told, gone) + Apart(keys[j], told[j])) == stale' + Apart(keys[j], key);
        RowsKeptOn(rows, rows', view.rows, kept, {key});
        gone, stale', kept := gone + {j}, stale' + Apart(keys[j], key), kept + {key};
      }
      WalkEnds(index, side, left, undecided - gone, stale');
      assert gone == range;
    }

    // ---- Notifications of the left side ----

    method OnLeftCreated(l: Handle, key: J, left: map<Handle, T>, groups: map<Handle, K>, ghost dirty: set<Handle>,
                         ghost stale: set<K>)
      requires IsExact(left, dirty, stale) && lindex.Valid() && rindex.Valid() && view.uindex.Valid()
      requires l !in lindex.Keys() && (Matching(rindex.Keys(), key) != {} ==> l in left && l in groups)
      modifies Repr()
      ensures IsExact(left, dirty, stale) && lindex.Valid() && rindex.Valid() && view.uindex.Valid()
      ensures lindex.Keys() == old(lindex.Keys())[l := key] && rindex.Keys() == old(rindex.Keys())
      ensures FiledAnew(old(joined.records), joined.records, old(view.uindex.Keys()), view.uindex.Keys(), groups)
      ensures RowsKept(old(view.rows), view.rows, ToldBy(groups, {l}))
    {
      hide LeftCommutative, Fold, Once, Filed, Worth, Matching, RightBut, RowsKept, FiledAnew, PairsOf, ToldPairs;
      hide ToldBy, Index.Valid, Index.Keys, GroupBy.Sound, JoinedTable.Valid;
      ghost var undecided := Undecided(joined.records, dirty);
      MatchesGrow(lindex.Keys(), rindex.Keys(), l, key);
      ghost var lkeys := lindex.Keys();
      lindex.Created(l, key);
      var matches := rindex.EqualRange(key);
      NewPairs(lkeys, rindex.Keys(), l, matches);
      ghost var rows := view.rows;
      AddPairs(set r | r in matches :: Pair(l, r), left, groups, undecided, stale);
      ToldToSides(groups, l, matches);
      MoreKept(rows, view.rows, ToldPairs(groups, set r | r in matches :: Pair(l, r)), ToldBy(groups, {l}));
      Relax(left, undecided, Undecided(joined.records, dirty), stale);
    }

    method OnLeftModified(l: Handle, left: map<Handle, T>, groups: map<Handle, K>, ghost dirty: set<Handle>,
                          ghost stale: set<K>)
      requires IsExact(left, dirty, stale) && l in groups
      modifies view, view.aindex
      ensures Sound() && lindex.Valid() && rindex.Valid() && view.uindex.Valid()
      ensures IsExact(left, dirty - {l},
        stale + Strays(view.uindex.Keys(), Told(joined.records, groups), LeftPairs(joined.records, l)))
      ensures lindex.Keys() == old(lindex.Keys()) && rindex.Keys() == old(rindex.Keys())
      ensures view.uindex.Keys() == old(view.uindex.Keys())
      ensures RowsKept(old(view.rows), view.rows, {groups[l]})
      ensures LeftPairs(joined.records, l) != {} ==>
        HasRow(view.rows, view.uindex.Keys(), Worth(joined.records, left), view.aggregator, groups[l])
    {
      hide LeftCommutative, Fold, Once, Filed, Worth, Matching, PairsOf, RightBut, RowsKept, Strays, HasRow, Among;
      hide Index.Valid, Index.Keys, GroupBy.Sound;
      ExactIsSound(left, dirty, stale);
      var js := joined.OfLeft(l);
      ghost var rows, told := view.rows, Told(joined.records, groups);
      TouchPairs(js, left, groups, Undecided(joined.records, dirty), stale);
      AmongLeft(joined.records, groups, l);
      MoreKept(rows, view.rows, Among(told, js), {groups[l]});
      Relax(left, Undecided(joined.records, dirty) - js, Undecided(joined.records, dirty - {l}),
        stale + Strays(view.uindex.Keys(), told, js));
    }

    method OnLeftRemoved(l: Handle, left: map<Handle, T>, groups: map<Handle, K>, ghost dirty: set<Handle>,
                         ghost stale: set<K>)
      requires IsExact(left, dirty, stale) && lindex.Valid() && rindex.Valid() && view.uindex.Valid() && l in groups
      modifies Repr()
      ensures lindex.Valid() && rindex.Valid() && view.uindex.Valid()
      ensures IsExact(left, dirty - {l},
        stale + old(Strays(view.uindex.Keys(), Told(joined.records, groups), LeftPairs(joined.records, l))))
      ensures lindex.Keys() == old(lindex.Keys()) - {l} && rindex.Keys() == old(rindex.Keys())
      ensures joined.records == old(joined.records) - old(LeftPairs(joined.records, l))
      ensures view.uindex.Keys() == old(view.uindex.Keys()) - old(LeftPairs(joined.records, l))
      ensures RowsKept(old(view.rows), view.rows, {groups[l]})
    {
      hide LeftCommutative, Fold, Once, Filed, Worth, Matching, PairsOf, RightBut, RowsKept, Strays, Matches, LeftPairs;
      hide Index.Valid, Index.Keys, GroupBy.Sound, Told;
      ghost var lkeys := lindex.Keys();
      ForgetLeft(l, left, dirty, stale);
      DropLeft(l, left, groups, dirty, stale, lkeys);
    }

    /** The index of the left side is told of a removal. */
    method ForgetLeft(l: Handle, ghost left: map<Handle, T>, ghost dirty: set<Handle>, ghost stale: set<K>)
      requires IsExact(left, dirty, stale) && lindex.Valid() && rindex.Valid() && view.uindex.Valid()
      modifies lindex
      ensures Tracks(left, Undecided(joined.records, dirty), stale) && lindex.Valid() && rindex.Valid()
      ensures Complete(old(lindex.Keys())) && view.uindex.Valid() && view.uindex.Keys() == old(view.uindex.Keys())
      ensures lindex.Keys() == old(lindex.Keys()) - {l} && rindex.Keys() == old(rindex.Keys())
    {
      hide LeftCommutative, Fold, Once, Filed, Worth, Matching, Matches, PairsOf, RightBut;
      hide Index.Valid, Index.Keys, GroupBy.Sound;
      lindex.Removed(l);
    }

    /**
      Then the joined table is, and the pairs of the record go. Should their group come out differently by now, they
      go nevertheless, and the row of the group they are filed under is left behind.
    */
    method DropLeft(l: Handle, left: map<Handle, T>, groups: map<Handle, K>, ghost dirty: set<Handle>,
                    ghost stale: set<K>, ghost lkeys: map<Handle, J>)
      requires Tracks(left, Undecided(joined.records, dirty), stale) && l in groups
      requires lindex.Valid() && rindex.Valid() && view.uindex.Valid()
      requires Complete(lkeys) && lindex.Keys() == lkeys - {l}
      modifies ViewRepr()
      ensures lindex.Valid() && rindex.Valid() && view.uindex.Valid()
      ensures IsExact(left, dirty - {l},
        stale + old(Strays(view.uindex.Keys(), Told(joined.records, groups), LeftPairs(joined.records, l))))
      ensures lindex.Keys() == old(lindex.Keys()) && rindex.Keys() == old(rindex.Keys())
      ensures joined.records == old(joined.records) - old(LeftPairs(joined.records, l))
      ensures view.uindex.Keys() == old(view.uindex.Keys()) - old(LeftPairs(joined.records, l))
      ensures RowsKept(old(view.rows), view.rows, {groups[l]})
    {
      hide LeftCommutative, Fold, Once, Filed, Worth, Matching, RightBut, RowsKept, Strays, Told, Among;
      hide Index.Valid, Index.Keys, GroupBy.Sound;
      MatchesShrink(lkeys, rindex.Keys(), l);
      ghost var before, undecided, rows := joined.records, Undecided(joined.records, dirty), view.rows;
      ghost var keys := view.uindex.Keys();
      Parts(left, undecided, stale);
      MatchingSides(before, l);
      ghost var js := DropRange(joined.byLeft, l, left, groups, undecided, stale);
      PairsWithout(before, js);
      AmongLeft(before, groups, l);
      MoreKept(rows, view.rows, Among(Told(before, groups), js), {groups[l]});
      Relax(left, undecided - js, Undecided(joined.records, dirty - {l}),
        stale + Strays(keys, Told(before, groups), js));
    }

    lemma NoPairsLeft(l: Handle, left: map<Handle, T>, dirty: set<Handle>, stale: set<K>)
      requires IsExact(left, dirty, stale) && lindex.Valid() && l !in lindex.Keys()
      ensures forall j :: j in joined.records ==> joined.records[j].left != l
    {
      hide RightBut, Index.Valid, Index.Keys, GroupBy.Sound, JoinedTable.Valid, Filed;
      forall j | j in joined.records ensures joined.records[j].left != l {
        assert joined.records[j] in PairsOf(joined.records);
      }
    }

    // ---- Notifications of the right side ----

    method OnRightCreated(r: Handle, key: J, left: map<Handle, T>, groups: map<Handle, K>, ghost dirty: set<Handle>,
                          ghost stale: set<K>)
      requires IsExact(left, dirty, stale) && lindex.Valid() && rindex.Valid() && view.uindex.Valid()
      requires r !in rindex.Keys() && Matching(lindex.Keys(), key) <= left.Keys * groups.Keys
      modifies Repr()
      ensures IsExact(left, dirty, stale) && lindex.Valid() && rindex.Valid() && view.uindex.Valid()
      ensures lindex.Keys() == old(lindex.Keys()) && rindex.Keys() == old(rindex.Keys())[r := key]
      ensures FiledAnew(old(joined.records), joined.records, old(view.uindex.Keys()), view.uindex.Keys(), groups)
      ensures RowsKept(old(view.rows), view.rows, ToldBy(groups, Matching(lindex.Keys(), key)))
    {
      hide LeftCommutative, Fold, Once, Filed, Worth, RightBut, RowsKept, FiledAnew, ToldPairs, ToldBy;
      hide Index.Valid, Index.Keys, GroupBy.Sound, JoinedTable.Valid;
      ghost var undecided := Undecided(joined.records, dirty);
      MatchesGrow(lindex.Keys(), rindex.Keys(), r, key);
      rindex.Created(r, key);
      var matches := lindex.EqualRange(key);
      ghost var rows := view.rows;
      AddPairs(set l | l in matches :: Pair(l, r), left, groups, undecided, stale);
      ToldToSides(groups, r, matches);
      Relax(left, undecided, Undecided(joined.records, dirty), stale);
    }

    method OnRightModified(r: Handle, left: map<Handle, T>, groups: map<Handle, K>, ghost dirty: set<Handle>,
                           ghost stale: set<K>)
      requires IsExact(left, dirty, stale)
      requires forall j :: j in RightPairs(joined.records, r) ==> joined.records[j].left in groups
      modifies view, view.aindex
      ensures Sound() && lindex.Valid() && rindex.Valid() && view.uindex.Valid()
      ensures IsExact(left, dirty,
        stale + Strays(view.uindex.Keys(), Told(joined.records, groups), RightPairs(joined.records, r)))
      ensures lindex.Keys() == old(lindex.Keys()) && rindex.Keys() == old(rindex.Keys())
      ensures view.uindex.Keys() == old(view.uindex.Keys())
      ensures RowsKept(old(view.rows), view.rows,
        Among(Told(joined.records, groups), RightPairs(joined.records, r)))
    {
      hide LeftCommutative, Fold, Once, Filed, Worth, Matching, PairsOf, RightBut, RowsKept, Strays, HasRow, Among;
      hide Index.Valid, Index.Keys, GroupBy.Sound;
      ExactIsSound(left, dirty, stale);
      var js := joined.OfRight(r);
      TouchPairs(js, left, groups, Undecided(joined.records, dirty), stale);
      Relax(left, Undecided(joined.records, dirty) - js, Undecided(joined.records, dirty),
        stale + Strays(view.uindex.Keys(), Told(joined.records, groups), js));
    }

    method OnRightRemoved(r: Handle, left: map<Handle, T>, groups: map<Handle, K>, ghost dirty: set<Handle>,
                          ghost stale: set<K>)
      requires IsExact(left, dirty, stale) && lindex.Valid() && rindex.Valid() && view.uindex.Valid()
      requires forall j :: j in RightPairs(joined.records, r) ==> joined.records[j].left in groups
      modifies Repr()
      ensures lindex.Valid() && rindex.Valid() && view.uindex.Valid()
      ensures IsExact(left, dirty,
        stale + old(Strays(view.uindex.Keys(), Told(joined.records, groups), RightPairs(joined.records, r))))
      ensures lindex.Keys() == old(lindex.Keys()) && rindex.Keys() == old(rindex.Keys()) - {r}
      ensures joined.records == old(joined.records) - old(RightPairs(joined.records, r))
      ensures view.uindex.Keys() == old(view.uindex.Keys()) - old(RightPairs(joined.records, r))
      ensures RowsKept(old(view.rows), view.rows,
        old(Among(Told(joined.records, groups), RightPairs(joined.records, r))))
    {
      hide LeftCommutative, Fold, Once, Filed, Worth, Matching, RightBut, RowsKept, Strays, Told, Among;
      hide Index.Valid, Index.Keys, GroupBy.Sound;
      MatchesShrink(lindex.Keys(), rindex.Keys(), r);
      ghost var before, undecided := joined.records, Undecided(joined.records, dirty);
      ghost var keys := view.uindex.Keys();
      rindex.Removed(r);
      Parts(left, undecided, stale);
      MatchingSides(before, r);
      ghost var js := DropRange(joined.byRight, r, left, groups, undecided, stale);
      PairsWithout(before, js);
      Relax(left, undecided - js, Undecided(joined.records, dirty), stale + Strays(keys, Told(before, groups), js));
    }

    // ---- Either side was cleared ----

    method ClearJoined(ghost left: map<Handle, T>)
      requires Sound()
      modifies ViewRepr()
      ensures Tracks(left, {}, {}) && joined.records == map[] && PairsOf(joined.records) == {}
      ensures view.uindex.Valid() && view.uindex.Keys() == map[] && view.rows == map[]
    {
      hide LeftCommutative, Fold, Filed, Worth, Once, PairsOf, RightBut, Index.Valid, Index.Keys, JoinedTable.Valid;
      joined.Clear();
      view.OnCleared();
      view.ValidIsSound();
      NothingJoined<T, K, V>(left, view.aggregator);
    }

    method OnLeftCleared(ghost left: map<Handle, T>)
      requires Sound() && rindex.Valid()
      modifies Repr()
      ensures IsExact(left, {}, {}) && lindex.Valid() && rindex.Valid() && view.uindex.Valid()
      ensures lindex.Keys() == map[] && rindex.Keys() == old(rindex.Keys())
      ensures joined.records == map[] && view.uindex.Keys() == map[] && view.rows == map[]
    {
      hide LeftCommutative, Fold, Once, Filed, Worth, RightBut;
      hide Index.Valid, Index.Keys, GroupBy.Sound, JoinedTable.Valid;
      ClearJoined(left);
      lindex.Cleared();
      assert Undecided(joined.records, {}) == {};
      assert PairsOf(joined.records) == {} == Matches(lindex.Keys(), rindex.Keys());
    }

    method OnRightCleared(ghost left: map<Handle, T>)
      requires Sound() && lindex.Valid()
      modifies Repr()
      ensures IsExact(left, {}, {}) && lindex.Valid() && rindex.Valid() && view.uindex.Valid()
      ensures rindex.Keys() == map[] && lindex.Keys() == old(lindex.Keys())
      ensures joined.records == map[] && view.uindex.Keys() == map[] && view.rows == map[]
    {
      hide LeftCommutative, Fold, Once, Filed, Worth, RightBut;
      hide Index.Valid, Index.Keys, GroupBy.Sound, JoinedTable.Valid;
      ClearJoined(left);
      rindex.Cleared();
      assert Undecided(joined.records, {}) == {};
      assert PairsOf(joined.records) == {} == Matches(lindex.Keys(), rindex.Keys());
    }
  }

  lemma TouchedRight<T(!new), K(!new), V(!new)>(
      keys: map<Handle, K>, rows: map<Handle, Row<K, V>>, rows': map<Handle, Row<K, V>>, values: map<Handle, T>,
      aggregator: Aggregator<T, V>, undecided: set<Handle>, stale: set<K>, j: Handle, key: K, event: RowEvent)
    requires RightBut(keys, rows, values, aggregator, undecided, stale) && LeftCommutative(aggregator.step)
    requires RowsAfter(rows, rows', key, event) && Recomputed(keys, rows', values, aggregator, key, event) && j in keys
    ensures RightBut(keys, rows', values, aggregator, undecided - {j}, stale + Apart(keys[j], key))
    ensures RowsKept(rows, rows', {key}) && HasRow(rows', keys, values, aggregator, key)
  {
    hide LeftCommutative, Fold, Refreshed, RowsAfter;
    if keys[j] == key {
      assert j in Matching(keys, key);
      RecomputedIsRefreshed(keys, rows', values, aggregator, key, event);
    }
    RightAfter(keys, rows, values, keys, rows', values, aggregator, undecided, undecided - {j}, stale,
      stale + Apart(keys[j], key), key, event);
    assert RowsKept(rows, rows, {}) && {} + {key} == {key};
    RowsKeptAfter(rows, rows, rows', {}, key, event);
  }

  /** The row of a key is worth what is filed under it. */
  ghost predicate HasRow<T(!new), K, V(!new)>(
      rows: map<Handle, Row<K, V>>, keys: map<Handle, K>, values: map<Handle, T>, aggregator: Aggregator<T, V>, key: K)
  {
    && Matching(keys, key) <= values.Keys
    && exists r :: r in rows && rows[r] == Row(key, Fold(Matching(keys, key), values, aggregator.zero, aggregator.step))
  }

  lemma MoreKept<K(!new), V(!new)>(
      before: map<Handle, Row<K, V>>, after: map<Handle, Row<K, V>>, told: set<K>, more: set<K>)
    requires RowsKept(before, after, told) && told <= more
    ensures RowsKept(before, after, more)
  {
  }

  lemma RowsHad<T(!new), K(!new), V(!new)>(
      before: map<Handle, Row<K, V>>, after: map<Handle, Row<K, V>>, keys: map<Handle, K>, values: map<Handle, T>,
      aggregator: Aggregator<T, V>, kept: set<K>, key: K)
    requires RowsKept(before, after, {key}) && HasRow(after, keys, values, aggregator, key)
    requires forall k :: k in kept ==> HasRow(before, keys, values, aggregator, k)
    ensures forall k :: k in kept + {key} ==> HasRow(after, keys, values, aggregator, k)
  {
    hide Fold, Matching;
    forall k | k in kept && k != key ensures HasRow(after, keys, values, aggregator, k) {
      var r :| r in before && before[r] == Row(k, Fold(Matching(keys, k), values, aggregator.zero, aggregator.step));
      assert r in after && after[r] == before[r];
    }
  }
}
