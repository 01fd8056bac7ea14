/**
  What the statistics of a node say: they are those of the completed calls that
  were made along the node's path, one by one.
*/
module NodeSums {
  import opened Statistics
  import opened ShadowStack
  import opened CallTree

  /** The calls made along a path of callees. */
  function CallsAt(calls: seq<Call>, p: Path): seq<Call>
    decreases |p|, |calls|
  {
    if p == [] || calls == [] then [] else
    var c := calls[|calls| - 1];
    CallsAt(calls[..|calls| - 1], p)
    + if c.callee != p[0] then [] else if |p| == 1 then [c] else CallsAt(c.children, p[1..])
  }

  /** What the completed calls of one level add to a node. */
  function CompletedOf(open: Path, done: seq<Call>, p: Path): seq<Call> {
    if open <= p then CallsAt(done, p[|open|..]) else []
  }

  /** Those that are completed, while others may be open still. */
  function CompletedAt(levels: seq<Level>, p: Path): seq<Call> {
    if levels == [] then [] else
    var n, open := |levels|, LevelPath(levels);
    CompletedAt(levels[..n - 1], p) + CompletedOf(open, levels[n - 1].done, p)
  }

  function InclusiveTimes(calls: seq<Call>, overhead: Overhead): int {
    if calls == [] then 0 else InclusiveTimes(calls[1..], overhead) + InclusiveTime(calls[0], overhead)
  }

  function ExclusiveTimes(calls: seq<Call>, overhead: Overhead): int {
    if calls == [] then 0 else ExclusiveTimes(calls[1..], overhead) + ExclusiveTime(calls[0], overhead)
  }

  /** The longest call, if there is one that takes any time. */
  ghost predicate IsLongest(calls: seq<Call>, overhead: Overhead, longest: nat) {
    && (forall c :: c in calls ==> InclusiveTime(c, overhead) <= longest)
    && (longest == 0 || exists c :: c in calls && InclusiveTime(c, overhead) == longest)
  }

  ghost predicate SumsUp(s: FunctionStatistics, calls: seq<Call>, overhead: Overhead) {
    && s.timesCalled == |calls|
    && s.inclusiveTime == InclusiveTimes(calls, overhead)
    && s.exclusiveTime == ExclusiveTimes(calls, overhead)
    && IsLongest(calls, overhead, s.maxCallTime)
  }

  lemma {:induction false} TimesAppend(a: seq<Call>, b: seq<Call>, overhead: Overhead)
    ensures InclusiveTimes(a + b, overhead) == InclusiveTimes(a, overhead) + InclusiveTimes(b, overhead)
    ensures ExclusiveTimes(a + b, overhead) == ExclusiveTimes(a, overhead) + ExclusiveTimes(b, overhead)
  {
    hide InclusiveTime, ExclusiveTime;
    if a == [] {
      assert a + b == b;
    } else {
      assert (a + b)[1..] == a[1..] + b;
      TimesAppend(a[1..], b, overhead);
    }
  }

  lemma SumsAppend(s: FunctionStatistics, a: seq<Call>, t: FunctionStatistics, b: seq<Call>, overhead: Overhead)
    requires SumsUp(s, a, overhead) && SumsUp(t, b, overhead)
    ensures SumsUp(Add(s, t), a + b, overhead)
  {
    hide InclusiveTime, ExclusiveTime, InclusiveTimes, ExclusiveTimes;
    TimesAppend(a, b, overhead);
    var longest := Add(s, t).maxCallTime;
    if longest == s.maxCallTime && longest > 0 {
      var c :| c in a && InclusiveTime(c, overhead) == longest;
      assert c in a + b;
    } else if longest > 0 {
      var c :| c in b && InclusiveTime(c, overhead) == longest;
      assert c in a + b;
    }
  }

  lemma NothingSumsUp(overhead: Overhead)
    ensures SumsUp(Zero(), [], overhead)
  {
  }

  lemma OneSumsUp(c: Call, overhead: Overhead)
    ensures SumsUp(StatisticsOf(c, overhead), [c], overhead)
  {
    assert [c][1..] == [];
    assert InclusiveTimes([], overhead) == ExclusiveTimes([], overhead) == 0;
    var longest := Max(0, InclusiveTime(c, overhead));
    hide InclusiveTime, ExclusiveTime;
    assert IsLongest([c], overhead, longest) by {
      assert [c][0] == c && c in [c];
    }
  }

  /** Calls are accounted at nodes below the one they are made from. */
  lemma {:induction false} NodesBelow(prefix: Path, calls: seq<Call>, overhead: Overhead)
    ensures forall q :: q in ForestOfAll(prefix, calls, overhead) ==> prefix < q
    decreases calls, |calls|
  {
    if calls != [] {
      var rest, c := calls[..|calls| - 1], calls[|calls| - 1];
      NodesBelow(prefix, rest, overhead);
      NodesOfOne(prefix, c, overhead);
      MergeKeys(ForestOfAll(prefix, rest, overhead), ForestOf(prefix, c, overhead));
      hide ForestOf, Merge;
    }
  }

  lemma {:induction false} NodesOfOne(prefix: Path, c: Call, overhead: Overhead)
    ensures forall q :: q in ForestOf(prefix, c, overhead) ==> prefix + [c.callee] <= q && prefix < q
    decreases c, 0
  {
    var p := prefix + [c.callee];
    NodesBelow(p, c.children, overhead);
    MergeKeys(map[p := StatisticsOf(c, overhead)], ForestOfAll(p, c.children, overhead));
    assert prefix < p;
    hide ForestOfAll, Merge, StatisticsOf;
    forall q | q in ForestOf(prefix, c, overhead) ensures p <= q && prefix < q {
      assert p <= q ==> q[..|prefix|] == p[..|prefix|] == prefix;
    }
  }

  lemma {:induction false} NodeOfAll(prefix: Path, calls: seq<Call>, p: Path, overhead: Overhead)
    ensures SumsUp(At(ForestOfAll(prefix, calls, overhead), prefix + p), CallsAt(calls, p), overhead)
    decreases calls, |calls|
  {
    hide SumsUp, Merge, StatisticsOf;
    NothingSumsUp(overhead);
    if p == [] {
      NodesBelow(prefix, calls, overhead);
      assert prefix + p == prefix;
    } else if calls != [] {
      var rest, c := calls[..|calls| - 1], calls[|calls| - 1];
      NodeOfAll(prefix, rest, p, overhead);
      NodeOfOne(prefix, c, p, overhead);
      var before, one := ForestOfAll(prefix, rest, overhead), ForestOf(prefix, c, overhead);
      MergeAt(before, one, prefix + p);
      SumsAppend(At(before, prefix + p), CallsAt(rest, p), At(one, prefix + p), CallsOf(c, p), overhead);
    }
  }

  /** The part of one call in the calls made along a path. */
  function CallsOf(c: Call, p: Path): seq<Call>
    requires p != []
  {
    if c.callee != p[0] then [] else if |p| == 1 then [c] else CallsAt(c.children, p[1..])
  }

  lemma {:induction false} NodeOfOne(prefix: Path, c: Call, p: Path, overhead: Overhead)
    requires p != []
    ensures SumsUp(At(ForestOf(prefix, c, overhead), prefix + p), CallsOf(c, p), overhead)
    decreases c, 0
  {
    hide SumsUp, Merge, StatisticsOf, ForestOfAll, CallsAt;
    if c.callee != p[0] {
      hide ForestOf;
      NothingSumsUp(overhead);
      NodesOfOne(prefix, c, overhead);
      NotBelow(prefix, c.callee, p);
    } else {
      var node := prefix + [c.callee];
      var inside := ForestOfAll(node, c.children, overhead);
      assert node + p[1..] == prefix + p;
      NodeOfAll(node, c.children, p[1..], overhead);
      MergeAt(map[node := StatisticsOf(c, overhead)], inside, prefix + p);
      if |p| == 1 {
        OneSumsUp(c, overhead);
        NodesBelow(node, c.children, overhead);
        assert prefix + p == node;
        AddZero(StatisticsOf(c, overhead));
      } else {
        assert |prefix + p| > |node|;
        ZeroAdds(At(inside, prefix + p));
      }
    }
  }

  lemma NotBelow(prefix: Path, callee: Address, p: Path)
    requires p != [] && p[0] != callee
    ensures !(prefix + [callee] <= prefix + p)
  {
    assert (prefix + p)[|prefix|] == p[0] && (prefix + [callee])[|prefix|] == callee;
  }

  lemma ZeroAdds(s: FunctionStatistics)
    ensures Add(Zero(), s) == s
  {
  }

  lemma MergeSumsUp(f: Forest, a: seq<Call>, g: Forest, b: seq<Call>, p: Path, overhead: Overhead)
    requires SumsUp(At(f, p), a, overhead) && SumsUp(At(g, p), b, overhead)
    ensures SumsUp(At(Merge(f, g), p), a + b, overhead)
  {
    hide SumsUp, Merge;
    MergeAt(f, g, p);
    SumsAppend(At(f, p), a, At(g, p), b, overhead);
  }

  lemma NodeInside(open: Path, done: seq<Call>, p: Path, overhead: Overhead)
    ensures SumsUp(At(ForestOfAll(open, done, overhead), p), CompletedOf(open, done, p), overhead)
  {
    hide SumsUp, ForestOfAll, CallsAt;
    if open <= p {
      NodeOfAll(open, done, p[|open|..], overhead);
      assert open + p[|open|..] == p;
    } else {
      NothingSumsUp(overhead);
      NodesBelow(open, done, overhead);
    }
  }

  lemma NodeOfLevel(open: Path, done: seq<Call>, bare: Forest, p: Path, overhead: Overhead)
    requires bare == map[] || bare == map[open := Zero()]
    ensures SumsUp(At(Merge(bare, ForestOfAll(open, done, overhead)), p), CompletedOf(open, done, p), overhead)
  {
    hide SumsUp, ForestOfAll, CompletedOf, Merge;
    NothingSumsUp(overhead);
    NodeInside(open, done, p, overhead);
    MergeSumsUp(bare, [], ForestOfAll(open, done, overhead), CompletedOf(open, done, p), p, overhead);
    assert [] + CompletedOf(open, done, p) == CompletedOf(open, done, p);
  }

  lemma LastCompletedApart(levels: seq<Level>, p: Path)
    requires levels != []
    ensures var n := |levels|;
      CompletedAt(levels, p)
      == CompletedAt(levels[..n - 1], p) + CompletedOf(LevelPath(levels), levels[n - 1].done, p)
  {
    hide CompletedOf, LevelPath;
  }

  /** What is accounted for by all levels but the last, and by that one. */
  lemma LastApart(levels: seq<Level>, overhead: Overhead) returns (bare: Forest)
    requires levels != []
    ensures var n, open := |levels|, LevelPath(levels);
      && (bare == map[] || bare == map[open := Zero()])
      && LevelsForest(levels, overhead)
         == Merge(LevelsForest(levels[..n - 1], overhead), Merge(bare, ForestOfAll(open, levels[n - 1].done, overhead)))
  {
    hide Merge, LevelsForest, ForestOfAll, Zero;
    bare := if |levels| == 1 then map[] else map[LevelPath(levels) := Zero()];
    LastLevelApart(levels, overhead);
  }

  lemma {:induction false} NodeOfLevels(levels: seq<Level>, p: Path, overhead: Overhead)
    ensures SumsUp(At(LevelsForest(levels, overhead), p), CompletedAt(levels, p), overhead)
    decreases |levels|
  {
    if levels == [] {
      NothingSumsUp(overhead);
    } else {
      hide *;
      var rest, open, done := levels[..|levels| - 1], LevelPath(levels), levels[|levels| - 1].done;
      var bare := LastApart(levels, overhead);
      LastCompletedApart(levels, p);
      NodeOfLevels(rest, p, overhead);
      NodeOfLevel(open, done, bare, p, overhead);
      MergeSumsUp(LevelsForest(rest, overhead), CompletedAt(rest, p), Merge(bare, ForestOfAll(open, done, overhead)),
        CompletedOf(open, done, p), p, overhead);
    }
  }

  /**
    After any trace, at any node: as many calls as have been completed along its path, their times added up, and the
    time of the longest of them.
  */
  lemma NodeIsItsCalls(bottom: Frame, trace: seq<CallRecord>, overhead: Overhead, p: Path)
    requires WellNested(1, trace)
    ensures SumsUp(At(Run(State([bottom], map[]), trace, overhead).forest, p), CompletedAt(Parse(trace), p), overhead)
  {
    hide *;
    RunIsMeaning(bottom, trace, overhead);
    MeaningForest(bottom, Parse(trace), overhead);
    NodeOfLevels(Parse(trace), p, overhead);
  }

  lemma MeaningForest(bottom: Frame, levels: seq<Level>, overhead: Overhead)
    ensures Meaning(bottom, levels, overhead).forest == LevelsForest(levels, overhead)
  {
  }
}
