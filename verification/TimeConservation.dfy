/**
  Time is neither created nor lost by the analysis, whatever the overheads are:
  at every node, what is inclusive but not exclusive is the inclusive time of
  its callees, less what the open call on that node still owes them.
*/
module TimeConservation {
  import opened FiniteSums
  import opened Statistics
  import opened ShadowStack

  function Parent(q: Path): Path {
    if q == [] then [] else q[..|q| - 1]
  }

  /** Every node but a top one hangs off another node. */
  ghost predicate Rooted(f: Forest) {
    forall q :: q in f ==> q != [] && (Parent(q) != [] ==> Parent(q) in f)
  }

  ghost function Children(f: Forest, p: Path): set<Path> {
    set q | q in f && q != [] && Parent(q) == p
  }

  ghost function Inclusive(f: Forest): Path -> int {
    q => At(f, q).inclusiveTime
  }

  ghost function Exclusive(f: Forest): Path -> int {
    q => At(f, q).exclusiveTime
  }

  ghost function CalleesInclusive(f: Forest, p: Path): int {
    Sum(Children(f, p), Inclusive(f))
  }

  /** The time that the open call on a node has handed to completed callees. */
  function Owed(frames: seq<Frame>, p: Path): int
    requires frames != []
  {
    if 1 <= |p| < |frames| && p == PathOf(frames)[..|p|]
    then frames[|p|].childrenTimeObserved - frames[|p|].childrenOverhead
    else 0
  }

  ghost predicate BalancedAt(s: State, p: Path)
    requires s.frames != []
  {
    CalleesInclusive(s.forest, p) == At(s.forest, p).inclusiveTime - At(s.forest, p).exclusiveTime + Owed(s.frames, p)
  }

  ghost predicate Balanced(s: State) {
    && OpenPresent(s)
    && Rooted(s.forest)
    && forall p: Path :: p != [] ==> BalancedAt(s, p)
  }

  lemma CalleesAfterMerge(f: Forest, q: Path, x: FunctionStatistics, p: Path)
    requires q != []
    ensures CalleesInclusive(Merge(f, map[q := x]), p)
         == CalleesInclusive(f, p) + if Parent(q) == p then x.inclusiveTime else 0
  {
    hide Merge;
    var g := Merge(f, map[q := x]);
    MergeKeys(f, map[q := x]);
    forall r: Path ensures At(g, r) == if r == q then Add(At(f, r), x) else At(f, r) {
      MergeAt(f, map[q := x], r);
    }
    var rest := Children(f, p) - {q};
    SumAgree(rest, Inclusive(f), Inclusive(g));
    if Parent(q) == p {
      assert Children(g, p) == rest + {q};
      SumRemove(Children(g, p), Inclusive(g), q);
      assert Children(g, p) - {q} == rest;
      if q in f {
        SumRemove(Children(f, p), Inclusive(f), q);
      } else {
        assert Children(f, p) == rest;
      }
    } else {
      assert Children(g, p) == Children(f, p) == rest;
    }
  }

  lemma {:induction false} EnterBalances(s: State, r: CallRecord, overhead: Overhead)
    requires Balanced(s) && r.callee != 0
    ensures Balanced(Step(s, r, overhead))
  {
    hide Merge;
    var next := Step(s, r, overhead);
    var q := PathOf(s.frames) + [r.callee];
    MergeKeys(s.forest, map[q := Zero()]);
    assert Parent(q) == PathOf(s.frames);
    RunOne(s, r, overhead);
    if Parent(q) != [] {
      assert PathOf(s.frames)[..|s.frames| - 1] == Parent(q);
      assert Parent(q) in OpenPaths(s.frames);
    }
    assert PathOf(next.frames) == q;
    forall p: Path | p != [] ensures BalancedAt(next, p) {
      assert BalancedAt(s, p);
      CalleesAfterMerge(s.forest, q, Zero(), p);
      MergeAt(s.forest, map[q := Zero()], p);
      if |p| < |s.frames| {
        assert q[..|p|] == PathOf(s.frames)[..|p|];
      }
    }
  }

  lemma {:induction false} ExitBalances(s: State, r: CallRecord, overhead: Overhead)
    requires Balanced(s) && r.callee == 0 && |s.frames| >= 2
    ensures Balanced(Step(s, r, overhead))
  {
    hide Merge;
    var next := Step(s, r, overhead);
    var q := PathOf(s.frames);
    MergeKeys(s.forest, Delta(s.frames, r, overhead));
    RunOne(s, r, overhead);
    assert PathOf(next.frames) == Parent(q);
    assert q[..|s.frames| - 1] == q;
    assert q in OpenPaths(s.frames);
    forall p: Path | p != [] ensures BalancedAt(next, p) {
      assert BalancedAt(s, p);
      ExitBalancesAt(s, r, overhead, p);
    }
  }

  /** An exit settles the innermost node and puts the call on its parent's bill. */
  lemma OwedAfterExit(frames: seq<Frame>, r: CallRecord, overhead: Overhead, p: Path)
    requires r.callee == 0 && |frames| >= 2 && p != []
    ensures var q := PathOf(frames);
      Owed(NextFrames(frames, r, overhead), p) == if p == q then 0
        else Owed(frames, p) + if p == Parent(q) then Delta(frames, r, overhead)[q].inclusiveTime else 0
  {
    var next := NextFrames(frames, r, overhead);
    var q := PathOf(frames);
    assert PathOf(next) == Parent(q);
    if |p| < |frames| - 1 {
      assert Parent(q)[..|p|] == q[..|p|];
    } else {
      assert q[..|frames| - 1] == q;
    }
  }

  /** What a completed call adds, and that it is what its frame owed. */
  lemma ExitSettles(frames: seq<Frame>, r: CallRecord, overhead: Overhead) returns (x: FunctionStatistics)
    requires r.callee == 0 && |frames| >= 2
    ensures var q := PathOf(frames); q != [] && Delta(frames, r, overhead) == map[q := x]
    ensures x.inclusiveTime - x.exclusiveTime == Owed(frames, PathOf(frames))
  {
    var q := PathOf(frames);
    assert q[..|frames| - 1] == q;
    x := Delta(frames, r, overhead)[q];
  }

  /** A call completed at one node is balanced by what is owed after it, whatever was balanced before. */
  lemma StaysBalanced(f: Forest, q: Path, x: FunctionStatistics, p: Path, owed: int, after: int)
    requires q != [] && (p == q ==> x.inclusiveTime - x.exclusiveTime == owed)
    requires after == if p == q then 0 else owed + if p == Parent(q) then x.inclusiveTime else 0
    requires CalleesInclusive(f, p) == At(f, p).inclusiveTime - At(f, p).exclusiveTime + owed
    ensures var g := Merge(f, map[q := x]);
      CalleesInclusive(g, p) == At(g, p).inclusiveTime - At(g, p).exclusiveTime + after
  {
    hide Merge, CalleesInclusive;
    assert Parent(q) != q;
    CalleesAfterMerge(f, q, x, p);
    MergeAt(f, map[q := x], p);
  }

  lemma {:induction false} ExitBalancesAt(s: State, r: CallRecord, overhead: Overhead, p: Path)
    requires r.callee == 0 && |s.frames| >= 2 && p != [] && BalancedAt(s, p)
    ensures BalancedAt(Step(s, r, overhead), p)
  {
    assert Step(s, r, overhead).frames != [];
    hide Merge, CalleesInclusive, Delta, NextFrames, Owed, PathOf, At;
    var q, next := PathOf(s.frames), NextFrames(s.frames, r, overhead);
    var x := ExitSettles(s.frames, r, overhead);
    OwedAfterExit(s.frames, r, overhead, p);
    StaysBalanced(s.forest, q, x, p, Owed(s.frames, p), Owed(next, p));
  }

  lemma {:induction false} RunOne(s: State, r: CallRecord, overhead: Overhead)
    requires OpenPresent(s) && (r.callee == 0 ==> |s.frames| >= 2)
    ensures OpenPresent(Step(s, r, overhead))
  {
    OpenPathsStep(s.frames, r, overhead);
  }

  lemma {:induction false} RunBalances(s: State, trace: seq<CallRecord>, overhead: Overhead)
    requires WellNested(|s.frames|, trace) && Balanced(s)
    ensures Balanced(Run(s, trace, overhead))
    decreases |trace|
  {
    if trace != [] {
      var rest, r := trace[..|trace| - 1], trace[|trace| - 1];
      RunBalances(s, rest, overhead);
      if r.callee != 0 {
        EnterBalances(Run(s, rest, overhead), r, overhead);
      } else {
        ExitBalances(Run(s, rest, overhead), r, overhead);
      }
    }
  }

  lemma {:induction false} FreshBalanced(bottom: Frame)
    ensures Balanced(State([bottom], map[]))
  {
  }

  ghost function Subtree(f: Forest, p: Path): set<Path> {
    set q | q in f && p <= q
  }

  lemma ProperPrefix(p: Path, q: Path)
    requires p <= q && p != q
    ensures p <= Parent(q)
  {
    assert p == q[..|p|];
  }

  lemma ChildrenBelow(f: Forest, p: Path, u: Path)
    requires u in Subtree(f, p) && p != []
    ensures Fiber(Subtree(f, p) - {p}, Parent, u) == Children(f, u)
  {
    forall q | q in Children(f, u) ensures q in Subtree(f, p) - {p} {
      assert q == u + [q[|q| - 1]];
    }
    forall q | q in Fiber(Subtree(f, p) - {p}, Parent, u) ensures q in Children(f, u) {
      assert q != [];
    }
  }

  /** With no call open, the exclusive times of a tree add up to the inclusive time of its root. */
  lemma {:induction false} ExclusiveTimesAddUp(s: State, p: Path)
    requires Balanced(s) && |s.frames| == 1
    requires p in s.forest
    ensures Sum(Subtree(s.forest, p), Exclusive(s.forest)) == At(s.forest, p).inclusiveTime
  {
    var f := s.forest;
    var tree := Subtree(f, p);
    var below := tree - {p};
    forall q | q in below ensures Parent(q) in tree {
      assert Parent(q) == q[..|q| - 1];
      ProperPrefix(p, q);
    }
    SumFibers(below, Inclusive(f), tree, Parent);
    var byParent := FiberSum(below, Inclusive(f), Parent);
    var owing := u => At(f, u).inclusiveTime - At(f, u).exclusiveTime;
    forall u | u in tree ensures byParent(u) == owing(u) {
      ChildrenBelow(f, p, u);
      assert BalancedAt(s, u);
    }
    SumAgree(tree, byParent, owing);
    SumDifference(tree, Inclusive(f), Exclusive(f), owing);
    SumRemove(tree, Inclusive(f), p);
  }

  /** The same of a whole session, over all that was shipped and all that is still held. */
  lemma SessionConservesTime(bottom: Frame, events: seq<Event>, overhead: Overhead)
    requires WellNested(1, Calls(events))
    ensures var s := Play(bottom, events, overhead); Balanced(State(s.state.frames, Total(s)))
    ensures var s := Play(bottom, events, overhead); |s.state.frames| == 1 ==>
      forall p | p in Total(s) :: Sum(Subtree(Total(s), p), Exclusive(Total(s))) == At(Total(s), p).inclusiveTime
  {
    FreshBalanced(bottom);
    RunBalances(State([bottom], map[]), Calls(events), overhead);
    NothingIsLost(bottom, events, overhead);
    var s := Play(bottom, events, overhead);
    if |s.state.frames| == 1 {
      forall p | p in Total(s)
        ensures Sum(Subtree(Total(s), p), Exclusive(Total(s))) == At(Total(s), p).inclusiveTime
      {
        ExclusiveTimesAddUp(State(s.state.frames, Total(s)), p);
      }
    }
  }
}
