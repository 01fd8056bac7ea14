/**
  The meaning of a trace: the calls it records, parsed into trees of completed
  calls hanging off the chain of calls that are still open, and the statistics
  those calls add up to. The fold of `ShadowStack` computes exactly these.
*/
module CallTree {
  import opened Statistics
  import opened ShadowStack

  datatype Call = Call(callee: Address, enterAt: int, exitAt: int, children: seq<Call>)

  /** A call that is still open and the calls it has completed; level zero stands for the thread. */
  datatype Level = Level(callee: Address, enterAt: int, done: seq<Call>)

  // ---- From calls to traces and back ----

  function TraceOf(c: Call): seq<CallRecord>
    decreases c, 0
  {
    [CallRecord(c.enterAt, c.callee)] + TraceOfAll(c.children) + [CallRecord(c.exitAt, 0)]
  }

  function TraceOfAll(calls: seq<Call>): seq<CallRecord>
    decreases calls, |calls|
  {
    if calls == [] then [] else TraceOfAll(calls[..|calls| - 1]) + TraceOf(calls[|calls| - 1])
  }

  function Unparse(levels: seq<Level>): seq<CallRecord> {
    if levels == [] then [] else
    var l := levels[|levels| - 1];
    Unparse(levels[..|levels| - 1]) + (if |levels| == 1 then [] else [CallRecord(l.enterAt,
      l.callee)]) + TraceOfAll(l.done)
  }

  function ParseStep(levels: seq<Level>, r: CallRecord): seq<Level>
    requires if r.callee != 0 then |levels| >= 1 else |levels| >= 2
  {
    if r.callee != 0 then levels + [Level(r.callee, r.timestamp, [])] else
    var n := |levels|;
    var l, parent := levels[n - 1], levels[n - 2];
    levels[..n - 2] + [parent.(done := parent.done + [Call(l.callee, l.enterAt, r.timestamp, l.done)])]
  }

  function ParseFrom(levels: seq<Level>, trace: seq<CallRecord>): (result: seq<Level>)
    requires WellNested(|levels|, trace)
    ensures |result| == Depth(|levels|, trace) >= 1
    decreases |trace|
  {
    if trace == [] then levels else ParseStep(ParseFrom(levels, trace[..|trace| - 1]), trace[|trace| - 1])
  }

  function Parse(trace: seq<CallRecord>): seq<Level>
    requires WellNested(1, trace)
  {
    ParseFrom([Level(0, 0, [])], trace)
  }

  // Parsing forgets nothing: the trace can be rebuilt from what it parses into.
  lemma {:induction false} UnparseStep(levels: seq<Level>, r: CallRecord)
    requires if r.callee != 0 then |levels| >= 1 else |levels| >= 2
    ensures Unparse(ParseStep(levels, r)) == Unparse(levels) + [r]
  {
    var n := |levels|;
    var next := ParseStep(levels, r);
    if r.callee != 0 {
      assert next[..|next| - 1] == levels;
    } else {
      var l, parent := levels[n - 1], levels[n - 2];
      var c := Call(l.callee, l.enterAt, r.timestamp, l.done);
      assert next[..|next| - 1] == levels[..n - 2] == levels[..n - 1][..n - 2];
      assert levels[..n - 1][n - 2] == parent;
      var done := parent.done + [c];
      assert done[..|done| - 1] == parent.done;
      assert TraceOfAll(done) == TraceOfAll(parent.done) + TraceOf(c);
      assert r == CallRecord(r.timestamp, 0);
    }
  }

  lemma {:induction false} UnparseParse(trace: seq<CallRecord>)
    requires WellNested(1, trace)
    ensures Unparse(Parse(trace)) == trace
    decreases |trace|
  {
    if trace == [] {
      var bottom := [Level(0, 0, [])];
      assert bottom[..0] == [];
      assert Unparse(bottom) == [];
    } else {
      UnparseParse(trace[..|trace| - 1]);
      UnparseStep(Parse(trace[..|trace| - 1]), trace[|trace| - 1]);
      assert trace == trace[..|trace| - 1] + [trace[|trace| - 1]];
    }
  }

  /** Calls of real functions only: the null address is what ends a call. */
  predicate Named(calls: seq<Call>) {
    forall c :: c in calls ==> c.callee != 0 && Named(c.children)
  }

  lemma {:induction false} ParseConcat(levels: seq<Level>, a: seq<CallRecord>, b: seq<CallRecord>)
    requires WellNested(|levels|, a) && WellNested(Depth(|levels|, a), b)
    ensures WellNested(|levels|, a + b) && ParseFrom(levels, a + b) == ParseFrom(ParseFrom(levels, a), b)
    ensures Depth(|levels|, a + b) == Depth(Depth(|levels|, a), b)
    decreases |b|
  {
    if b == [] {
      assert a + b == a;
    } else {
      assert (a + b)[..|a + b| - 1] == a + b[..|b| - 1];
      ParseConcat(levels, a, b[..|b| - 1]);
    }
  }

  function Completed(levels: seq<Level>, calls: seq<Call>): seq<Level>
    requires levels != []
  {
    var l := levels[|levels| - 1];
    levels[..|levels| - 1] + [l.(done := l.done + calls)]
  }

  lemma CompletedTwice(levels: seq<Level>, a: seq<Call>, b: seq<Call>)
    requires levels != []
    ensures Completed(Completed(levels, a), b) == Completed(levels, a + b)
    ensures Completed(levels, []) == levels
  {
    var l := levels[|levels| - 1];
    assert l.done + a + b == l.done + (a + b);
    assert l.done + [] == l.done;
  }

  /** The trace of completed calls parses into these calls, under whatever call is open. */
  lemma {:induction false} ParseCalls(levels: seq<Level>, calls: seq<Call>)
    requires levels != [] && Named(calls)
    ensures WellNested(|levels|, TraceOfAll(calls)) && Depth(|levels|, TraceOfAll(calls)) == |levels|
    ensures ParseFrom(levels, TraceOfAll(calls)) == Completed(levels, calls)
    decreases calls, |calls|
  {
    if calls == [] {
      CompletedTwice(levels, [], []);
    } else {
      var rest, c := calls[..|calls| - 1], calls[|calls| - 1];
      assert Named(rest) by {
        assert forall x :: x in rest ==> x in calls;
      }
      ParseCalls(levels, rest);
      ParseCall(Completed(levels, rest), c);
      ParseConcat(levels, TraceOfAll(rest), TraceOf(c));
      CompletedTwice(levels, rest, [c]);
      assert rest + [c] == calls;
    }
  }

  lemma {:induction false} ParseCall(levels: seq<Level>, c: Call)
    requires levels != [] && c.callee != 0 && Named(c.children)
    ensures WellNested(|levels|, TraceOf(c)) && Depth(|levels|, TraceOf(c)) == |levels|
    ensures ParseFrom(levels, TraceOf(c)) == Completed(levels, [c])
    decreases c, 0
  {
    hide WellNested, Depth, ParseFrom;
    var enter, exit := CallRecord(c.enterAt, c.callee), CallRecord(c.exitAt, 0);
    var inside := TraceOfAll(c.children);
    var within := levels + [Level(c.callee, c.enterAt, [])];
    ParseOne(levels, enter);
    ParseCalls(within, c.children);
    var filled := ParseFrom(within, inside);
    assert filled == levels + [Level(c.callee, c.enterAt, c.children)] by {
      assert [] + c.children == c.children;
    }
    ParseOne(filled, exit);
    ParseConcat(levels, [enter], inside);
    ParseConcat(levels, [enter] + inside, [exit]);
  }

  lemma ParseOne(levels: seq<Level>, r: CallRecord)
    requires levels != [] && (r.callee == 0 ==> |levels| >= 2)
    ensures WellNested(|levels|, [r]) && Depth(|levels|, [r]) == |levels| + (if r.callee != 0 then 1 else -1)
    ensures ParseFrom(levels, [r]) == ParseStep(levels, r)
  {
    assert [r][..0] == [];
    assert ParseFrom(levels, []) == levels;
  }

  // ---- What calls add up to ----

  lemma Distribute(t: int, a: int, b: int)
    ensures t * (a + 1 + b) == t * a + t + t * b
  {
  }

  /** Each call, however deep inside, costs the overhead of one measurement. */
  lemma {:induction false} OverheadPerDescendant(calls: seq<Call>, overhead: Overhead)
    ensures OverheadInside(calls, overhead) == overhead.Total() * Descendants(calls)
    decreases calls, |calls|
  {
    if calls != [] {
      var rest, c := calls[..|calls| - 1], calls[|calls| - 1];
      OverheadPerDescendant(rest, overhead);
      OverheadPerDescendant(c.children, overhead);
      Distribute(overhead.Total(), Descendants(rest), Descendants(c.children));
    }
  }

  function Descendants(calls: seq<Call>): nat
    decreases calls, |calls|
  {
    if calls == [] then 0 else
    var c := calls[|calls| - 1];
    Descendants(calls[..|calls| - 1]) + 1 + Descendants(c.children)
  }

  /** The time spent in the calls, with what making them costs the caller. */
  function TimeInside(calls: seq<Call>, overhead: Overhead): int {
    if calls == [] then 0 else
    var c := calls[|calls| - 1];
    TimeInside(calls[..|calls| - 1], overhead) + (c.exitAt - c.enterAt) + overhead.outer
  }

  /** What measuring everything inside the calls has cost. */
  function OverheadInside(calls: seq<Call>, overhead: Overhead): int
    decreases calls, |calls|
  {
    if calls == [] then 0 else
    var c := calls[|calls| - 1];
    OverheadInside(calls[..|calls| - 1], overhead) + overhead.Total() + OverheadInside(c.children, overhead)
  }

  function InclusiveTime(c: Call, overhead: Overhead): int {
    (c.exitAt - c.enterAt) - overhead.inner - OverheadInside(c.children, overhead)
  }

  function ExclusiveTime(c: Call, overhead: Overhead): int {
    (c.exitAt - c.enterAt) - overhead.inner - TimeInside(c.children, overhead)
  }

  function StatisticsOf(c: Call, overhead: Overhead): FunctionStatistics {
    FunctionStatistics(1, InclusiveTime(c, overhead), ExclusiveTime(c, overhead), Max(0, InclusiveTime(c, overhead)))
  }

  function ForestOf(prefix: Path, c: Call, overhead: Overhead): Forest
    decreases c, 0
  {
    var p := prefix + [c.callee];
    Merge(map[p := StatisticsOf(c, overhead)], ForestOfAll(p, c.children, overhead))
  }

  function ForestOfAll(prefix: Path, calls: seq<Call>, overhead: Overhead): Forest
    decreases calls, |calls|
  {
    if calls == [] then map[] else
    Merge(ForestOfAll(prefix, calls[..|calls| - 1], overhead), ForestOf(prefix, calls[|calls| - 1], overhead))
  }

  function LevelPath(levels: seq<Level>): Path
    requires levels != []
  {
    seq(|levels| - 1, i requires 0 <= i < |levels| - 1 => levels[i + 1].callee)
  }

  /** A bare node for each open call, and whatever it has completed. */
  function LevelsForest(levels: seq<Level>, overhead: Overhead): Forest {
    if levels == [] then map[] else
    var n := |levels|;
    var p := LevelPath(levels);
    Merge(LevelsForest(levels[..n - 1], overhead),
          Merge(if n == 1 then map[] else map[p := Zero()], ForestOfAll(p, levels[n - 1].done, overhead)))
  }

  function FrameOf(base: Frame, done: seq<Call>, overhead: Overhead): Frame {
    base.(childrenTimeObserved := base.childrenTimeObserved + TimeInside(done, overhead),
          childrenOverhead := base.childrenOverhead + OverheadInside(done, overhead))
  }

  function LevelFrame(bottom: Frame, levels: seq<Level>, k: nat, overhead: Overhead): Frame
    requires k < |levels|
  {
    var l := levels[k];
    FrameOf(if k == 0 then bottom else Frame(l.callee, l.enterAt, 0, 0), l.done, overhead)
  }

  function FramesOf(bottom: Frame, levels: seq<Level>, overhead: Overhead): seq<Frame> {
    seq(|levels|, k requires 0 <= k < |levels| => LevelFrame(bottom, levels, k, overhead))
  }

  function Meaning(bottom: Frame, levels: seq<Level>, overhead: Overhead): State {
    State(FramesOf(bottom, levels, overhead), LevelsForest(levels, overhead))
  }

  lemma FramesPath(bottom: Frame, levels: seq<Level>, overhead: Overhead)
    requires levels != []
    ensures PathOf(FramesOf(bottom, levels, overhead)) == LevelPath(levels)
  {
  }

  /** An exit turns the innermost open call into a completed one with the documented times. */
  lemma ExitFrames(bottom: Frame, levels: seq<Level>, r: CallRecord, overhead: Overhead)
    requires |levels| >= 2 && r.callee == 0
    ensures NextFrames(FramesOf(bottom, levels, overhead), r, overhead) == FramesOf(bottom, ParseStep(levels, r),
      overhead)
  {
    var n := |levels|;
    var l, parent := levels[n - 1], levels[n - 2];
    var c := Call(l.callee, l.enterAt, r.timestamp, l.done);
    var done := parent.done + [c];
    assert done[..|done| - 1] == parent.done;
    var next := NextFrames(FramesOf(bottom, levels, overhead), r, overhead);
    assert next[n - 2] == LevelFrame(bottom, ParseStep(levels, r), n - 2, overhead);
  }

  lemma {:induction false} ExitDelta(bottom: Frame, levels: seq<Level>, r: CallRecord, overhead: Overhead)
    requires |levels| >= 2 && r.callee == 0
    ensures var l := levels[|levels| - 1];
      Delta(FramesOf(bottom, levels, overhead), r, overhead)
      == map[LevelPath(levels) := StatisticsOf(Call(l.callee, l.enterAt, r.timestamp, l.done), overhead)]
  {
    FramesPath(bottom, levels, overhead);
  }

  /** The forest of levels, the last two of them set apart. */
  lemma {:induction false} LevelsSplit(levels: seq<Level>, overhead: Overhead)
    requires |levels| >= 2
    ensures LevelsForest(levels, overhead) == Merge(LevelsForest(levels[..|levels| - 1], overhead),
      Merge(map[LevelPath(levels) := Zero()], ForestOfAll(LevelPath(levels), levels[|levels| - 1].done, overhead)))
    ensures LevelPath(levels) == LevelPath(levels[..|levels| - 1]) + [levels[|levels| - 1].callee]
  {
    hide Merge;
  }

  /** The forest of levels, the last one set apart. */
  lemma LastLevelApart(levels: seq<Level>, overhead: Overhead)
    requires |levels| >= 1
    ensures var n := |levels|; LevelsForest(levels, overhead) == Merge(LevelsForest(levels[..n - 1], overhead),
      Merge(if n == 1 then map[] else map[LevelPath(levels) := Zero()],
            ForestOfAll(LevelPath(levels), levels[n - 1].done, overhead)))
  {
    hide Merge;
  }

  lemma LastCallApart(prefix: Path, calls: seq<Call>, c: Call, overhead: Overhead)
    ensures ForestOfAll(prefix, calls + [c], overhead) == Merge(ForestOfAll(prefix, calls, overhead),
      Merge(map[prefix + [c.callee] := StatisticsOf(c, overhead)], ForestOfAll(prefix + [c.callee], c.children,
        overhead)))
  {
    hide Merge;
    var done := calls + [c];
    assert done[..|done| - 1] == calls;
  }

  lemma {:induction false} ExitLevels(levels: seq<Level>, r: CallRecord, overhead: Overhead)
    requires |levels| >= 2 && r.callee == 0
    ensures var n := |levels|; var pp, p, l := LevelPath(levels[..n - 1]), LevelPath(levels), levels[n - 1];
      LevelsForest(ParseStep(levels, r), overhead) == Merge(LevelsForest(levels[..n - 2], overhead),
        Merge(if n == 2 then map[] else map[pp := Zero()],
          Merge(ForestOfAll(pp, levels[n - 2].done, overhead),
            Merge(map[p := StatisticsOf(Call(l.callee, l.enterAt, r.timestamp, l.done), overhead)],
                  ForestOfAll(p, l.done, overhead)))))
  {
    hide Merge;
    var n := |levels|;
    var l, parent := levels[n - 1], levels[n - 2];
    var c := Call(l.callee, l.enterAt, r.timestamp, l.done);
    var done := parent.done + [c];
    var next := ParseStep(levels, r);
    assert next[..n - 2] == levels[..n - 2] && next[n - 2].done == done && |next| == n - 1;
    assert LevelPath(next) == LevelPath(levels[..n - 1]);
    assert LevelPath(levels) == LevelPath(levels[..n - 1]) + [l.callee];
    hide LevelsForest, ForestOfAll, LevelPath, StatisticsOf, ParseStep;
    LastLevelApart(next, overhead);
    LastCallApart(LevelPath(next), parent.done, c, overhead);
  }

  lemma {:induction false} ExitForest(bottom: Frame, levels: seq<Level>, r: CallRecord, overhead: Overhead)
    requires |levels| >= 2 && r.callee == 0
    ensures Merge(LevelsForest(levels, overhead), Delta(FramesOf(bottom, levels, overhead), r, overhead))
         == LevelsForest(ParseStep(levels, r), overhead)
  {
    hide Merge;
    var n := |levels|;
    var front, outer, l := levels[..n - 1], levels[..n - 2], levels[n - 1];
    var pp, p := LevelPath(front), LevelPath(levels);
    var completed, inside := ForestOfAll(pp, levels[n - 2].done, overhead), ForestOfAll(p, l.done, overhead);
    var bare := if n == 2 then map[] else map[pp := Zero()];
    var delta := map[p := StatisticsOf(Call(l.callee, l.enterAt, r.timestamp, l.done), overhead)];
    ExitDelta(bottom, levels, r, overhead);
    ExitLevels(levels, r, overhead);
    assert front[..n - 2] == outer;
    assert LevelsForest(front, overhead) == Merge(LevelsForest(outer, overhead), Merge(bare, completed));
    LevelsSplit(levels, overhead);
    BareUnder(p, delta[p]);
    ExitAlgebra(LevelsForest(outer, overhead), bare, completed, map[p := Zero()], inside, delta);
  }

  lemma ExitAlgebra(base: Forest, bare: Forest, completed: Forest, blank: Forest, inside: Forest, delta: Forest)
    requires Merge(blank, delta) == delta
    ensures Merge(Merge(Merge(base, Merge(bare, completed)), Merge(blank, inside)), delta)
         == Merge(base, Merge(bare, Merge(completed, Merge(delta, inside))))
  {
    var under := Merge(blank, inside);
    assert Merge(under, delta) == Merge(delta, inside) by {
      MergeCommutes(under, delta);
      MergeAssociates(delta, blank, inside);
      MergeCommutes(blank, delta);
    }
    MergeAssociates(Merge(base, Merge(bare, completed)), under, delta);
    MergeAssociates(base, Merge(bare, completed), Merge(delta, inside));
    MergeAssociates(bare, completed, Merge(delta, inside));
  }

  lemma {:induction false} EnterMeaning(bottom: Frame, levels: seq<Level>, r: CallRecord, overhead: Overhead)
    requires levels != [] && r.callee != 0
    ensures Step(Meaning(bottom, levels, overhead), r, overhead) == Meaning(bottom, ParseStep(levels, r), overhead)
  {
    var next := ParseStep(levels, r);
    FramesPath(bottom, levels, overhead);
    assert next[..|levels|] == levels;
    assert LevelPath(next) == LevelPath(levels) + [r.callee];
    MergeEmpty(map[LevelPath(next) := Zero()]);
  }

  /** The fold over the records computes the meaning of the calls they stand for. */
  lemma {:induction false} RunIsMeaning(bottom: Frame, trace: seq<CallRecord>, overhead: Overhead)
    requires WellNested(1, trace)
    ensures Run(State([bottom], map[]), trace, overhead) == Meaning(bottom, Parse(trace), overhead)
    decreases |trace|
  {
    if trace == [] {
      var levels := [Level(0, 0, [])];
      assert levels[..0] == [];
      MergeEmpty(map[]);
      assert FramesOf(bottom, levels, overhead) == [FrameOf(bottom, [], overhead)] == [bottom];
      assert LevelsForest([], overhead) == map[];
      assert LevelsForest(levels, overhead) == map[];
    } else {
      var rest, r := trace[..|trace| - 1], trace[|trace| - 1];
      RunIsMeaning(bottom, rest, overhead);
      if r.callee != 0 {
        EnterMeaning(bottom, Parse(rest), r, overhead);
      } else {
        ExitFrames(bottom, Parse(rest), r, overhead);
        ExitForest(bottom, Parse(rest), r, overhead);
      }
    }
  }

  /** The analysis of a trace of completed calls is the forest of these calls. */
  lemma CompletedCalls(bottom: Frame, calls: seq<Call>, overhead: Overhead)
    requires Named(calls)
    ensures WellNested(1, TraceOfAll(calls))
    ensures Run(State([bottom], map[]), TraceOfAll(calls), overhead).forest == ForestOfAll([], calls, overhead)
  {
    var trace := TraceOfAll(calls);
    ParseCompleted(calls, trace);
    RunIsMeaning(bottom, trace, overhead);
    OneLevel(calls, overhead);
  }

  lemma ParseCompleted(calls: seq<Call>, trace: seq<CallRecord>)
    requires Named(calls) && trace == TraceOfAll(calls)
    ensures WellNested(1, trace) && Parse(trace) == [Level(0, 0, calls)]
  {
    ParseCalls([Level(0, 0, [])], calls);
    assert [] + calls == calls;
  }

  lemma OneLevel(calls: seq<Call>, overhead: Overhead)
    ensures LevelsForest([Level(0, 0, calls)], overhead) == ForestOfAll([], calls, overhead)
  {
    var levels := [Level(0, 0, calls)];
    assert levels[..0] == [];
    assert LevelsForest([], overhead) == map[];
    assert LevelPath(levels) == [];
    MergeEmpty(ForestOfAll([], calls, overhead));
  }
}
