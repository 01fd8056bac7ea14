/**
  The analysis of one thread's trace as a fold over its records: a stack of
  frames, one per call that is still open, and the forest of statistics
  gathered so far. A thread may receive its trace in batches, and what has been
  gathered may be shipped away and cleared between any two of them.
*/
module ShadowStack {
  import opened Statistics

  /** A record enters the callee, or exits the innermost open call if the callee is null. */
  datatype CallRecord = CallRecord(timestamp: int, callee: Address)

  datatype Overhead = Overhead(inner: int, outer: int) {
    function Total(): int { inner + outer }
  }

  datatype Frame = Frame(
    callee: Address,
    enterAt: int,
    childrenTimeObserved: int,
    childrenOverhead: int)

  datatype State = State(frames: seq<Frame>, forest: Forest)

  /** The callees of all open calls, outermost first; the bottom frame stands for the thread itself. */
  function PathOf(frames: seq<Frame>): Path
    requires frames != []
  {
    seq(|frames| - 1, i requires 0 <= i < |frames| - 1 => frames[i + 1].callee)
  }

  function ObservedTime(frame: Frame, exitAt: int, overhead: Overhead): int {
    exitAt - frame.enterAt - overhead.inner
  }

  function NextFrames(frames: seq<Frame>, r: CallRecord, overhead: Overhead): seq<Frame>
    requires if r.callee != 0 then |frames| >= 1 else |frames| >= 2
  {
    if r.callee != 0 then frames + [Frame(r.callee, r.timestamp, 0, 0)] else
    var n := |frames|;
    var current, parent := frames[n - 1], frames[n - 2];
    var observed := ObservedTime(current, r.timestamp, overhead);
    frames[..n - 2] + [parent.(
      childrenTimeObserved := parent.childrenTimeObserved + observed + overhead.Total(),
      childrenOverhead := parent.childrenOverhead + overhead.Total() + current.childrenOverhead)]
  }

  /** What a record adds to the forest: a bare node on entry, one more call on exit. */
  function Delta(frames: seq<Frame>, r: CallRecord, overhead: Overhead): Forest
    requires if r.callee != 0 then |frames| >= 1 else |frames| >= 2
  {
    if r.callee != 0 then map[PathOf(frames) + [r.callee] := Zero()] else
    var current := frames[|frames| - 1];
    var observed := ObservedTime(current, r.timestamp, overhead);
    map[PathOf(frames) := AddCall(Zero(), observed - current.childrenOverhead, observed - current.childrenTimeObserved)]
  }

  function Step(s: State, r: CallRecord, overhead: Overhead): State
    requires if r.callee != 0 then |s.frames| >= 1 else |s.frames| >= 2
  {
    State(NextFrames(s.frames, r, overhead), Merge(s.forest, Delta(s.frames, r, overhead)))
  }

  /** How many frames there are after a trace that starts with `depth` of them. */
  function Depth(depth: int, trace: seq<CallRecord>): int {
    if trace == [] then depth else
    Depth(depth, trace[..|trace| - 1]) + if trace[|trace| - 1].callee != 0 then 1 else -1
  }

  /** No exit of the trace pops the bottom frame. */
  predicate WellNested(depth: int, trace: seq<CallRecord>) {
    if trace == [] then depth >= 1 else
    var rest := trace[..|trace| - 1];
    WellNested(depth, rest) && (trace[|trace| - 1].callee == 0 ==> Depth(depth, rest) >= 2)
  }

  function Run(s: State, trace: seq<CallRecord>, overhead: Overhead): (s': State)
    requires WellNested(|s.frames|, trace)
    ensures |s'.frames| == Depth(|s.frames|, trace) >= 1
    decreases |trace|
  {
    if trace == [] then s else Step(Run(s, trace[..|trace| - 1], overhead), trace[|trace| - 1], overhead)
  }

  /** The nodes every open call is accounted at. */
  function OpenPaths(frames: seq<Frame>): set<Path>
    requires frames != []
  {
    OpenPathsUpTo(frames, |frames|)
  }

  function OpenPathsUpTo(frames: seq<Frame>, n: nat): set<Path>
    requires 1 <= n <= |frames|
  {
    set k | 1 <= k < n :: PathOf(frames)[..k]
  }

  /** A batch: the nodes of all open calls are looked up (or made) first, then the records are played. */
  function Update(s: State, batch: seq<CallRecord>, overhead: Overhead): State
    requires s.frames != [] && WellNested(|s.frames|, batch)
  {
    Run(State(s.frames, Merge(s.forest, Blank(OpenPaths(s.frames)))), batch, overhead)
  }

  /** Looking up the nodes of the open calls one by one, outermost first. */
  lemma LookUpOne(f: Forest, frames: seq<Frame>, n: nat)
    requires 1 <= n < |frames|
    ensures Merge(Merge(f, Blank(OpenPathsUpTo(frames, n))), map[PathOf(frames)[..n] := Zero()])
         == Merge(f, Blank(OpenPathsUpTo(frames, n + 1)))
  {
    hide Merge;
    var before, p := OpenPathsUpTo(frames, n), PathOf(frames)[..n];
    assert OpenPathsUpTo(frames, n + 1) == before + {p};
    MergeBare(Blank(before), p);
    assert Blank(before + {p}) == if p in before then Blank(before) else Blank(before)[p := Zero()];
    MergeAssociates(f, Blank(before), map[p := Zero()]);
  }

  lemma LookUpNone(f: Forest, frames: seq<Frame>)
    requires frames != []
    ensures Merge(f, Blank(OpenPathsUpTo(frames, 1))) == f
  {
    assert OpenPathsUpTo(frames, 1) == {};
    MergeBlank(f, {});
  }

  // ---- Cutting and clearing ----

  datatype Event = Batch(calls: seq<CallRecord>) | Ship

  datatype Session = Session(state: State, shipped: seq<Forest>)

  function Calls(events: seq<Event>): seq<CallRecord> {
    if events == [] then [] else
    var e := events[|events| - 1];
    Calls(events[..|events| - 1]) + if e.Batch? then e.calls else []
  }

  lemma {:induction false} WellNestedPrefix(depth: int, a: seq<CallRecord>, b: seq<CallRecord>)
    requires WellNested(depth, a + b)
    ensures WellNested(depth, a) && Depth(depth, a) >= 1
    ensures WellNested(Depth(depth, a), b) && Depth(depth, a + b) == Depth(Depth(depth, a), b)
    decreases |a| + |b|
  {
    if b == [] {
      assert a + b == a;
      if a != [] {
        var rest := a[..|a| - 1];
        assert a == rest + [a[|a| - 1]];
        assert rest + [] == rest;
        WellNestedPrefix(depth, rest, []);
      }
    } else {
      assert (a + b)[..|a + b| - 1] == a + b[..|b| - 1];
      WellNestedPrefix(depth, a, b[..|b| - 1]);
    }
  }

  lemma {:induction false} WellNestedConcat(depth: int, a: seq<CallRecord>, b: seq<CallRecord>)
    requires WellNested(depth, a) && WellNested(Depth(depth, a), b)
    ensures WellNested(depth, a + b) && Depth(depth, a + b) == Depth(Depth(depth, a), b)
    decreases |b|
  {
    if b == [] {
      assert a + b == a;
    } else {
      assert (a + b)[..|a + b| - 1] == a + b[..|b| - 1];
      WellNestedConcat(depth, a, b[..|b| - 1]);
    }
  }

  /** Playing a trace record by record. */
  lemma RunExtends(s: State, trace: seq<CallRecord>, i: nat, overhead: Overhead)
    requires i < |trace| && WellNested(|s.frames|, trace)
    ensures WellNested(|s.frames|, trace[..i]) && WellNested(|s.frames|, trace[..i + 1])
    ensures var now := Run(s, trace[..i], overhead).frames; if trace[i].callee != 0 then |now| >= 1 else |now| >= 2
    ensures Run(s, trace[..i + 1], overhead) == Step(Run(s, trace[..i], overhead), trace[i], overhead)
  {
    assert trace == trace[..i + 1] + trace[i + 1..];
    WellNestedPrefix(|s.frames|, trace[..i + 1], trace[i + 1..]);
    assert trace[..i + 1][..i] == trace[..i];
  }

  lemma {:induction false} RunConcat(s: State, a: seq<CallRecord>, b: seq<CallRecord>, overhead: Overhead)
    requires WellNested(|s.frames|, a + b)
    ensures WellNested(|s.frames|, a) && WellNested(|Run(s, a, overhead).frames|, b)
    ensures Run(s, a + b, overhead) == Run(Run(s, a, overhead), b, overhead)
    decreases |b|
  {
    WellNestedPrefix(|s.frames|, a, b);
    if b == [] {
      assert a + b == a;
    } else {
      assert (a + b)[..|a + b| - 1] == a + b[..|b| - 1];
      RunConcat(s, a, b[..|b| - 1], overhead);
    }
  }

  /** Frames never look at the forest, and the forest only accumulates. */
  lemma {:induction false} RunAdds(frames: seq<Frame>, f: Forest, g: Forest, trace: seq<CallRecord>, overhead: Overhead)
    requires WellNested(|frames|, trace)
    ensures Run(State(frames, Merge(f, g)), trace, overhead).frames == Run(State(frames, g), trace, overhead).frames
    ensures Run(State(frames, Merge(f, g)), trace, overhead).forest
         == Merge(f, Run(State(frames, g), trace, overhead).forest)
    decreases |trace|
  {
    if trace != [] {
      var rest, r := trace[..|trace| - 1], trace[|trace| - 1];
      RunAdds(frames, f, g, rest, overhead);
      var s := Run(State(frames, g), rest, overhead);
      MergeAssociates(f, s.forest, Delta(s.frames, r, overhead));
    }
  }

  /** The node of every open call is in the forest. */
  ghost predicate OpenPresent(s: State) {
    |s.frames| >= 1 && OpenPaths(s.frames) <= s.forest.Keys
  }

  lemma OpenPathsStep(frames: seq<Frame>, r: CallRecord, overhead: Overhead)
    requires if r.callee != 0 then |frames| >= 1 else |frames| >= 2
    ensures OpenPaths(NextFrames(frames, r, overhead)) <= OpenPaths(frames) + Delta(frames, r, overhead).Keys
  {
    var next := NextFrames(frames, r, overhead);
    forall k | 1 <= k < |next|
      ensures PathOf(next)[..k] in OpenPaths(frames) + Delta(frames, r, overhead).Keys
    {
      if k < |frames| {
        assert PathOf(next)[..k] == PathOf(frames)[..k];
      } else {
        assert PathOf(next)[..k] == PathOf(frames) + [r.callee];
      }
    }
  }

  lemma {:induction false} RunKeepsOpenPresent(s: State, trace: seq<CallRecord>, overhead: Overhead)
    requires WellNested(|s.frames|, trace) && OpenPresent(s)
    ensures OpenPresent(Run(s, trace, overhead))
    decreases |trace|
  {
    if trace != [] {
      var rest := trace[..|trace| - 1];
      RunKeepsOpenPresent(s, rest, overhead);
      OpenPathsStep(Run(s, rest, overhead).frames, trace[|trace| - 1], overhead);
    }
  }

  /** A session from a fresh thread: `bottom` is the frame that stands for the thread. */
  function Play(bottom: Frame, events: seq<Event>, overhead: Overhead): (s: Session)
    requires WellNested(1, Calls(events))
    ensures |s.state.frames| == Depth(1, Calls(events)) >= 1
    decreases |events|
  {
    if events == [] then Session(State([bottom], map[]), []) else
    var rest, e := events[..|events| - 1], events[|events| - 1];
    var calls := if e.Batch? then e.calls else [];
    WellNestedPrefix(1, Calls(rest), calls);
    var s := Play(bottom, rest, overhead);
    if e.Batch? then
      s.(state := Update(s.state, e.calls, overhead))
    else
      assert Calls(events) == Calls(rest);
      Session(State(s.state.frames, map[]), s.shipped + [s.state.forest])
  }

  /** Everything shipped so far together with what is still held. */
  function Total(s: Session): Forest {
    Merge(MergeAll(s.shipped), s.state.forest)
  }

  /** However a trace is cut, and whatever is shipped while calls are open, nothing is lost or counted twice. */
  lemma {:induction false} NothingIsLost(bottom: Frame, events: seq<Event>, overhead: Overhead)
    requires WellNested(1, Calls(events))
    ensures Play(bottom, events, overhead).state.frames == Run(State([bottom], map[]), Calls(events), overhead).frames
    ensures Total(Play(bottom, events, overhead)) == Run(State([bottom], map[]), Calls(events), overhead).forest
    decreases |events|
  {
    var start := State([bottom], map[]);
    if events == [] {
    } else {
      var rest, e := events[..|events| - 1], events[|events| - 1];
      var calls := if e.Batch? then e.calls else [];
      WellNestedPrefix(1, Calls(rest), calls);
      NothingIsLost(bottom, rest, overhead);
      var s := Play(bottom, rest, overhead);
      if e.Batch? {
        var blank := Blank(OpenPaths(s.state.frames));
        var held, sent := s.state.forest, MergeAll(s.shipped);
        RunConcat(start, Calls(rest), calls, overhead);
        RunKeepsOpenPresent(start, Calls(rest), overhead);
        RunAdds(s.state.frames, sent, Merge(held, blank), calls, overhead);
        MergeAssociates(sent, held, blank);
        MergeBlank(Merge(sent, held), OpenPaths(s.state.frames));
      } else {
        assert Calls(events) == Calls(rest);
        var sent := s.shipped + [s.state.forest];
        assert sent[..|sent| - 1] == s.shipped;
        MergeEmpty(MergeAll(sent));
      }
    }
  }

  /** A session, event by event. */
  lemma PlayExtends(bottom: Frame, events: seq<Event>, i: nat, overhead: Overhead)
    requires i < |events| && WellNested(1, Calls(events))
    ensures WellNested(1, Calls(events[..i])) && WellNested(1, Calls(events[..i + 1]))
    ensures var s, s', e := Play(bottom, events[..i], overhead), Play(bottom, events[..i + 1], overhead), events[i];
      if e.Batch? then
        WellNested(|s.state.frames|, e.calls) && s' == s.(state := Update(s.state, e.calls, overhead))
      else
        s'.state == State(s.state.frames, map[]) && MergeAll(s'.shipped) == Merge(MergeAll(s.shipped), s.state.forest)
  {
    WellNestedSoFar(events, i);
    var now := events[..i + 1];
    assert now[..i] == events[..i];
    if events[i].Ship? {
      assert Calls(now) == Calls(events[..i]);
      var sent, held := Play(bottom, events[..i], overhead).shipped, Play(bottom, events[..i], overhead).state.forest;
      assert (sent + [held])[..|sent|] == sent;
    }
  }

  lemma WellNestedSoFar(events: seq<Event>, i: nat)
    requires i < |events| && WellNested(1, Calls(events))
    ensures WellNested(1, Calls(events[..i])) && WellNested(1, Calls(events[..i + 1]))
    ensures events[i].Batch? ==> WellNested(Depth(1, Calls(events[..i])), events[i].calls)
  {
    CallsPrefix(events, i + 1);
    hide WellNested, Depth;
    var now, later := events[..i + 1], Calls(events)[|Calls(events[..i + 1])|..];
    assert Calls(events) == Calls(now) + later;
    WellNestedPrefix(1, Calls(now), later);
    assert now[..i] == events[..i];
    WellNestedPrefix(1, Calls(events[..i]), if events[i].Batch? then events[i].calls else []);
  }

  lemma {:induction false} CallsPrefix(events: seq<Event>, i: nat)
    requires i <= |events|
    ensures Calls(events[..i]) <= Calls(events)
    decreases |events|
  {
    if i == |events| {
      assert events[..i] == events;
    } else {
      var rest := events[..|events| - 1];
      CallsPrefix(rest, i);
      assert rest[..i] == events[..i];
    }
  }
}
