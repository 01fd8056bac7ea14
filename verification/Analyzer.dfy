/** One analyzer per thread, made when the thread is first heard of. */
module Analyzers {
  import opened Statistics
  import opened ShadowStack
  import opened ThreadAnalyzers

  type ThreadId = nat

  function Unknown(): State {
    State([Frame(0, 0, 0, 0)], map[])
  }

  function StateOf(known: map<ThreadId, State>, thread: ThreadId): State {
    if thread in known then known[thread] else Unknown()
  }

  function Cleared(known: map<ThreadId, State>): map<ThreadId, State> {
    map t | t in known :: State(known[t].frames, map[])
  }

  function ClearedBut(known: map<ThreadId, State>, rest: set<ThreadId>): map<ThreadId, State> {
    map t | t in known :: if t in rest then known[t] else State(known[t].frames, map[])
  }

  lemma OneMoreCleared(known: map<ThreadId, State>, rest: set<ThreadId>, t: ThreadId)
    requires t in rest && t in known
    ensures ClearedBut(known, rest)[t := State(ClearedBut(known, rest)[t].frames, map[])] == ClearedBut(known, rest - {t})
  {
  }

  lemma AllCleared(known: map<ThreadId, State>)
    ensures ClearedBut(known, known.Keys) == known && ClearedBut(known, {}) == Cleared(known)
  {
  }

  lemma UpdatedTwice(known: map<ThreadId, State>, t: ThreadId, first: State, second: State)
    ensures known[t := first][t := second] == known[t := second]
  {
  }

  ghost predicate Separate(parts: map<ThreadId, set<object>>) {
    forall t, u :: t in parts && u in parts && t != u ==> parts[t] !! parts[u]
  }

  lemma StaysSeparate(parts: map<ThreadId, set<object>>, t: ThreadId, part: set<object>, all: set<object>)
    requires Separate(parts) && forall u :: u in parts ==> parts[u] <= all
    requires forall o :: o in part && o in all ==> t in parts && o in parts[t]
    ensures Separate(parts[t := part])
  {
  }

  lemma ApartFromOthers(parts: map<ThreadId, set<object>>, t: ThreadId)
    requires Separate(parts) && t in parts
    ensures forall u :: u in parts && u != t ==> parts[u] !! parts[t]
  {
  }

  /** An analyzer and all its nodes are in the part, and it is in the state. */
  ghost predicate Holds(part: set<object>, analyzer: ThreadAnalyzer, overhead: Overhead, state: State)
    reads part
  {
    && analyzer in part && analyzer.graph in part && analyzer.Repr() <= part
    && analyzer.Valid() && analyzer.overhead == overhead && analyzer.Abstract() == state
  }

  class Analyzer {
    const overhead: Overhead
    var threads: map<ThreadId, ThreadAnalyzer>
    /** The open calls and the statistics of every thread heard of, and the objects that hold them. */
    ghost var known: map<ThreadId, State>
    ghost var parts: map<ThreadId, set<object>>
    ghost var Repr: set<object>

    ghost predicate Valid()
      reads this, Repr
    {
      && this in Repr && known.Keys == threads.Keys == parts.Keys && Separate(parts)
      && (forall t :: t in parts ==> parts[t] <= Repr && this !in parts[t])
      && (forall t :: t in parts ==> Holds(parts[t], threads[t], overhead, known[t]))
    }

    /** All is well with the other threads. */
    ghost predicate ValidBut(thread: ThreadId)
      reads this, Repr
    {
      && this in Repr && known.Keys == threads.Keys == parts.Keys && Separate(parts)
      && (forall t :: t in parts ==> parts[t] <= Repr && this !in parts[t])
      && (forall t :: t in parts && t != thread ==> Holds(parts[t], threads[t], overhead, known[t]))
    }

    ghost method Settle(thread: ThreadId, part: set<object>, state: State)
      requires ValidBut(thread) && thread in parts && this !in part
      requires Holds(part, threads[thread], overhead, state)
      requires forall o :: o in part && o in Repr ==> o in parts[thread]
      modifies this`known, this`parts, this`Repr
      ensures Valid() && Repr == old(Repr) + part
      ensures known == old(known)[thread := state] && parts == old(parts)[thread := part]
    {
      hide Holds, Separate;
      StaysSeparate(parts, thread, part, Repr);
      known, parts, Repr := known[thread := state], parts[thread := part], Repr + part;
    }

    constructor (overhead: Overhead)
      ensures Valid() && fresh(Repr) && threads == map[] && known == map[] && this.overhead == overhead
    {
      this.overhead := overhead;
      threads, known, parts, Repr := map[], map[], map[], {this};
    }

    method Make() returns (analyzer: ThreadAnalyzer, ghost part: set<object>)
      ensures fresh(part) && Holds(part, analyzer, overhead, Unknown())
    {
      analyzer := new ThreadAnalyzer(overhead);
      part := analyzer.Repr();
    }

    method Add(thread: ThreadId)
      requires Valid() && thread !in threads
      modifies this
      ensures Valid() && fresh(Repr - old(Repr))
      ensures thread in threads && known == old(known)[thread := Unknown()]
    {
      hide Holds, Separate, Unknown;
      var analyzer;
      ghost var part;
      analyzer, part := Make();
      StaysSeparate(parts, thread, part, Repr);
      threads := threads[thread := analyzer];
      known := known[thread := Unknown()];
      parts := parts[thread := part];
      Repr := Repr + part;
    }

    method Forward(analyzer: ThreadAnalyzer, ghost part: set<object>, ghost state: State, calls: seq<CallRecord>)
        returns (ghost larger: set<object>)
      requires Holds(part, analyzer, overhead, state) && WellNested(|state.frames|, calls)
      modifies part
      ensures part <= larger && fresh(larger - part)
      ensures state.frames != [] && Holds(larger, analyzer, overhead, Update(state, calls, overhead))
    {
      hide Update, WellNested;
      assert |analyzer.Frames()| == |analyzer.stack|;
      analyzer.AcceptCalls(calls);
      larger := part + analyzer.Repr();
    }

    method AcceptFrom(thread: ThreadId, calls: seq<CallRecord>)
      requires Valid() && thread in threads && thread in known && WellNested(|known[thread].frames|, calls)
      modifies Repr
      ensures Valid() && fresh(Repr - old(Repr))
      ensures old(known)[thread].frames != []
      ensures known == old(known)[thread := Update(old(known)[thread], calls, overhead)]
    {
      hide Holds, Separate, Unknown, Update, WellNested;
      ApartFromOthers(parts, thread);
      ghost var larger := Forward(threads[thread], parts[thread], known[thread], calls);
      Settle(thread, larger, Update(known[thread], calls, overhead));
    }

    /** A batch goes to the analyzer of its thread and to no other. */
    method AcceptCalls(thread: ThreadId, calls: seq<CallRecord>)
      requires Valid() && WellNested(|StateOf(known, thread).frames|, calls)
      modifies Repr
      ensures Valid() && fresh(Repr - old(Repr))
      ensures StateOf(old(known), thread).frames != []
      ensures known == old(known)[thread := Update(StateOf(old(known), thread), calls, overhead)]
    {
      KeysKnown();
      FramesKnown(thread);
      hide Analyzer.Valid, Unknown, Update, WellNested;
      ghost var state := Update(StateOf(known, thread), calls, overhead);
      UpdatedTwice(known, thread, Unknown(), state);
      if thread !in threads {
        Add(thread);
      }
      AcceptFrom(thread, calls);
    }

    method ClearOne(analyzer: ThreadAnalyzer, ghost part: set<object>, ghost state: State)
      requires Holds(part, analyzer, overhead, state)
      modifies part
      ensures Holds(part, analyzer, overhead, State(state.frames, map[]))
    {
      analyzer.Clear();
    }

    method ClearThread(thread: ThreadId)
      requires Valid() && thread in threads
      modifies Repr
      ensures Valid() && Repr == old(Repr) && threads == old(threads) && thread in old(known)
      ensures known == old(known)[thread := State(old(known)[thread].frames, map[])]
    {
      hide Holds, Separate;
      ApartFromOthers(parts, thread);
      ClearOne(threads[thread], parts[thread], known[thread]);
      Settle(thread, parts[thread], State(known[thread].frames, map[]));
    }

    /** What has been gathered is dropped for every thread. */
    method Clear()
      requires Valid()
      modifies Repr
      ensures Valid() && Repr == old(Repr) && threads == old(threads)
      ensures known == Cleared(old(known))
    {
      hide Analyzer.Valid, ClearedBut, Cleared;
      ghost var start := known;
      AllCleared(start);
      KeysKnown();
      var rest := threads.Keys;
      while rest != {}
        invariant Valid() && rest <= threads.Keys && Repr == old(Repr) && threads == old(threads)
        invariant known == ClearedBut(start, rest)
      {
        var t :| t in rest;
        OneMoreCleared(start, rest, t);
        ClearThread(t);
        rest := rest - {t};
      }
    }

    lemma FramesKnown(thread: ThreadId)
      requires Valid()
      ensures StateOf(known, thread).frames != []
    {
      if thread in threads {
        assert Holds(parts[thread], threads[thread], overhead, known[thread]);
        assert |threads[thread].Frames()| == |threads[thread].stack|;
      }
    }

    lemma KeysKnown()
      requires Valid()
      ensures known.Keys == threads.Keys && this in Repr
    {
    }
  }

  // ---- Threads do not mix ----

  datatype Arrival = Arrived(thread: ThreadId, calls: seq<CallRecord>) | Shipped

  /** What one thread sees of what arrives. */
  function Mine(arrivals: seq<Arrival>, thread: ThreadId): seq<Event> {
    if arrivals == [] then [] else
    var rest, last := Mine(arrivals[..|arrivals| - 1], thread), arrivals[|arrivals| - 1];
    if last.Shipped? then rest + [Ship]
    else if last.thread == thread then rest + [Batch(last.calls)]
    else rest
  }

  lemma MineExtends(arrivals: seq<Arrival>, thread: ThreadId)
    requires arrivals != [] && WellNested(1, Calls(Mine(arrivals, thread)))
    ensures WellNested(1, Calls(Mine(arrivals[..|arrivals| - 1], thread)))
  {
    var rest, last := Mine(arrivals[..|arrivals| - 1], thread), arrivals[|arrivals| - 1];
    var all := Mine(arrivals, thread);
    if all != rest {
      assert all[..|all| - 1] == rest;
      WellNestedPrefix(1, Calls(rest), if last.Arrived? then last.calls else []);
    }
  }

  /** How what arrives is taken in. */
  function Taken(before: map<ThreadId, State>, arrival: Arrival, overhead: Overhead): map<ThreadId, State> {
    match arrival
    case Arrived(t, calls) =>
      if StateOf(before, t).frames != [] && WellNested(|StateOf(before, t).frames|, calls) then
        before[t := Update(StateOf(before, t), calls, overhead)]
      else before
    case Shipped => Cleared(before)
  }

  function TakenAll(arrivals: seq<Arrival>, overhead: Overhead): map<ThreadId, State> {
    if arrivals == [] then map[] else
    Taken(TakenAll(arrivals[..|arrivals| - 1], overhead), arrivals[|arrivals| - 1], overhead)
  }

  lemma PlayLast(events: seq<Event>, e: Event, overhead: Overhead)
    requires WellNested(1, Calls(events + [e]))
    ensures WellNested(1, Calls(events))
    ensures var bottom := Frame(0, 0, 0, 0);
      var before, after := Play(bottom, events, overhead).state, Play(bottom, events + [e], overhead).state;
      && before.frames != []
      && match e
         case Batch(calls) => WellNested(|before.frames|, calls) && after == Update(before, calls, overhead)
         case Ship => after == State(before.frames, map[])
  {
    hide Update, WellNested;
    var all := events + [e];
    assert all[..|all| - 1] == events;
    WellNestedPrefix(1, Calls(events), if e.Batch? then e.calls else []);
  }

  lemma MineLast(arrivals: seq<Arrival>, thread: ThreadId, overhead: Overhead)
    requires arrivals != []
    ensures var rest, last := arrivals[..|arrivals| - 1], arrivals[|arrivals| - 1];
      && TakenAll(arrivals, overhead) == Taken(TakenAll(rest, overhead), last, overhead)
      && Mine(arrivals, thread) == match last
         case Arrived(t, calls) => if t == thread then Mine(rest, thread) + [Batch(calls)] else Mine(rest, thread)
         case Shipped => Mine(rest, thread) + [Ship]
  {
  }

  /** Batches of different threads may come in any order: each thread's state is that of its own session. */
  lemma {:induction false} ThreadsDoNotMix(arrivals: seq<Arrival>, overhead: Overhead, thread: ThreadId)
    requires WellNested(1, Calls(Mine(arrivals, thread)))
    ensures StateOf(TakenAll(arrivals, overhead), thread)
      == Play(Frame(0, 0, 0, 0), Mine(arrivals, thread), overhead).state
    decreases |arrivals|
  {
    if arrivals != [] {
      var rest, last := arrivals[..|arrivals| - 1], arrivals[|arrivals| - 1];
      MineExtends(arrivals, thread);
      ThreadsDoNotMix(rest, overhead, thread);
      hide Update, WellNested, Play, Calls, TakenAll, Mine;
      MineLast(arrivals, thread, overhead);
      match last {
        case Arrived(t, calls) =>
          if t == thread {
            PlayLast(Mine(rest, thread), Batch(calls), overhead);
          }
        case Shipped =>
          PlayLast(Mine(rest, thread), Ship, overhead);
      }
    }
  }
}
