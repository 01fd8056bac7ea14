/**
  The whole way at once: the hooks of all threads of a process, the queue of
  each thread, the analyzer, and the frontend's table.
*/
module WholeSessions {
  import opened Statistics
  import opened ShadowStack
  import opened TimeConservation
  import opened CallTables
  import opened Pipeline
  import opened EndToEnd
  import Analyzers
  import Hooks = CallsCollectorThreads
  import Queues = BuffersQueues
  import HandOver
  import CallTree
  import HookCalls

  /** A thread: the hooks called in it, and what both sides of its queue have done. */
  datatype Instrumented = Instrumented(
    hooks: seq<Hooks.Hook>, policy: Queues.Policy, actions: seq<Queues.Action<CallRecord>>)
  {
    ghost predicate Valid() {
      policy.Valid() && policy.maxBuffers < Queues.SLOTS_LIMIT && HandOver.Possible(HandOver.Start(policy), actions)
      && Queue().pushed <= Emitted()
    }

    ghost function Queue(): Queues.Queue<CallRecord>
      requires policy.Valid() && HandOver.Possible(HandOver.Start(policy), actions)
    {
      QueueAfter(policy, actions)
    }

    function Emitted(): seq<CallRecord> {
      Hooks.Run(Hooks.Fresh(), hooks).0.trace
    }
  }

  /** What the analyzer gets of a thread is what its queue delivers; of no other thread is there anything to get. */
  ghost predicate Delivered(threads: map<ThreadId, Instrumented>, arrivals: seq<Analyzers.Arrival>, t: ThreadId) {
    if t in threads then threads[t].Valid() && Calls(Analyzers.Mine(arrivals, t)) == threads[t].Queue().delivered
    else Calls(Analyzers.Mine(arrivals, t)) == []
  }

  /** The analysis of a trace, from when its thread was started. */
  function Analysis(trace: seq<CallRecord>, overhead: Overhead): State
    requires WellNested(1, trace)
  {
    Run(State([Frame(0, 0, 0, 0)], map[]), trace, overhead)
  }

  /**
    A thread's statistics are the analysis of what was delivered of it: all it pushed, once its queue is drained; and if
    it pushed all its hooks emitted, they are what the calls amount to that these hooks tell of.
  */
  ghost predicate Accounted(thread: Instrumented, held: State, shipped: Forest, overhead: Overhead) {
    && thread.Valid()
    && var q := thread.Queue();
    && q.delivered <= q.pushed <= thread.Emitted()
    && WellNested(1, q.delivered)
    && State(held.frames, Merge(shipped, held.forest)) == Analysis(q.delivered, overhead)
    && Balanced(State(held.frames, Merge(shipped, held.forest)))
    && (Drained(q) ==> q.delivered == q.pushed)
    && (Drained(q) && q.pushed == thread.Emitted() ==>
          State(held.frames, Merge(shipped, held.forest)) == CallsMean(thread.hooks, overhead))
  }

  /** What the calls amount to that a thread's hooks tell of, open ones included. */
  function CallsMean(hooks: seq<Hooks.Hook>, overhead: Overhead): State {
    CallTree.Meaning(Frame(0, 0, 0, 0), HookCalls.CallsAfter(hooks), overhead)
  }

  lemma EmittedMeans(thread: Instrumented, overhead: Overhead)
    ensures WellNested(1, thread.Emitted()) && Analysis(thread.Emitted(), overhead) == CallsMean(thread.hooks, overhead)
  {
    hide WellNested, Run, CallTree.Meaning, CallTree.Parse;
    Hooks.EveryTraceIsWellNested(thread.hooks);
    CallTree.RunIsMeaning(Frame(0, 0, 0, 0), thread.Emitted(), overhead);
  }

  lemma DeliveredIsNested(thread: Instrumented) returns (later: seq<CallRecord>)
    requires thread.Valid()
    ensures var q := thread.Queue();
      && q.pushed == q.delivered + later && WellNested(1, q.delivered) && (Drained(q) ==> q.delivered == q.pushed)
  {
    hide Drained, QueueAfter, WellNested, HandOver.Possible, HandOver.Start, Hooks.Run;
    later := StillToCome(thread.policy, thread.actions);
    TraceIsWellNested(thread.hooks);
    PrefixesAreWellNested(thread.Queue().delivered, later, thread.Emitted());
    if Drained(thread.Queue()) {
      assert thread.Queue().pushed == thread.Queue().delivered;
    }
  }

  lemma AllNested(threads: map<ThreadId, Instrumented>, arrivals: seq<Analyzers.Arrival>)
    requires forall t :: Delivered(threads, arrivals, t)
    ensures AllWellNested(arrivals)
  {
    hide Calls, Analyzers.Mine, Drained;
    forall t ensures SessionNested(arrivals, t) {
      assert Delivered(threads, arrivals, t);
      if t in threads {
        var _ := DeliveredIsNested(threads[t]);
      }
    }
  }

  lemma AccountedFor(threads: map<ThreadId, Instrumented>, arrivals: seq<Analyzers.Arrival>, overhead: Overhead,
                     t: ThreadId, held: State, shipped: Forest)
    requires AllWellNested(arrivals) && t in threads && Delivered(threads, arrivals, t)
    requires held.frames == Uncut(arrivals, t, overhead).frames
    requires Merge(shipped, held.forest) == Uncut(arrivals, t, overhead).forest
    ensures Accounted(threads[t], held, shipped, overhead)
  {
    hide Calls, Analyzers.Mine, Drained, WellNested, Merge, Run, Balanced, Hooks.Run, CallsMean;
    var _ := DeliveredIsNested(threads[t]);
    EmittedMeans(threads[t], overhead);
    assert SessionNested(arrivals, t);
    FreshBalanced(Frame(0, 0, 0, 0));
    RunBalances(State([Frame(0, 0, 0, 0)], map[]), threads[t].Queue().delivered, overhead);
  }

  lemma NobodyThere(threads: map<ThreadId, Instrumented>, arrivals: seq<Analyzers.Arrival>, overhead: Overhead,
                    t: ThreadId, held: State, shipped: Forest)
    requires AllWellNested(arrivals) && t !in threads && Delivered(threads, arrivals, t)
    requires Merge(shipped, held.forest) == Uncut(arrivals, t, overhead).forest
    ensures shipped == held.forest == map[]
  {
    hide Calls, Analyzers.Mine;
    assert SessionNested(arrivals, t);
    assert Merge(shipped, held.forest).Keys == shipped.Keys + held.forest.Keys == {};
  }

  lemma AllAccounted(threads: map<ThreadId, Instrumented>, arrivals: seq<Analyzers.Arrival>, overhead: Overhead,
                     analyzer: Analyzers.Analyzer, table: StatisticsTable)
    requires (forall t :: Delivered(threads, arrivals, t)) && AllWellNested(arrivals) && table.Valid()
    requires forall t :: Analyzers.StateOf(analyzer.known, t).frames == Uncut(arrivals, t, overhead).frames
    requires forall t ::
      Merge(table.Forest(t), Analyzers.StateOf(analyzer.known, t).forest) == Uncut(arrivals, t, overhead).forest
    ensures forall t :: t in threads ==>
      Accounted(threads[t], Analyzers.StateOf(analyzer.known, t), table.Forest(t), overhead)
    ensures forall t :: t !in threads ==> table.Forest(t) == Analyzers.StateOf(analyzer.known, t).forest == map[]
  {
    hide Uncut, Merge, Analyzers.StateOf, StatisticsTable.Forest, Accounted, AllWellNested, Delivered;
    forall t
      ensures t in threads ==>
        Accounted(threads[t], Analyzers.StateOf(analyzer.known, t), table.Forest(t), overhead)
      ensures t !in threads ==> table.Forest(t) == Analyzers.StateOf(analyzer.known, t).forest == map[]
    {
      var held, shipped := Analyzers.StateOf(analyzer.known, t), table.Forest(t);
      assert Delivered(threads, arrivals, t);
      if t in threads {
        AccountedFor(threads, arrivals, overhead, t, held, shipped);
      } else {
        NobodyThere(threads, arrivals, overhead, t, held, shipped);
      }
    }
  }

  /**
    Whatever hooks the threads of a process call, in whatever interleaving each thread's queue hands over what they
    emit, however the batches of all threads and the updates of the frontend interleave: the analyzer can take what it
    gets, and the frontend's table, with what the analyzer still holds, is for every thread the analysis of what was
    delivered of the trace its hooks have emitted, and of all that was pushed once its queue is drained. With all that
    was emitted pushed, this is what the calls amount to. Times are conserved; nothing is known of other threads.
  */
  method ProfileProcess(overhead: Overhead, ghost threads: map<ThreadId, Instrumented>,
                        arrivals: seq<Analyzers.Arrival>)
      returns (analyzer: Analyzers.Analyzer, table: StatisticsTable)
    requires forall t :: Delivered(threads, arrivals, t)
    ensures analyzer.Valid() && table.Valid()
    ensures forall t :: t in threads ==>
      Accounted(threads[t], Analyzers.StateOf(analyzer.known, t), table.Forest(t), overhead)
    ensures forall t :: t !in threads ==> table.Forest(t) == Analyzers.StateOf(analyzer.known, t).forest == map[]
  {
    hide *;
    AllNested(threads, arrivals);
    analyzer, table := Profile(overhead, arrivals);
    AllAccounted(threads, arrivals, overhead, analyzer, table);
  }
}
