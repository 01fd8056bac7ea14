/**
  The way of a record: written by a hook, pushed into the thread's buffers,
  delivered to the analyzer, gathered, shipped.
*/
module Pipeline {
  import opened Statistics
  import opened ShadowStack
  import opened TimeConservation
  import Hooks = CallsCollectorThreads
  import Queues = BuffersQueues
  import HandOver

  /** The state of the queue after what both sides have done. */
  ghost function QueueAfter(policy: Queues.Policy, actions: seq<Queues.Action<CallRecord>>): Queues.Queue<CallRecord>
    requires policy.Valid() && HandOver.Possible(HandOver.Start(policy), actions)
  {
    HandOver.Run(HandOver.Start(policy), actions)
  }

  /** Nothing is on its way from the thread to the analyzer. */
  ghost predicate Drained(q: Queues.Queue<CallRecord>) {
    q.ready == [] && Queues.RecordsOf(q.active) == [] && !q.reader.Holding?
  }

  /** What has not been delivered yet follows what has. */
  lemma StillToCome(policy: Queues.Policy, actions: seq<Queues.Action<CallRecord>>) returns (later: seq<CallRecord>)
    requires policy.Valid() && policy.maxBuffers < Queues.SLOTS_LIMIT
    requires HandOver.Possible(HandOver.Start(policy), actions)
    ensures QueueAfter(policy, actions).pushed == QueueAfter(policy, actions).delivered + later
    ensures Drained(QueueAfter(policy, actions)) ==> later == []
  {
    hide HandOver.Run, HandOver.Possible, HandOver.Start, Queues.Safe, Drained;
    HandOver.StartSafe<CallRecord>(policy);
    HandOver.RunSafe(HandOver.Start(policy), actions);
    later := After(QueueAfter(policy, actions));
  }

  lemma After(q: Queues.Queue<CallRecord>) returns (later: seq<CallRecord>)
    requires Queues.Safe(q)
    ensures q.pushed == q.delivered + later && (Drained(q) ==> later == [])
  {
    hide Queues.OwnedOnce, Queues.Placed;
    later := Queues.InHand(q) + Queues.Flatten(q.ready) + Queues.RecordsOf(q.active);
    assert q.pushed == q.delivered + later;
  }

  lemma PrefixesAreWellNested(delivered: seq<CallRecord>, later: seq<CallRecord>, trace: seq<CallRecord>)
    requires delivered + later <= trace && WellNested(1, trace)
    ensures WellNested(1, delivered + later) && WellNested(1, delivered)
  {
    hide WellNested;
    var pushed := delivered + later;
    assert trace == pushed + trace[|pushed|..];
    WellNestedPrefix(1, pushed, trace[|pushed|..]);
    WellNestedPrefix(1, delivered, later);
  }

  /**
    Whatever the hooks have emitted and pushed so far, in whatever interleaving it was handed over, cut into
    batches and shipped in between: the analyzer can take what was delivered, and once everything is delivered,
    shipped and held statistics make up the analysis of the trace as the hooks emitted it, with times conserved.
  */
  lemma FromHooksToStatistics(hooks: seq<Hooks.Hook>, policy: Queues.Policy, actions: seq<Queues.Action<CallRecord>>,
                              events: seq<Event>, bottom: Frame, overhead: Overhead)
    requires policy.Valid() && policy.maxBuffers < Queues.SLOTS_LIMIT
    requires HandOver.Possible(HandOver.Start(policy), actions)
    requires QueueAfter(policy, actions).pushed <= Hooks.Run(Hooks.Fresh(), hooks).0.trace
    requires Calls(events) == QueueAfter(policy, actions).delivered
    ensures WellNested(1, QueueAfter(policy, actions).pushed) && WellNested(1, Calls(events))
    ensures Drained(QueueAfter(policy, actions)) ==>
      Total(Play(bottom, events, overhead)) == Run(State([bottom], map[]), QueueAfter(policy, actions).pushed,
        overhead).forest
    ensures var s := Play(bottom, events, overhead);
      Balanced(State(s.state.frames, Total(s)))
  {
    hide *;
    var q, trace := QueueAfter(policy, actions), Hooks.Run(Hooks.Fresh(), hooks).0.trace;
    var later := StillToCome(policy, actions);
    TraceIsWellNested(hooks);
    PrefixesAreWellNested(q.delivered, later, trace);
    NothingIsLost(bottom, events, overhead);
    SessionConservesTime(bottom, events, overhead);
    if Drained(q) {
      assert q.pushed == q.delivered;
    }
  }

  lemma TraceIsWellNested(hooks: seq<Hooks.Hook>)
    ensures WellNested(1, Hooks.Run(Hooks.Fresh(), hooks).0.trace)
  {
    Hooks.EveryTraceIsWellNested(hooks);
  }
}
