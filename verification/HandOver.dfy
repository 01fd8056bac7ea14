/**
  Runs of the buffers queue: whatever the producer, the reader and whoever sets
  policies do, records arrive in order; and a producer that has run out of
  buffers is woken up, unless a policy is set at the wrong moment.
*/
module HandOver {
  import opened Wrappers
  import opened BuffersQueues

  // ---- Runs ----

  ghost predicate Possible<E>(q: Queue<E>, actions: seq<Action<E>>)
    decreases |actions|
  {
    actions == [] || (Enabled(q, actions[0]) && Possible(Next(q, actions[0]), actions[1..]))
  }

  ghost function Run<E>(q: Queue<E>, actions: seq<Action<E>>): Queue<E>
    requires Possible(q, actions)
    decreases |actions|
  {
    if actions == [] then q else Run(Next(q, actions[0]), actions[1..])
  }

  lemma {:induction false} RunOn<E>(q: Queue<E>, actions: seq<Action<E>>, more: seq<Action<E>>)
    requires Possible(q, actions) && Possible(Run(q, actions), more)
    ensures Possible(q, actions + more) && Run(q, actions + more) == Run(Run(q, actions), more)
    decreases |actions|
  {
    hide Next, Enabled;
    if actions == [] {
      assert actions + more == more;
    } else {
      assert (actions + more)[1..] == actions[1..] + more;
      RunOn(Next(q, actions[0]), actions[1..], more);
    }
  }

  lemma RunOne<E>(q: Queue<E>, a: Action<E>)
    requires Enabled(q, a)
    ensures Possible(q, [a]) && Run(q, [a]) == Next(q, a)
  {
    hide Next, Enabled;
    assert [a][1..] == [];
  }

  function EmptySlots<E>(n: nat): seq<Option<Buffer<E>>> {
    seq(n, _ => None)
  }

  /** One buffer being filled, and as many empty ones as the policy asks for. */
  function Start<E>(policy: Policy): Queue<E>
    requires policy.Valid()
  {
    Queue(Some(Buffer(0, [])), BUFFER_SIZE, [], AdjustEmpty(Pool(EmptySlots(policy.maxBuffers), 0, 1, 1), policy, 0),
          policy, false, Filling, Idle, None, [], [])
  }

  lemma StartSafe<E>(policy: Policy)
    requires policy.Valid() && policy.maxBuffers < SLOTS_LIMIT
    ensures Safe(Start<E>(policy)) && Live(Start<E>(policy))
    ensures |Start<E>(policy).pool.slots| == policy.maxBuffers
  {
    var pool: Pool<E> := Pool(EmptySlots(policy.maxBuffers), 0, 1, 1);
    assert PoolOwns(pool, multiset{0});
    AdjustOwns(pool, policy, 0, multiset{0});
    AdjustLive(pool, policy, 0);
    assert IdsOf<E>([]) + multiset{0} + multiset{} == multiset{0};
  }

  lemma StepKeepsSlots<E>(q: Queue<E>, a: Action<E>)
    requires Safe(q) && Enabled(q, a)
    ensures |Next(q, a).pool.slots| == |q.pool.slots|
  {
    hide AdjustEmpty, PoolOwns, InOrder;
    match a
    case Adjust => AdjustFits(q.pool, q.policy, q.reader.seen);
    case SetPolicy(policy) => AdjustFits(q.pool, policy, BaseOf(q.pool));
    case _ =>
  }

  /**
    How many empty buffers there are after adjusting: no more than the high mark, then as many as allowed up to the
    low one.
  */
  lemma AdjustFits<E>(pool: Pool<E>, policy: Policy, base: nat)
    requires Adjustable(pool, policy)
    ensures var after := AdjustEmpty(pool, policy, base);
      var high, low := (policy.maxEmpty + base) % SIZE_RANGE, (policy.minEmpty + base) % SIZE_RANGE;
      var top := AtMost(pool.top, high);
      var buffers := pool.buffers - pool.top + top;
      && |after.slots| == |pool.slots| && after.buffers - after.top == pool.buffers - pool.top
      && after.top == AtLeast(AtMost(low, top + AtLeast(policy.maxBuffers, buffers) - buffers), top)
  {
    hide Trim, Grow;
    var high, low := (policy.maxEmpty + base) % SIZE_RANGE, (policy.minEmpty + base) % SIZE_RANGE;
    TrimFits(pool, high);
    GrowFits(Trim(pool, high), policy.maxBuffers, low);
  }

  lemma {:induction false} RunSafe<E>(q: Queue<E>, actions: seq<Action<E>>)
    requires Safe(q) && Possible(q, actions)
    ensures Safe(Run(q, actions)) && |Run(q, actions).pool.slots| == |q.pool.slots|
    decreases |actions|
  {
    hide Safe, Next, Enabled;
    if actions != [] {
      StepSafe(q, actions[0]);
      StepKeepsSlots(q, actions[0]);
      RunSafe(Next(q, actions[0]), actions[1..]);
    }
  }

  /**
    In every interleaving: what was delivered, then the ready buffers, then the buffer being filled make up
    what was pushed; every buffer has one owner; there are never more of them than slots.
  */
  lemma HandOverIsSafe<E>(policy: Policy, actions: seq<Action<E>>)
    requires policy.Valid() && policy.maxBuffers < SLOTS_LIMIT && Possible(Start(policy), actions)
    ensures var q := Run(Start(policy), actions);
      && q.pushed == q.delivered + InHand(q) + Flatten(q.ready) + RecordsOf(q.active)
      && OwnedOnce(q)
      && q.pool.buffers == q.pool.top + |q.ready| + Count(q.active) + Count(q.hand) <= policy.maxBuffers
      && (q.producer == Filling ==> q.active.Some? && |q.active.value.records| + q.nLeft == BUFFER_SIZE)
  {
    hide Next, Enabled, PoolOwns;
    StartSafe<E>(policy);
    RunSafe(Start(policy), actions);
    BuffersAddUp(Run(Start(policy), actions));
  }

  // ---- Progress ----

  /**
    A waiting producer is about to be woken if there is anything to wake it for; and there is some buffer,
    or the next read makes one.
  */
  predicate Live<E>(q: Queue<E>) {
    && (q.pool.buffers >= 1 || q.policy.minEmpty >= 1)
    && (q.producer == Waiting && q.pool.top > 0 ==> q.event || q.reader.Notifying?)
  }

  /** At the end of a read some buffer is left, because at least one empty buffer is always allowed. */
  lemma AdjustLive<E>(pool: Pool<E>, policy: Policy, seen: nat)
    requires Adjustable(pool, policy) && policy.Valid() && seen <= |pool.slots| < SLOTS_LIMIT
    ensures pool.buffers >= 1 ==> AdjustEmpty(pool, policy, seen).buffers >= 1
    ensures pool.top > 0 ==> AdjustEmpty(pool, policy, seen).top > 0
    ensures pool.buffers == 0 && policy.minEmpty > 0 ==> AdjustEmpty(pool, policy, seen).top > 0
  {
    AdjustFits(pool, policy, seen);
    Wraps(policy.maxEmpty + seen);
    Wraps(policy.minEmpty + seen);
    hide AdjustEmpty;
  }

  lemma AdjustStepLive<E>(q: Queue<E>)
    requires Safe(q) && Enabled(q, Adjust)
    ensures Live(q) ==> Live(Next(q, Adjust))
    ensures q.pool.buffers >= 1 ==> Next(q, Adjust).pool.buffers >= 1
    ensures q.pool.top > 0 ==> Next(q, Adjust).pool.top > 0
  {
    AdjustLive(q.pool, q.policy, q.reader.seen);
    hide AdjustEmpty, OwnedOnce, InOrder;
  }

  lemma StepLive<E>(q: Queue<E>, a: Action<E>)
    requires Safe(q) && Enabled(q, a) && !a.SetPolicy?
    ensures Live(q) ==> Live(Next(q, a))
    ensures q.pool.buffers >= 1 ==> Next(q, a).pool.buffers >= 1
  {
    hide OwnedOnce, InOrder, AdjustEmpty;
    if a.Adjust? {
      AdjustStepLive(q);
    }
  }

  // ---- Setting a policy ----

  /** An empty buffer is made for a waiting producer, and nobody is told. */
  predicate LosesWakeUp<E>(q: Queue<E>, policy: Policy) {
    && q.producer == Waiting && !q.event && !q.reader.Notifying?
    && q.pool.buffers < policy.maxBuffers && policy.minEmpty + q.pool.buffers != 1
  }

  /** All buffers are empty ones: the queue counts on an active one, and frees one too many. */
  predicate FreesLast<E>(q: Queue<E>, policy: Policy) {
    q.pool.top == q.pool.buffers && policy.minEmpty == 1 && (policy.maxEmpty == 1 || q.pool.buffers == 0)
  }

  lemma Wraps(n: int)
    requires -1 <= n < SIZE_RANGE
    ensures n % SIZE_RANGE == if n == -1 then SIZE_RANGE - 1 else n
    ensures n >= 0 ==> (n + SIZE_RANGE) % SIZE_RANGE == n
  {
  }

  /** With all buffers empty ones, the active one not there is counted all the same. */
  lemma BaseWraps<E>(pool: Pool<E>, wanted: nat)
    requires pool.top <= pool.buffers < SLOTS_LIMIT && wanted < SLOTS_LIMIT
    ensures (wanted + BaseOf(pool)) % SIZE_RANGE ==
      (if pool.top == pool.buffers && wanted == 0 then SIZE_RANGE - 1 else wanted + (pool.buffers - pool.top) - 1)
  {
    Wraps(pool.buffers - pool.top - 1);
    if pool.top == pool.buffers && wanted > 0 {
      Wraps(wanted - 1);
    } else {
      Wraps(wanted + BaseOf(pool));
    }
  }

  lemma SetPolicyFits<E>(pool: Pool<E>, policy: Policy)
    requires Adjustable(pool, policy) && policy.Valid() && pool.buffers <= |pool.slots| < SLOTS_LIMIT
    ensures var after := AdjustEmpty(pool, policy, BaseOf(pool));
      && (after.buffers == 0 <==>
          pool.top == pool.buffers && policy.minEmpty == 1 && (policy.maxEmpty == 1 || pool.buffers == 0))
      && (pool.top == 0 ==> (after.top > 0 <==> pool.buffers < policy.maxBuffers && policy.minEmpty + pool.buffers != 1))
  {
    BaseWraps(pool, policy.maxEmpty);
    BaseWraps(pool, policy.minEmpty);
    AdjustFits(pool, policy, BaseOf(pool));
    hide BaseOf, AdjustEmpty;
  }

  /** Exactly when setting a policy does no harm; in particular while the producer fills a buffer. */
  lemma SetPolicyLive<E>(q: Queue<E>, policy: Policy)
    requires Safe(q) && Live(q) && Enabled(q, SetPolicy(policy))
    ensures Live(Next(q, SetPolicy(policy))) <==> !LosesWakeUp(q, policy)
    ensures Next(q, SetPolicy(policy)).pool.buffers >= 1 <==> !FreesLast(q, policy)
    ensures q.producer == Filling ==> !LosesWakeUp(q, policy) && !FreesLast(q, policy)
  {
    hide AdjustEmpty, InOrder;
    BuffersAddUp(q);
    SetPolicyFits(q.pool, policy);
  }

  /** No policy is set at the wrong moment. */
  ghost predicate Considerate<E>(q: Queue<E>, actions: seq<Action<E>>)
    requires Possible(q, actions)
    decreases |actions|
  {
    actions == [] ||
    ((actions[0].SetPolicy? ==> !LosesWakeUp(q, actions[0].policy)) && Considerate(Next(q, actions[0]), actions[1..]))
  }

  lemma {:induction false} RunLive<E>(q: Queue<E>, actions: seq<Action<E>>)
    requires Safe(q) && Live(q) && Possible(q, actions) && Considerate(q, actions)
    ensures Live(Run(q, actions))
    decreases |actions|
  {
    hide Safe, Live, Next, Enabled;
    if actions != [] {
      StepSafe(q, actions[0]);
      if actions[0].SetPolicy? {
        SetPolicyLive(q, actions[0].policy);
      } else {
        StepLive(q, actions[0]);
      }
      RunLive(Next(q, actions[0]), actions[1..]);
    }
  }

  /** As long as no policy is set there is always some buffer. */
  lemma {:induction false} SomeBufferIsLeft<E>(q: Queue<E>, actions: seq<Action<E>>)
    requires Safe(q) && q.pool.buffers >= 1 && Possible(q, actions) && forall a :: a in actions ==> !a.SetPolicy?
    ensures Run(q, actions).pool.buffers >= 1
    decreases |actions|
  {
    hide Safe, Live, Next, Enabled;
    if actions != [] {
      StepSafe(q, actions[0]);
      StepLive(q, actions[0]);
      SomeBufferIsLeft(Next(q, actions[0]), actions[1..]);
    }
  }

  // ---- A blocked producer is woken by the next read ----

  lemma Unfold<E>(q: Queue<E>, a: Action<E>, rest: seq<Action<E>>)
    requires Enabled(q, a) && Possible(Next(q, a), rest)
    ensures Possible(q, [a] + rest) && Run(q, [a] + rest) == Run(Next(q, a), rest)
  {
    assert ([a] + rest)[1..] == rest;
  }

  ghost predicate Unblocks<E>(q: Queue<E>, actions: seq<Action<E>>)
  {
    Possible(q, actions) && Run(q, actions).producer == Filling
  }

  lemma WakeUp<E>(q: Queue<E>)
    requires Safe(q) && q.producer == Waiting && q.event && q.pool.top > 0
    ensures Unblocks(q, [Wake] + [Look])
  {
    hide OwnedOnce, InOrder;
    var woken := Next(q, Wake);
    StepSafe(q, Wake);
    StepsAreDefined(woken);
    Unfold(woken, Look, []);
    assert [Action<E>.Look] + [] == [Look];
    Unfold(q, Wake, [Look]);
  }

  lemma Before<E>(q: Queue<E>, a: Action<E>, rest: seq<Action<E>>)
    requires Enabled(q, a) && Unblocks(Next(q, a), rest)
    ensures Unblocks(q, [a] + rest)
  {
    Unfold(q, a, rest);
  }

  lemma ReturningUnblocks<E>(q: Queue<E>)
    requires Safe(q) && q.producer == Waiting && q.reader.Holding? && q.pool.top == 0
    ensures Unblocks(q, [Deliver] + ([Return] + ([Notify] + ([Wake] + [Look]))))
  {
    hide OwnedOnce, InOrder, Possible, Run, Unblocks;
    StepsAreDefined(q);
    StepSafe(q, Deliver);
    var q1 := Next(q, Deliver);
    StepsAreDefined(q1);
    StepSafe(q1, Return);
    var q2 := Next(q1, Return);
    StepSafe(q2, Notify);
    WakeUp(Next(q2, Notify));
    Before(q2, Notify, [Wake] + [Look]);
    Before(q1, Return, [Notify] + ([Wake] + [Look]));
    Before(q, Deliver, [Return] + ([Notify] + ([Wake] + [Look])));
  }

  lemma AdjustingUnblocks<E>(q: Queue<E>)
    requires Safe(q) && q.producer == Waiting && q.reader.Adjusting? && q.pool.top == q.pool.buffers == 0
    requires q.policy.minEmpty >= 1
    ensures Unblocks(q, [Adjust] + ([Wake] + [Look]))
  {
    AdjustLive(q.pool, q.policy, q.reader.seen);
    hide OwnedOnce, InOrder, Possible, Run, Unblocks, AdjustEmpty;
    StepsAreDefined(q);
    StepSafe(q, Adjust);
    WakeUp(Next(q, Adjust));
    Before(q, Adjust, [Wake] + [Look]);
  }

  /**
    A blocked producer always leaves something to wake it with: it is about to be woken, or the next read hands
    its first ready buffer back, or, should there be no buffer at all, makes one.
  */
  lemma ReadUnblocks<E>(q: Queue<E>)
    requires Safe(q) && Live(q) && q.producer == Waiting && q.reader == Idle
    ensures Unblocks(q, if q.pool.top > 0 then [Wake] + [Look] else
                        [BeginRead] + ([Consume] +
                        if q.ready != [] then [Deliver] + ([Return] + ([Notify] + ([Wake] + [Look])))
                        else [Adjust] + ([Wake] + [Look])))
  {
    hide OwnedOnce, InOrder, Possible, Run, Unblocks;
    BuffersAddUp(q);
    if q.pool.top > 0 {
      WakeUp(q);
    } else {
      var q1 := Next(q, BeginRead);
      StepSafe(q, BeginRead);
      var q2 := Next(q1, Consume);
      StepSafe(q1, Consume);
      if q.ready != [] {
        ReturningUnblocks(q2);
      } else {
        AdjustingUnblocks(q2);
      }
      var rest := if q.ready != [] then [Deliver] + ([Return] + ([Notify] + ([Wake] + [Look])))
                  else [Adjust] + ([Wake] + [Look]);
      Before(q1, Consume, rest);
      Before(q, BeginRead, [Consume] + rest);
    }
  }

  /** How far the reader is from the end of its read, in buffers and in steps of the one at hand. */
  function BuffersToGo(r: Reader): nat {
    if r.Idle? || r.Adjusting? then 0 else r.left
  }

  function StepsToGo(r: Reader): nat {
    match r
    case Idle => 0
    case Adjusting(_) => 1
    case Consuming(_, _) => 2
    case Notifying(_, _) => 3
    case Delivered(_, _) => 4
    case Holding(_, _) => 5
  }

  function NextOfReader<E>(r: Reader): Action<E>
    requires !r.Idle?
  {
    match r
    case Adjusting(_) => Adjust
    case Consuming(_, _) => Consume
    case Notifying(_, _) => Notify
    case Delivered(_, _) => Return
    case Holding(_, _) => Deliver
  }

  lemma ReaderGoesOn<E>(q: Queue<E>)
    requires Safe(q) && !q.reader.Idle?
    ensures var a := NextOfReader<E>(q.reader);
      && Enabled(q, a) && !a.SetPolicy? && Next(q, a).producer == q.producer
      && (BuffersToGo(Next(q, a).reader) < BuffersToGo(q.reader)
          || (BuffersToGo(Next(q, a).reader) == BuffersToGo(q.reader)
              && StepsToGo(Next(q, a).reader) < StepsToGo(q.reader)))
  {
    hide OwnedOnce, InOrder, AdjustEmpty;
    StepsAreDefined(q);
  }

  /** A read in progress comes to its end by the reader's own steps. */
  lemma {:induction false} ReadEnds<E>(q: Queue<E>) returns (actions: seq<Action<E>>)
    requires Safe(q) && Live(q)
    ensures Possible(q, actions) && Safe(Run(q, actions)) && Live(Run(q, actions))
    ensures Run(q, actions).reader == Idle && Run(q, actions).producer == q.producer
    ensures forall a :: a in actions ==> !a.SetPolicy?
    decreases BuffersToGo(q.reader), StepsToGo(q.reader)
  {
    hide Safe, Live, Next, Enabled, NextOfReader;
    if q.reader == Idle {
      return [];
    }
    var a := NextOfReader<E>(q.reader);
    ReaderGoesOn(q);
    StepSafe(q, a);
    StepLive(q, a);
    var rest := ReadEnds(Next(q, a));
    Unfold(q, a, rest);
    actions := [a] + rest;
  }

  lemma NoPolicy<E>(first: seq<Action<E>>, more: seq<Action<E>>)
    requires forall a :: a in first ==> !a.SetPolicy?
    requires forall a :: a in more ==> !a.SetPolicy?
    ensures forall a :: a in first + more ==> !a.SetPolicy?
  {
  }

  /** Wherever the reader is, a blocked producer is brought back by the reader going on. */
  lemma BlockedProducerComesBack<E>(q: Queue<E>) returns (actions: seq<Action<E>>)
    requires Safe(q) && Live(q) && q.producer == Waiting
    ensures Unblocks(q, actions) && forall a :: a in actions ==> !a.SetPolicy?
  {
    hide Safe, Live, Next, Enabled, Possible, Run;
    var first := ReadEnds(q);
    var idle := Run(q, first);
    ReadUnblocks(idle);
    var more := if idle.pool.top > 0 then [Wake] + [Look] else
                [BeginRead] + ([Consume] +
                if idle.ready != [] then [Deliver] + ([Return] + ([Notify] + ([Wake] + [Look])))
                else [Adjust] + ([Wake] + [Look]));
    RunOn(q, first, more);
    NoPolicy(first, more);
    actions := first + more;
  }

  // ---- In every run a read wakes a blocked producer ----

  /** Nobody but the reader moves on by itself, unless the producer is woken. */
  ghost predicate Unattended<E>(actions: seq<Action<E>>) {
    Wake !in actions && forall a :: a in actions ==> !a.SetPolicy?
  }

  lemma UnattendedRest<E>(actions: seq<Action<E>>)
    requires Unattended(actions) && actions != []
    ensures actions[0] != Wake && !actions[0].SetPolicy? && Unattended(actions[1..])
  {
  }

  /** All the producer needs to go on is there. */
  predicate Served<E>(q: Queue<E>) {
    q.producer == Waiting && q.event && q.pool.top > 0
  }

  /** A read that began while the producer was waiting has handed a buffer back, or is going to. */
  predicate Serving<E>(q: Queue<E>) {
    && q.producer == Waiting
    && match q.reader
       case Idle => false
       case Consuming(left, _) => q.pool.top > 0 || left > 0
       case Notifying(_, _) => q.pool.top > 0
       case Adjusting(_) => q.pool.top > 0 || q.ready == []
       case _ => true
  }

  lemma ServedStep<E>(q: Queue<E>, a: Action<E>)
    requires Safe(q) && Served(q) && Enabled(q, a) && a != Wake && !a.SetPolicy?
    ensures Served(Next(q, a))
  {
    hide OwnedOnce, InOrder, AdjustEmpty;
    if a.Adjust? {
      AdjustStepLive(q);
    }
  }

  lemma ServingStep<E>(q: Queue<E>, a: Action<E>)
    requires Safe(q) && Live(q) && Serving(q) && Enabled(q, a) && a != Wake && !a.SetPolicy?
    ensures if a.Adjust? then Served(Next(q, a)) else Serving(Next(q, a))
  {
    hide OwnedOnce, InOrder, AdjustEmpty;
    if a.Adjust? {
      ServingEnds(q);
    }
  }

  /** Without any buffer the end of a read makes one. */
  lemma ServingEnds<E>(q: Queue<E>)
    requires Safe(q) && Live(q) && Serving(q) && Enabled(q, Adjust)
    ensures Served(Next(q, Adjust))
  {
    BuffersAddUp(q);
    AdjustLive(q.pool, q.policy, q.reader.seen);
    AdjustStepLive(q);
    hide OwnedOnce, InOrder, AdjustEmpty;
  }

  lemma {:induction false} ServedStays<E>(q: Queue<E>, actions: seq<Action<E>>)
    requires Safe(q) && Served(q) && Possible(q, actions) && Unattended(actions)
    ensures Served(Run(q, actions))
    decreases |actions|
  {
    hide Safe, Served, Next, Enabled, Unattended;
    if actions != [] {
      UnattendedRest(actions);
      StepSafe(q, actions[0]);
      ServedStep(q, actions[0]);
      ServedStays(Next(q, actions[0]), actions[1..]);
    }
  }

  lemma {:induction false} ReadServes<E>(q: Queue<E>, actions: seq<Action<E>>, end: nat)
    requires Safe(q) && Live(q) && Serving(q) && Possible(q, actions) && Unattended(actions)
    requires end < |actions| && actions[end] == Adjust
    ensures Served(Run(q, actions))
    decreases end
  {
    hide Safe, Live, Served, Serving, Next, Enabled, Unattended;
    UnattendedRest(actions);
    StepSafe(q, actions[0]);
    StepLive(q, actions[0]);
    ServingStep(q, actions[0]);
    if actions[0].Adjust? {
      ServedStays(Next(q, actions[0]), actions[1..]);
    } else {
      ReadServes(Next(q, actions[0]), actions[1..], end - 1);
    }
  }

  lemma WaitsOn<E>(q: Queue<E>, a: Action<E>)
    requires q.producer == Waiting && Safe(q) && Enabled(q, a) && a != Wake
    ensures Next(q, a).producer == Waiting
    ensures a == BeginRead ==> Serving(Next(q, a))
  {
    hide OwnedOnce, InOrder, AdjustEmpty;
  }

  lemma {:induction false} CompleteReadServes<E>(q: Queue<E>, actions: seq<Action<E>>, begin: nat, end: nat)
    requires Safe(q) && Live(q) && q.producer == Waiting && Possible(q, actions) && Unattended(actions)
    requires begin < end < |actions| && actions[begin] == BeginRead && actions[end] == Adjust
    ensures Served(Run(q, actions))
    decreases begin
  {
    hide Safe, Live, Served, Serving, Next, Enabled, Unattended;
    UnattendedRest(actions);
    StepSafe(q, actions[0]);
    StepLive(q, actions[0]);
    WaitsOn(q, actions[0]);
    if begin == 0 {
      ReadServes(Next(q, actions[0]), actions[1..], end - 1);
    } else {
      CompleteReadServes(Next(q, actions[0]), actions[1..], begin - 1, end - 1);
    }
  }

  /**
    Whatever run it is in, one complete read while the producer is blocked is enough: the producer has come out of
    waiting, or the event is set for it and there is an empty buffer to take.
  */
  lemma CompleteReadWakes<E>(q: Queue<E>, actions: seq<Action<E>>, begin: nat, end: nat)
    requires Safe(q) && Live(q) && q.producer == Waiting && Possible(q, actions)
    requires forall a :: a in actions ==> !a.SetPolicy?
    requires begin < end < |actions| && actions[begin] == BeginRead && actions[end] == Adjust
    ensures Wake in actions
         || (Run(q, actions).producer == Waiting && Run(q, actions).event && Run(q, actions).pool.top > 0)
  {
    hide Safe, Live, Next, Enabled, Possible, Run;
    if Wake !in actions {
      CompleteReadServes(q, actions, begin, end);
    }
  }

  // ---- A wake-up that is lost ----

  /** An empty buffer is there, and the producer waits for a signal nobody is going to send. */
  predicate Stuck<E>(q: Queue<E>) {
    q.producer == Waiting && !q.event && !q.reader.Notifying? && q.pool.top > 0
  }

  lemma StuckStays<E>(q: Queue<E>, a: Action<E>)
    requires Safe(q) && Stuck(q) && Enabled(q, a) && !a.SetPolicy?
    ensures Stuck(Next(q, a))
  {
    hide OwnedOnce, InOrder, AdjustEmpty;
    if a.Adjust? {
      AdjustStepLive(q);
    }
  }

  lemma {:induction false} StuckForever<E>(q: Queue<E>, actions: seq<Action<E>>)
    requires Safe(q) && Stuck(q) && Possible(q, actions) && forall a :: a in actions ==> !a.SetPolicy?
    ensures Stuck(Run(q, actions))
    decreases |actions|
  {
    hide Safe, Stuck, Next, Enabled;
    if actions != [] {
      StepSafe(q, actions[0]);
      StuckStays(q, actions[0]);
      StuckForever(Next(q, actions[0]), actions[1..]);
    }
  }

  /** However often the queue is read afterwards, the producer does not come back. */
  lemma LostWakeUpIsForever<E>(q: Queue<E>, policy: Policy, actions: seq<Action<E>>)
    requires Safe(q) && Live(q) && Enabled(q, SetPolicy(policy)) && LosesWakeUp(q, policy)
    requires Possible(Next(q, SetPolicy(policy)), actions) && forall a :: a in actions ==> !a.SetPolicy?
    ensures Stuck(Run(Next(q, SetPolicy(policy)), actions))
  {
    hide AdjustEmpty, InOrder, OwnedOnce;
    SetPolicyLive(q, policy);
    StepSafe(q, SetPolicy(policy));
    StuckForever(Next(q, SetPolicy(policy)), actions);
  }

  /** One record, a flush that finds no empty buffer, and a policy that asks for one more. */
  lemma WakeUpGetsLost<E>(record: E)
    ensures var first, second := Policy(2, 1, 0), Policy(2, 1, 1);
      var actions := [Push(record)] + ([Publish] + ([Look] + []));
      && first.Valid() && second.Valid() && Possible(Start(first), actions)
      && Enabled(Run(Start(first), actions), SetPolicy(second)) && LosesWakeUp(Run(Start(first), actions), second)
  {
    var first := Policy(2, 1, 0);
    var q: Queue<E> := Start(first);
    AdjustFits<E>(Pool(EmptySlots(2), 0, 1, 1), first, 0);
    var q1 := Next(q, Push(record));
    var q2 := Next(q1, Publish);
    hide AdjustEmpty;
    Unfold(q2, Look, []);
    Unfold(q1, Publish, [Look] + []);
    Unfold(q, Push(record), [Publish] + ([Look] + []));
  }

  /**
    A queue made for one buffer, which is being filled: a policy of three with two empty ones has nowhere to put the
    second.
  */
  lemma SlotsRunOut<E>()
    ensures var first, second := Policy(1, 1, 0), Policy(3, 2, 2);
      && first.Valid() && second.Valid() && Safe(Start<E>(first))
      && !SlotsSuffice(Start<E>(first).pool, second)
  {
    var first, second := Policy(1, 1, 0), Policy(3, 2, 2);
    var q: Queue<E> := Start(first);
    StartSafe<E>(first);
    AdjustFits<E>(Pool(EmptySlots(1), 0, 1, 1), first, 0);
    hide AdjustEmpty, PoolOwns;
    SlotsSufficeWithin(q.pool, second);
  }

  lemma ReadsOne<E>(q: Queue<E>)
    requires q.reader == Idle && |q.ready| == 1 && q.hand.None? && q.policy.maxBuffers >= 1
    requires 0 < q.pool.top < |q.pool.slots|
    ensures var actions := [BeginRead] + ([Consume] + ([Deliver] + ([Return] + [])));
      && Possible(q, actions)
      && var last := Run(q, actions);
         last.pool.top == q.pool.top + 1 && last.pool.buffers == q.pool.buffers && |last.pool.slots| == |q.pool.slots|
  {
    var q1 := Next(q, BeginRead);
    var q2 := Next(q1, Consume);
    var q3 := Next(q2, Deliver);
    Unfold(q3, Return, []);
    Unfold(q2, Deliver, [Return] + []);
    Unfold(q1, Consume, [Deliver] + ([Return] + []));
    Unfold(q, BeginRead, [Consume] + ([Deliver] + ([Return] + [])));
  }

  /** One record written and read back while the producer has no buffer: no buffer is left by the next policy. */
  lemma LastBufferGetsFreed<E>(record: E)
    ensures var policy := Policy(2, 1, 1);
      var actions := [Push(record)] + ([Publish] + ([BeginRead] + ([Consume] + ([Deliver] + ([Return] + [])))));
      && policy.Valid() && Possible(Start(policy), actions)
      && Enabled(Run(Start(policy), actions), SetPolicy(policy)) && FreesLast(Run(Start(policy), actions), policy)
  {
    var policy := Policy(2, 1, 1);
    var q: Queue<E> := Start(policy);
    AdjustFits<E>(Pool(EmptySlots(2), 0, 1, 1), policy, 0);
    hide AdjustEmpty;
    var q1 := Next(q, Push(record));
    var q2 := Next(q1, Publish);
    ReadsOne(q2);
    var reading := [BeginRead] + ([Consume] + ([Deliver] + ([Return] + [])));
    Unfold(q1, Publish, reading);
    Unfold(q, Push(record), [Publish] + reading);
  }

  // ---- What a read adjusts by ----

  /** A step in which the reader takes a ready buffer. */
  predicate Takes<E>(q: Queue<E>, a: Action<E>)
    requires Enabled(q, a)
  {
    a.Consume? && |Next(q, a).ready| < |q.ready|
  }

  /** How many buffers were ready whenever one was taken. */
  ghost function ReadyWhenTaken<E>(q: Queue<E>, actions: seq<Action<E>>): seq<nat>
    requires Possible(q, actions)
    decreases |actions|
  {
    if actions == [] then [] else
    (if Takes(q, actions[0]) then [|q.ready|] else []) + ReadyWhenTaken(Next(q, actions[0]), actions[1..])
  }

  ghost predicate IsGreatest(n: nat, of: seq<nat>) {
    (if of == [] then n == 0 else n in of) && forall i :: 0 <= i < |of| ==> of[i] <= n
  }

  /** Within a read no other begins. */
  predicate NoneBegins<E>(actions: seq<Action<E>>) {
    forall i :: 0 <= i < |actions| ==> !actions[i].BeginRead?
  }

  /** Any step of a read keeps what it has seen, but that a buffer is taken. */
  lemma StepSees<E>(q: Queue<E>, a: Action<E>)
    requires Enabled(q, a) && !q.reader.Idle? && !Next(q, a).reader.Idle?
    ensures Next(q, a).reader.seen == if Takes(q, a) then AtLeast(|q.ready|, q.reader.seen) else q.reader.seen
  {
    hide AdjustEmpty;
  }

  lemma StepsOfRead<E>(q: Queue<E>, a: Action<E>)
    requires Enabled(q, a) && !a.BeginRead? && q.reader.Idle?
    ensures Next(q, a).reader.Idle?
  {
    hide AdjustEmpty;
  }

  lemma {:induction false} StaysIdle<E>(q: Queue<E>, actions: seq<Action<E>>)
    requires Possible(q, actions) && NoneBegins(actions) && q.reader.Idle?
    ensures Run(q, actions).reader.Idle?
    decreases |actions|
  {
    hide Next, Enabled;
    if actions != [] {
      StepsOfRead(q, actions[0]);
      assert forall i :: 0 <= i < |actions[1..]| ==> actions[1..][i] == actions[i + 1];
      StaysIdle(Next(q, actions[0]), actions[1..]);
    }
  }

  lemma {:induction false} ReadSees<E>(q: Queue<E>, actions: seq<Action<E>>, before: seq<nat>)
    requires Possible(q, actions) && NoneBegins(actions)
    requires !q.reader.Idle? && IsGreatest(q.reader.seen, before)
    ensures !Run(q, actions).reader.Idle? ==>
      IsGreatest(Run(q, actions).reader.seen, before + ReadyWhenTaken(q, actions))
    decreases |actions|
  {
    hide Next, Enabled, Takes;
    if actions == [] {
      assert before + [] == before;
    } else {
      var next := Next(q, actions[0]);
      assert forall i :: 0 <= i < |actions[1..]| ==> actions[1..][i] == actions[i + 1];
      if next.reader.Idle? {
        StaysIdle(next, actions[1..]);
      } else {
        StepSees(q, actions[0]);
        var more := if Takes(q, actions[0]) then [|q.ready|] else [];
        SeenGrows(q.reader.seen, before, |q.ready|);
        assert before + [] == before;
        ReadSees(next, actions[1..], before + more);
        assert before + more + ReadyWhenTaken(next, actions[1..]) == before + ReadyWhenTaken(q, actions);
      }
    }
  }

  lemma SeenGrows(seen: nat, before: seq<nat>, n: nat)
    requires IsGreatest(seen, before)
    ensures IsGreatest(AtLeast(n, seen), before + [n])
  {
    assert (before + [n])[|before|] == n;
  }

  /**
    Whatever happens in between, a read ends with the number of empty buffers adjusted by the greatest number of buffers
    that were ready at any moment this read took one; by none if it took none.
  */
  lemma ReadAdjusts<E>(q: Queue<E>, read: seq<Action<E>>) returns (base: nat)
    requires Possible(q, [BeginRead] + read) && NoneBegins(read)
    requires Run(q, [BeginRead] + read).reader.Adjusting?
    ensures IsGreatest(base, ReadyWhenTaken(q, [BeginRead] + read))
    ensures var last := Run(q, [BeginRead] + read);
      Enabled(last, Adjust) ==> Next(last, Adjust).pool == AdjustEmpty(last.pool, last.policy, base)
  {
    hide AdjustEmpty;
    assert ([BeginRead] + read)[1..] == read;
    ReadSees(Next(q, BeginRead), read, []);
    assert [] + ReadyWhenTaken(Next(q, BeginRead), read) == ReadyWhenTaken(q, [BeginRead] + read);
    base := Run(q, [BeginRead] + read).reader.seen;
  }
}
