/**
  The buffers queue as an object: each method is one atomic step of one of the
  sides, and does to the object what the protocol does to its state.
*/
module SharedBuffers {
  import opened Wrappers
  import opened BuffersQueues
  import opened HandOver

  lemma NothingDone<E>(ready: seq<Buffer<E>>)
    ensures [] + ready == ready && Flatten<E>([]) == []
  {
  }

  lemma OneMoreDone<E>(all: seq<Buffer<E>>, done: seq<Buffer<E>>, rest: seq<Buffer<E>>, before: seq<E>)
    requires all == done + rest && rest != []
    ensures all == (done + [rest[0]]) + rest[1..]
    ensures before + Flatten(done) + rest[0].records == before + Flatten(done + [rest[0]])
  {
    hide *;
    FlattenAppend(done, rest[0]);
  }

  /**
    How many empty buffers there are after a read and how many buffers in all: of the empty ones, those above the high
    mark are freed, and then ones are made up to the low mark, as long as there are less in all than allowed. Both
    marks go up by the base.
  */
  predicate Adjusted(top: nat, buffers: int, policy: Policy, base: nat, top': nat, buffers': int) {
    var kept := AtMost(top, policy.maxEmpty + base);
    var left := buffers - (top - kept);
    var room := if left < policy.maxBuffers then policy.maxBuffers - left else 0;
    && top' == AtLeast(AtMost(policy.minEmpty + base, kept + room), kept)
    && buffers' == buffers - top + top'
  }

  /** The marks do not wrap around: there are too few slots for that. */
  lemma AdjustedBy<E>(pool: Pool<E>, policy: Policy, base: nat)
    requires Adjustable(pool, policy) && policy.Valid() && base <= |pool.slots| < SLOTS_LIMIT
    ensures var after := AdjustEmpty(pool, policy, base);
      Adjusted(pool.top, pool.buffers, policy, base, after.top, after.buffers)
  {
    hide AdjustEmpty;
    AdjustFits(pool, policy, base);
    Wraps(policy.maxEmpty + base);
    Wraps(policy.minEmpty + base);
  }

  lemma SlotsKnown<E>(q: Queue<E>)
    requires Safe(q)
    ensures q.pool.top <= q.pool.buffers <= |q.pool.slots| < SLOTS_LIMIT && q.policy.Valid()
    ensures q.reader.Idle? || q.reader.seen <= |q.pool.slots|
    ensures Adjustable(q.pool, q.policy)
  {
    PoolCount(q.pool.slots, q.pool.top);
  }

  lemma PolicyAdjusts<E>(pool: Pool<E>, policy: Policy, q: Queue<E>)
    requires Safe(q) && q.pool == pool && policy.Valid() && Adjustable(pool, policy)
    ensures pool.top < pool.buffers ==>
      var after := AdjustEmpty(pool, policy, BaseOf(pool));
      Adjusted(pool.top, pool.buffers, policy, pool.buffers - pool.top - 1, after.top, after.buffers)
  {
    SlotsKnown(q);
    hide AdjustEmpty, Safe;
    if pool.top < pool.buffers {
      Wraps(pool.buffers - pool.top - 1);
      AdjustedBy(pool, policy, pool.buffers - pool.top - 1);
    }
  }

  /** A record is pushed, and the buffer flushed when that was its last place. */
  ghost function AfterPush<E>(q: Queue<E>, record: E): Queue<E>
    requires Safe(q) && q.producer == Filling && q.nLeft > 0
  {
    StepSafe(q, Push(record));
    var pushed := Next(q, Push(record));
    if q.nLeft > 1 then pushed else
    StepSafe(pushed, Publish);
    StepsAreDefined(Next(pushed, Publish));
    Next(Next(pushed, Publish), Look)
  }

  class BuffersQueue<E> {
    var active: Option<Buffer<E>>
    var nLeft: nat
    var ready: seq<Buffer<E>>
    const slots: array<Option<Buffer<E>>>
    var top: nat
    var allocatedBuffers: nat
    var created: nat
    var policy: Policy
    var signalled: bool
    var hand: Option<Buffer<E>>

    // Where the two sides are, and what they have seen.
    ghost var producer: Producer
    ghost var reader: Reader
    ghost var pushed: seq<E>
    ghost var delivered: seq<E>

    ghost function EmptyBuffers(): Pool<E>
      reads this, slots
    {
      Pool(slots[..], top, allocatedBuffers, created)
    }

    ghost function State(): Queue<E>
      reads this, slots
    {
      Queue(active, nLeft, ready, EmptyBuffers(), policy, signalled, producer, reader, hand, pushed, delivered)
    }

    constructor (policy: Policy)
      requires policy.Valid()
      ensures State() == Start(policy) && fresh(slots)
    {
      active, nLeft, ready, top, allocatedBuffers, created := Some(Buffer(0, [])), BUFFER_SIZE, [], 0, 1, 1;
      this.policy, signalled, hand := policy, false, None;
      producer, reader, pushed, delivered := Filling, Idle, [], [];
      slots := new Option<Buffer<E>>[policy.maxBuffers](_ => None);
      new;
      assert EmptyBuffers() == Pool(EmptySlots(policy.maxBuffers), 0, 1, 1);
      AdjustEmptyBuffers(policy, 0);
    }

    method AdjustEmptyBuffers(policy: Policy, base: nat)
      requires Adjustable(EmptyBuffers(), policy)
      modifies this`top, this`allocatedBuffers, this`created, slots
      ensures EmptyBuffers() == AdjustEmpty(old(EmptyBuffers()), policy, base)
    {
      var highWater, lowWater := (policy.maxEmpty + base) % SIZE_RANGE, (policy.minEmpty + base) % SIZE_RANGE;
      TrimEmptyBuffers(highWater);
      hide Trim;
      ghost var grown := Grow(EmptyBuffers(), policy.maxBuffers, lowWater);
      while allocatedBuffers < policy.maxBuffers && top < lowWater
        invariant top <= allocatedBuffers
        invariant Grow(EmptyBuffers(), policy.maxBuffers, lowWater) == grown
        decreases policy.maxBuffers - allocatedBuffers
      {
        slots[top] := Some(Buffer(created, []));
        top, allocatedBuffers, created := top + 1, allocatedBuffers + 1, created + 1;
      }
    }

    method TrimEmptyBuffers(highWater: nat)
      requires top <= allocatedBuffers && top <= slots.Length
      modifies this`top, this`allocatedBuffers, slots
      ensures EmptyBuffers() == Trim(old(EmptyBuffers()), highWater) && top <= allocatedBuffers && top <= slots.Length
    {
      ghost var trimmed := Trim(EmptyBuffers(), highWater);
      while top > highWater
        invariant top <= allocatedBuffers && top <= slots.Length
        invariant Trim(EmptyBuffers(), highWater) == trimmed
      {
        slots[top - 1] := None;
        top, allocatedBuffers := top - 1, allocatedBuffers - 1;
      }
    }

    // ---- The producer ----

    /** Writes a record to the current place and moves on. */
    method Write(record: E)
      requires Enabled(State(), Action.Push(record))
      modifies this`active, this`nLeft, this`pushed
      ensures State() == Next(old(State()), Action.Push(record))
    {
      active := Some(active.value.(records := active.value.records + [record]));
      nLeft := nLeft - 1;
      pushed := pushed + [record];
    }

    /** The buffer being filled becomes the last ready one. */
    method Publish()
      requires Enabled(State(), Action.Publish)
      modifies this`active, this`ready, this`producer
      ensures State() == Next(old(State()), Action.Publish)
    {
      ready := ready + [active.value];
      active := None;
      producer := Looking;
    }

    /** Takes an empty buffer, if there is one, to fill it. */
    method TryStart() returns (started: bool)
      requires Safe(State()) && producer == Looking
      modifies this`active, this`nLeft, this`top, this`producer, slots
      ensures Enabled(old(State()), Look) && State() == Next(old(State()), Look)
      ensures started <==> producer == Filling
    {
      hide OwnedOnce, InOrder;
      StepsAreDefined(State());
      started := top > 0;
      if started {
        active := Some(slots[top - 1].value.(records := []));
        nLeft := BUFFER_SIZE;
        slots[top - 1] := None;
        top := top - 1;
        producer := Filling;
      } else {
        producer := Waiting;
      }
    }

    /** Comes out of waiting: the event resets itself. */
    method ComeBack()
      requires Enabled(State(), Wake)
      modifies this`signalled, this`producer
      ensures State() == Next(old(State()), Wake)
    {
      signalled := false;
      producer := Looking;
    }

    /** When that was the last place, the buffer is flushed; the producer may then have to wait. */
    method Push(record: E) returns (blocked: bool)
      requires Safe(State()) && producer == Filling && nLeft > 0
      modifies this`active, this`nLeft, this`ready, this`top, this`producer, this`pushed, slots
      ensures Safe(State()) && pushed == old(pushed) + [record] && delivered == old(delivered)
      ensures blocked <==> old(nLeft) == 1 && old(top) == 0
      ensures if blocked then producer == Waiting else producer == Filling && nLeft > 0
      ensures State() == AfterPush(old(State()), record)
    {
      hide OwnedOnce, InOrder;
      StepSafe(State(), Action.Push(record));
      Write(record);
      blocked := false;
      if nLeft == 0 {
        blocked := Flush();
      }
    }

    /** What there is in the buffer is handed over, full or not. */
    method Flush() returns (blocked: bool)
      requires Safe(State()) && producer == Filling
      modifies this`active, this`nLeft, this`ready, this`top, this`producer, slots
      ensures Safe(State()) && Enabled(Next(old(State()), Action.Publish), Look)
      ensures State() == Next(Next(old(State()), Action.Publish), Look)
      ensures blocked <==> producer != Filling
    {
      hide OwnedOnce, InOrder;
      StepSafe(State(), Action.Publish);
      Publish();
      StepsAreDefined(State());
      StepSafe(State(), Look);
      var started := TryStart();
      blocked := !started;
    }

    // ---- The reader ----

    method TakeReady(left: nat, seen: nat) returns (taken: bool, moreSeen: nat)
      requires reader == Consuming(left, seen)
      modifies this`ready, this`hand, this`reader
      ensures State() == Next(old(State()), Consume)
      ensures taken <==> reader.Holding?
      ensures taken ==> reader == Holding(left - 1, moreSeen) && moreSeen == AtLeast(|old(ready)|, seen)
      ensures !taken ==> reader == Adjusting(moreSeen) && moreSeen == seen
    {
      moreSeen := seen;
      taken := left > 0 && ready != [];
      if taken {
        moreSeen := if |ready| > seen then |ready| else seen;
        hand, ready := Some(ready[0]), ready[1..];
        reader := Holding(left - 1, moreSeen);
      } else {
        reader := Adjusting(seen);
      }
    }

    /** Gives the buffer in hand back; the event is set when there was no empty one. */
    method GiveBack() returns (notify: bool)
      requires Enabled(State(), Return)
      modifies this`hand, this`top, this`reader, slots
      ensures State() == Next(old(State()), Return)
      ensures notify <==> reader.Notifying?
    {
      notify := top == 0;
      slots[top] := hand;
      top, hand := top + 1, None;
      reader := if notify then Notifying(reader.left, reader.seen) else Consuming(reader.left, reader.seen);
    }

    method FinishReading(seen: nat)
      requires Enabled(State(), Adjust) && reader == Adjusting(seen)
      modifies this`top, this`allocatedBuffers, this`created, this`signalled, this`reader, slots
      ensures State() == Next(old(State()), Adjust)
    {
      hide AdjustEmpty;
      var notify := top == 0;
      AdjustEmptyBuffers(policy, seen);
      if notify {
        signalled := true;
      }
      reader := Idle;
    }

    /** The records of the buffer in hand go to the reader's callback. */
    method Deliver() returns (records: seq<E>)
      requires Enabled(State(), Action.Deliver)
      modifies this`delivered, this`reader
      ensures State() == Next(old(State()), Action.Deliver) && records == hand.value.records
    {
      records := hand.value.records;
      delivered := delivered + records;
      reader := Delivered(reader.left, reader.seen);
    }

    method Signal()
      requires Enabled(State(), Notify)
      modifies this`signalled, this`reader
      ensures State() == Next(old(State()), Notify)
    {
      signalled := true;
      reader := Consuming(reader.left, reader.seen);
    }

    method PassOn() returns (ghost actions: seq<Action<E>>)
      requires Safe(State()) && reader.Holding?
      modifies this`delivered, this`reader, this`hand, this`top, this`signalled, slots
      ensures Safe(State()) && Possible(old(State()), actions) && State() == Run(old(State()), actions)
      ensures reader == Consuming(old(reader).left, old(reader).seen)
      ensures delivered == old(delivered) + old(hand).value.records
      ensures top == old(top) + 1 && signalled == (old(signalled) || old(top) == 0)
    {
      hide OwnedOnce, InOrder, Possible, Run;
      ghost var start := State();
      StepsAreDefined(start);
      RunOne(start, Action.Deliver);
      StepSafe(start, Action.Deliver);
      var _ := Deliver();
      ghost var next := State();
      StepsAreDefined(next);
      RunOne(next, Return);
      StepSafe(next, Return);
      RunOn(start, [Action.Deliver], [Return]);
      actions := [Action.Deliver] + [Return];
      var notify := GiveBack();
      if notify {
        ghost var last := State();
        RunOne(last, Notify);
        StepSafe(last, Notify);
        RunOn(start, actions, [Notify]);
        actions := actions + [Notify];
        Signal();
      }
    }

    method StartRead() returns (left: nat, ghost actions: seq<Action<E>>)
      requires Safe(State()) && reader == Idle
      modifies this`reader
      ensures Safe(State()) && Possible(old(State()), actions) && State() == Run(old(State()), actions)
      ensures reader == Consuming(left, 0) && left == policy.maxBuffers
    {
      hide OwnedOnce, InOrder, Possible, Run;
      ghost var start := State();
      RunOne(start, BeginRead);
      StepSafe(start, BeginRead);
      left := policy.maxBuffers;
      reader := Consuming(left, 0);
      actions := [BeginRead];
    }

    method ReadOne(left: nat, seen: nat) returns (moreSeen: nat, ghost actions: seq<Action<E>>)
      requires Safe(State()) && reader == Consuming(left, seen) && left > 0 && ready != []
      modifies this`ready, this`delivered, this`reader, this`hand, this`top, this`signalled, slots
      ensures Safe(State()) && Possible(old(State()), actions) && State() == Run(old(State()), actions)
      ensures reader == Consuming(left - 1, moreSeen) && moreSeen == AtLeast(|old(ready)|, seen)
      ensures ready == old(ready)[1..] && delivered == old(delivered) + old(ready)[0].records
      ensures top == old(top) + 1 && signalled == (old(signalled) || old(top) == 0)
    {
      hide OwnedOnce, InOrder, Possible, Run;
      ghost var start := State();
      RunOne(start, Consume);
      StepSafe(start, Consume);
      var taken;
      taken, moreSeen := TakeReady(left, seen);
      ghost var more := PassOn();
      RunOn(start, [Consume], more);
      actions := [Consume] + more;
    }

    method EndRead(left: nat, seen: nat) returns (ghost actions: seq<Action<E>>)
      requires Safe(State()) && reader == Consuming(left, seen) && (left == 0 || ready == [])
      modifies this`hand, this`ready, this`top, this`allocatedBuffers, this`created, this`signalled, this`reader, slots
      ensures Safe(State()) && Possible(old(State()), actions) && State() == Run(old(State()), actions)
      ensures reader == Idle && ready == old(ready) && signalled == (old(signalled) || old(top) == 0)
      ensures Adjusted(old(top), old(allocatedBuffers), policy, seen, top, allocatedBuffers)
    {
      hide OwnedOnce, InOrder, Possible, Run, AdjustEmpty;
      ghost var start := State();
      SlotsKnown(start);
      AdjustedBy(start.pool, policy, seen);
      RunOne(start, Consume);
      StepSafe(start, Consume);
      var taken, last := TakeReady(left, seen);
      ghost var next := State();
      StepsAreDefined(next);
      RunOne(next, Adjust);
      StepSafe(next, Adjust);
      RunOn(start, [Consume], [Adjust]);
      actions := [Consume] + [Adjust];
      FinishReading(last);
    }

    lemma PolicyKnown()
      requires Safe(State())
      ensures policy.Valid()
    {
    }

    /**
      A read nobody interferes with is a run of the reader. It delivers, in order, what was ready when it
      began, up to as many buffers as the policy allows, and signals just if there had been no empty buffer; it ends
      with as many empty buffers as the policy's marks say, which go up by the number of buffers that were ready.
    */
    method ReadCollected() returns (ghost actions: seq<Action<E>>)
      requires Safe(State()) && reader == Idle
      modifies this`ready, this`delivered, this`reader, this`hand, this`top, this`allocatedBuffers, this`created,
               this`signalled, slots
      ensures Possible(old(State()), actions) && State() == Run(old(State()), actions)
      ensures reader == Idle && Safe(State())
      ensures var n := AtMost(|old(ready)|, old(policy).maxBuffers);
        ready == old(ready)[n..] && delivered == old(delivered) + Flatten(old(ready)[..n])
      ensures signalled == (old(signalled) || old(top) == 0)
      ensures var n := AtMost(|old(ready)|, old(policy).maxBuffers);
        Adjusted(old(top) + n, old(allocatedBuffers), policy, |old(ready)|, top, allocatedBuffers)
    {
      hide Safe, Adjusted, Possible, Run, Flatten, Next, Enabled, BuffersQueue.State, BuffersQueue.EmptyBuffers;
      ghost var start := State();
      PolicyKnown();
      var n, seen;
      n, actions := StartRead();
      seen := 0;
      ghost var done: seq<Buffer<E>> := [];
      NothingDone(ready);
      while n > 0 && ready != []
        invariant Safe(State()) && reader == Consuming(n, seen)
        invariant Possible(start, actions) && State() == Run(start, actions)
        invariant n == policy.maxBuffers - |done| && old(ready) == done + ready
        invariant delivered == old(delivered) + Flatten(done)
        invariant allocatedBuffers == old(allocatedBuffers)
        invariant top == old(top) + |done| && seen == if done == [] then 0 else |old(ready)|
        invariant signalled == (old(signalled) || (old(top) == 0 && done != []))
      {
        OneMoreDone(old(ready), done, ready, old(delivered));
        done := done + [ready[0]];
        ghost var more;
        seen, more := ReadOne(n, seen);
        RunOn(start, actions, more);
        actions := actions + more;
        n := n - 1;
      }
      assert done == old(ready)[..|done|] && ready == old(ready)[|done|..];
      ghost var more := EndRead(n, seen);
      RunOn(start, actions, more);
      actions := actions + more;
    }

    method SetBufferingPolicy(policy: Policy)
      requires Safe(State()) && Enabled(State(), SetPolicy(policy))
      modifies this`top, this`allocatedBuffers, this`created, this`policy, slots
      ensures State() == Next(old(State()), SetPolicy(policy))
      ensures old(top < allocatedBuffers) ==>
        Adjusted(old(top), old(allocatedBuffers), policy, old(allocatedBuffers - top - 1), top, allocatedBuffers)
    {
      hide AdjustEmpty, Adjusted, OwnedOnce, InOrder;
      PolicyAdjusts(EmptyBuffers(), policy, State());
      AdjustEmptyBuffers(policy, (allocatedBuffers - top - 1) % SIZE_RANGE);
      this.policy := policy;
    }
  }
}
