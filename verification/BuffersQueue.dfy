/**
  How records get from a profiled thread to the analyzer: the thread fills one
  buffer at a time, the reader takes full ones and gives empty ones back. The
  two run concurrently; whatever is done under the mutex, or by a single call
  into the ready queue or the event, is one atomic step here.
*/
module BuffersQueues {
  import opened Wrappers

  const BUFFER_SIZE: nat := 384
  const SIZE_RANGE: nat := 0x1_0000_0000_0000_0000
  /** An array of owning pointers, sixteen bytes each, has fewer elements than this. */
  const SLOTS_LIMIT: nat := 0x1000_0000_0000_0000

  // ---- Policies ----

  datatype Policy = Policy(maxBuffers: nat, maxEmpty: nat, minEmpty: nat) {
    predicate Valid() {
      1 <= maxBuffers && 1 <= maxEmpty <= maxBuffers && minEmpty < maxBuffers && minEmpty <= maxEmpty
    }
  }

  function AtLeast(n: nat, low: nat): nat {
    if n < low then low else n
  }

  function AtMost(n: nat, high: nat): nat {
    if n > high then high else n
  }

  /** The whole number of buffers next below a share of them, brought within bounds. */
  ghost predicate IsMark(mark: nat, factor: real, buffers: nat, low: nat, high: nat) {
    && low <= mark <= high
    && (mark > low ==> mark as real <= factor * buffers as real)
    && (mark < high ==> factor * buffers as real < mark as real + 1.0)
  }

  /** No policy is made from factors that are out of range or out of order. */
  function MakePolicy(maxAllocation: nat, maxEmptyFactor: real, minEmptyFactor: real): (policy: Option<Policy>)
    requires maxAllocation < SIZE_RANGE
    ensures policy.Some? <==> 0.0 <= minEmptyFactor <= maxEmptyFactor <= 1.0
    ensures policy.Some? ==> policy.value.Valid()
    ensures policy.Some? && maxAllocation > 0 ==>
      (policy.value.maxBuffers - 1) * BUFFER_SIZE < maxAllocation <= policy.value.maxBuffers * BUFFER_SIZE
    ensures policy.Some? && maxAllocation == 0 ==> policy.value.maxBuffers == 1
    ensures policy.Some? ==>
      && IsMark(policy.value.maxEmpty, maxEmptyFactor, policy.value.maxBuffers, 1, policy.value.maxBuffers)
      && IsMark(policy.value.minEmpty, minEmptyFactor, policy.value.maxBuffers, 0, policy.value.maxBuffers - 1)
  {
    var maxBuffers := AtLeast(maxAllocation / BUFFER_SIZE + if maxAllocation % BUFFER_SIZE != 0 then 1 else 0, 1);
    if maxEmptyFactor < 0.0 || maxEmptyFactor > 1.0 || minEmptyFactor < 0.0 || minEmptyFactor > 1.0
       || minEmptyFactor > maxEmptyFactor then None else
    ShareFloor(minEmptyFactor, maxEmptyFactor, maxBuffers);
    Some(Policy(maxBuffers,
                AtLeast((maxEmptyFactor * maxBuffers as real).Floor, 1),
                AtMost((minEmptyFactor * maxBuffers as real).Floor, maxBuffers - 1)))
  }

  lemma ShareFloor(low: real, high: real, n: nat)
    requires 0.0 <= low <= high <= 1.0
    ensures 0 <= (low * n as real).Floor <= (high * n as real).Floor <= n
  {
    assert 0.0 <= low * n as real <= high * n as real <= n as real;
  }

  // ---- The queue ----

  /** The records of a buffer are those written to it since it was started. */
  datatype Buffer<E> = Buffer(id: nat, records: seq<E>)

  /** The stack of empty buffers: slots at or above the top hold nothing. */
  datatype Pool<E> = Pool(slots: seq<Option<Buffer<E>>>, top: nat, buffers: nat, nextId: nat)

  /** Filling its buffer; or done with it and about to look for an empty one; or waiting for one. */
  datatype Producer = Filling | Looking | Waiting

  /**
    Outside of a read; about to consume, with so many buffers to go at most and that many seen ready;
    with a buffer in hand, before and after delivering it; about to set the event; about to adjust.
  */
  datatype Reader =
    | Idle
    | Consuming(left: nat, seen: nat)
    | Holding(left: nat, seen: nat)
    | Delivered(left: nat, seen: nat)
    | Notifying(left: nat, seen: nat)
    | Adjusting(seen: nat)

  datatype Queue<E> = Queue(
    active: Option<Buffer<E>>,
    nLeft: nat,
    ready: seq<Buffer<E>>,
    pool: Pool<E>,
    policy: Policy,
    event: bool,
    producer: Producer,
    reader: Reader,
    hand: Option<Buffer<E>>,
    pushed: seq<E>,
    delivered: seq<E>)

  datatype Action<E> =
    | Push(record: E)
    | Publish
    | Look
    | Wake
    | BeginRead
    | Consume
    | Deliver
    | Return
    | Notify
    | Adjust
    | SetPolicy(policy: Policy)

  predicate Enabled<E>(q: Queue<E>, a: Action<E>) {
    match a
    case Push(_) => q.producer == Filling && q.nLeft > 0 && q.active.Some?
    case Publish => q.producer == Filling && q.active.Some?
    case Look =>
      q.producer == Looking
      && (q.pool.top > 0 ==> q.pool.top <= |q.pool.slots| && q.pool.slots[q.pool.top - 1].Some?)
    case Wake => q.producer == Waiting && q.event
    case BeginRead => q.reader == Idle
    case Consume => q.reader.Consuming?
    case Deliver => q.reader.Holding? && q.hand.Some?
    case Return => q.reader.Delivered? && q.hand.Some? && q.pool.top < |q.pool.slots|
    case Notify => q.reader.Notifying?
    case Adjust => q.reader.Adjusting? && Adjustable(q.pool, q.policy)
    case SetPolicy(policy) => policy.Valid() && Adjustable(q.pool, policy)
  }

  // ---- Adjusting the number of empty buffers ----

  predicate Adjustable<E>(pool: Pool<E>, policy: Policy) {
    pool.top <= pool.buffers && pool.top <= |pool.slots| && policy.maxBuffers <= |pool.slots|
  }

  function Trim<E>(pool: Pool<E>, highWater: nat): Pool<E>
    requires pool.top <= pool.buffers && pool.top <= |pool.slots|
    decreases pool.top
  {
    if pool.top <= highWater then pool else
    Trim(pool.(slots := pool.slots[pool.top - 1 := None], top := pool.top - 1, buffers := pool.buffers - 1), highWater)
  }

  function Grow<E>(pool: Pool<E>, maxBuffers: nat, lowWater: nat): Pool<E>
    requires pool.top <= pool.buffers && maxBuffers <= |pool.slots|
    decreases maxBuffers - pool.buffers
  {
    if pool.buffers >= maxBuffers || pool.top >= lowWater then pool else
    Grow(CreateEmpty(pool), maxBuffers, lowWater)
  }

  function CreateEmpty<E>(pool: Pool<E>): Pool<E>
    requires pool.top < |pool.slots|
  {
    Pool(pool.slots[pool.top := Some(Buffer(pool.nextId, []))], pool.top + 1, pool.buffers + 1, pool.nextId + 1)
  }

  /** The limits are sums of machine words. */
  function AdjustEmpty<E>(pool: Pool<E>, policy: Policy, base: nat): Pool<E>
    requires Adjustable(pool, policy)
  {
    var highWater, lowWater := (policy.maxEmpty + base) % SIZE_RANGE, (policy.minEmpty + base) % SIZE_RANGE;
    TrimFits(pool, highWater);
    Grow(Trim(pool, highWater), policy.maxBuffers, lowWater)
  }

  lemma {:induction false} TrimFits<E>(pool: Pool<E>, highWater: nat)
    requires pool.top <= pool.buffers && pool.top <= |pool.slots|
    ensures var after := Trim(pool, highWater);
      && after.top == AtMost(pool.top, highWater) && after.top <= after.buffers
      && pool.buffers - after.buffers == pool.top - after.top
      && |after.slots| == |pool.slots| && after.nextId == pool.nextId
      && (forall i :: 0 <= i < after.top ==> after.slots[i] == pool.slots[i])
      && (forall i :: after.top <= i < pool.top ==> after.slots[i] == None)
      && (forall i :: pool.top <= i < |pool.slots| ==> after.slots[i] == pool.slots[i])
    decreases pool.top
  {
    if pool.top > highWater {
      var next := pool.(slots := pool.slots[pool.top - 1 := None], top := pool.top - 1, buffers := pool.buffers - 1);
      TrimFits(next, highWater);
    }
  }

  /** Buffers other than the empty ones and the active one, as a machine word. */
  function BaseOf<E>(pool: Pool<E>): nat
    requires pool.top <= pool.buffers
  {
    (pool.buffers - pool.top - 1) % SIZE_RANGE
  }

  // ---- Steps ----

  function Next<E>(q: Queue<E>, a: Action<E>): Queue<E>
    requires Enabled(q, a)
  {
    match a
    case Push(e) =>
      q.(active := Some(q.active.value.(records := q.active.value.records + [e])), nLeft := q.nLeft - 1,
        pushed := q.pushed + [e])
    case Publish =>
      q.(active := None, ready := q.ready + [q.active.value], producer := Looking)
    case Look =>
      var pool := q.pool;
      if pool.top == 0 then q.(producer := Waiting) else
      q.(active := Some(pool.slots[pool.top - 1].value.(records := [])), nLeft := BUFFER_SIZE,
         pool := pool.(slots := pool.slots[pool.top - 1 := None], top := pool.top - 1), producer := Filling)
    case Wake =>
      q.(event := false, producer := Looking)
    case BeginRead =>
      q.(reader := Consuming(q.policy.maxBuffers, 0))
    case Consume =>
      var left, seen := q.reader.left, q.reader.seen;
      if left == 0 || q.ready == [] then q.(reader := Adjusting(seen)) else
      q.(hand := Some(q.ready[0]), ready := q.ready[1..], reader := Holding(left - 1, AtLeast(|q.ready|, seen)))
    case Deliver =>
      q.(delivered := q.delivered + q.hand.value.records, reader := Delivered(q.reader.left, q.reader.seen))
    case Return =>
      var pool := q.pool;
      q.(pool := pool.(slots := pool.slots[pool.top := q.hand], top := pool.top + 1), hand := None,
         reader := if pool.top == 0 then Notifying(q.reader.left, q.reader.seen) else Consuming(q.reader.left,
           q.reader.seen))
    case Notify =>
      q.(event := true, reader := Consuming(q.reader.left, q.reader.seen))
    case Adjust =>
      q.(pool := AdjustEmpty(q.pool, q.policy, q.reader.seen), event := q.event || q.pool.top == 0, reader := Idle)
    case SetPolicy(policy) =>
      q.(pool := AdjustEmpty(q.pool, policy, BaseOf(q.pool)), policy := policy)
  }

  // ---- What every step keeps ----

  /** Slots below the top hold a buffer, the others hold none. */
  ghost predicate Stacked<E>(slots: seq<Option<Buffer<E>>>, top: nat) {
    && top <= |slots|
    && forall i :: 0 <= i < |slots| ==> (slots[i].Some? <==> i < top)
  }

  ghost function EmptyIds<E>(slots: seq<Option<Buffer<E>>>, top: nat): multiset<nat>
    requires top <= |slots| && forall i :: 0 <= i < top ==> slots[i].Some?
  {
    if top == 0 then multiset{} else EmptyIds(slots, top - 1) + multiset{slots[top - 1].value.id}
  }

  ghost function PoolIds<E>(slots: seq<Option<Buffer<E>>>, top: nat): multiset<nat>
    requires Stacked(slots, top)
  {
    EmptyIds(slots, top)
  }

  ghost function IdsOf<E>(buffers: seq<Buffer<E>>): multiset<nat> {
    if buffers == [] then multiset{} else multiset{buffers[0].id} + IdsOf(buffers[1..])
  }

  ghost function IdOf<E>(b: Option<Buffer<E>>): multiset<nat> {
    if b.None? then multiset{} else multiset{b.value.id}
  }

  ghost function RecordsOf<E>(b: Option<Buffer<E>>): seq<E> {
    if b.None? then [] else b.value.records
  }

  ghost function Flatten<E>(buffers: seq<Buffer<E>>): seq<E> {
    if buffers == [] then [] else buffers[0].records + Flatten(buffers[1..])
  }

  /** Buffers that are not empty ones, by who owns them. */
  ghost function UsedBy<E>(ready: seq<Buffer<E>>, active: Option<Buffer<E>>, hand: Option<Buffer<E>>): multiset<nat> {
    IdsOf(ready) + IdOf(active) + IdOf(hand)
  }

  ghost function InUse<E>(q: Queue<E>): multiset<nat> {
    UsedBy(q.ready, q.active, q.hand)
  }

  ghost predicate Distinct(ids: multiset<nat>, limit: nat) {
    forall id :: id in ids ==> ids[id] == 1 && id < limit
  }

  /** Together with the others, these are all the buffers there are, each in one place only. */
  ghost predicate PoolOwns<E>(pool: Pool<E>, others: multiset<nat>) {
    && Stacked(pool.slots, pool.top)
    && |PoolIds(pool.slots, pool.top) + others| == pool.buffers <= |pool.slots| < SLOTS_LIMIT
    && Distinct(PoolIds(pool.slots, pool.top) + others, pool.nextId)
  }

  /** Every buffer has exactly one owner, and none is unaccounted for. */
  ghost predicate OwnedOnce<E>(q: Queue<E>) {
    PoolOwns(q.pool, InUse(q))
  }

  ghost function InHand<E>(q: Queue<E>): seq<E> {
    if q.reader.Holding? then RecordsOf(q.hand) else []
  }

  /** Nothing is lost, repeated or reordered on the way. */
  ghost predicate InOrder<E>(q: Queue<E>) {
    q.pushed == q.delivered + InHand(q) + Flatten(q.ready) + RecordsOf(q.active)
  }

  predicate Placed<E>(q: Queue<E>) {
    && q.policy.Valid() && q.policy.maxBuffers <= |q.pool.slots|
    && (q.active.Some? <==> q.producer == Filling)
    && (q.active.Some? ==> q.nLeft + |q.active.value.records| == BUFFER_SIZE)
    && (q.hand.Some? <==> q.reader.Holding? || q.reader.Delivered?)
    && (q.reader.Idle? || q.reader.seen <= |q.pool.slots|)
  }

  ghost predicate Safe<E>(q: Queue<E>) {
    OwnedOnce(q) && InOrder(q) && Placed(q)
  }

  function Count<E>(b: Option<Buffer<E>>): nat {
    if b.None? then 0 else 1
  }

  // ---- The stack of empty buffers ----

  lemma {:induction false} EmptyIdsAgree<E>(slots: seq<Option<Buffer<E>>>, slots': seq<Option<Buffer<E>>>, top: nat)
    requires top <= |slots| && top <= |slots'|
    requires forall i :: 0 <= i < top ==> slots[i].Some? && slots'[i].Some? && slots[i].value.id == slots'[i].value.id
    ensures EmptyIds(slots, top) == EmptyIds(slots', top) && |EmptyIds(slots, top)| == top
  {
    if top > 0 {
      EmptyIdsAgree(slots, slots', top - 1);
    }
  }

  lemma PoolCount<E>(slots: seq<Option<Buffer<E>>>, top: nat)
    requires Stacked(slots, top)
    ensures top <= |slots| && |PoolIds(slots, top)| == top
  {
    EmptyIdsAgree(slots, slots, top);
  }

  lemma PoolPut<E>(slots: seq<Option<Buffer<E>>>, top: nat, b: Buffer<E>)
    requires Stacked(slots, top) && top < |slots|
    ensures var slots' := slots[top := Some(b)];
      Stacked(slots', top + 1) && PoolIds(slots', top + 1) == PoolIds(slots, top) + multiset{b.id}
  {
    EmptyIdsAgree(slots, slots[top := Some(b)], top);
  }

  lemma PoolTake<E>(slots: seq<Option<Buffer<E>>>, top: nat)
    requires Stacked(slots, top) && top > 0
    ensures var slots' := slots[top - 1 := None];
      && Stacked(slots', top - 1) && slots[top - 1].Some?
      && PoolIds(slots, top) == PoolIds(slots', top - 1) + multiset{slots[top - 1].value.id}
  {
    EmptyIdsAgree(slots, slots[top - 1 := None], top - 1);
  }

  lemma PartDistinct(ids: multiset<nat>, more: multiset<nat>, limit: nat)
    requires Distinct(ids + more, limit)
    ensures Distinct(ids, limit)
  {
    forall id | id in ids ensures ids[id] == 1 && id < limit {
      assert id in ids + more;
    }
  }

  lemma FreshDistinct(ids: multiset<nat>, limit: nat)
    requires Distinct(ids, limit)
    ensures Distinct(ids + multiset{limit}, limit + 1)
  {
    if limit in ids {
      assert false;
    }
  }

  lemma {:induction false} TrimOwns<E>(pool: Pool<E>, highWater: nat, others: multiset<nat>)
    requires PoolOwns(pool, others) && pool.top <= pool.buffers
    ensures PoolOwns(Trim(pool, highWater), others)
    decreases pool.top
  {
    hide Stacked, PoolIds, Distinct;
    PoolCount(pool.slots, pool.top);
    if pool.top > highWater {
      var next := pool.(slots := pool.slots[pool.top - 1 := None], top := pool.top - 1, buffers := pool.buffers - 1);
      PoolTake(pool.slots, pool.top);
      var id := pool.slots[pool.top - 1].value.id;
      assert PoolIds(pool.slots, pool.top) + others == (PoolIds(next.slots, next.top) + others) + multiset{id};
      PartDistinct(PoolIds(next.slots, next.top) + others, multiset{id}, pool.nextId);
      TrimOwns(next, highWater, others);
    }
  }

  lemma {:induction false} GrowOwns<E>(pool: Pool<E>, maxBuffers: nat, lowWater: nat, others: multiset<nat>)
    requires PoolOwns(pool, others) && pool.top <= pool.buffers && maxBuffers <= |pool.slots|
    ensures PoolOwns(Grow(pool, maxBuffers, lowWater), others)
    decreases maxBuffers - pool.buffers
  {
    hide Stacked, PoolIds, Distinct;
    PoolCount(pool.slots, pool.top);
    if pool.buffers < maxBuffers && pool.top < lowWater {
      var next := CreateEmpty(pool);
      PoolPut(pool.slots, pool.top, Buffer(pool.nextId, []));
      FreshDistinct(PoolIds(pool.slots, pool.top) + others, pool.nextId);
      assert PoolIds(next.slots, next.top) + others == (PoolIds(pool.slots, pool.top) + others) + multiset{pool.nextId};
      GrowOwns(next, maxBuffers, lowWater, others);
    }
  }

  /** How far the stack grows: to the mark, or until there are as many buffers as allowed. */
  lemma {:induction false} GrowFits<E>(pool: Pool<E>, maxBuffers: nat, lowWater: nat)
    requires pool.top <= pool.buffers && maxBuffers <= |pool.slots|
    ensures var after := Grow(pool, maxBuffers, lowWater);
      && |after.slots| == |pool.slots| && after.top - pool.top == after.buffers - pool.buffers
      && after.top == AtLeast(AtMost(lowWater, pool.top + AtLeast(maxBuffers, pool.buffers) - pool.buffers), pool.top)
    decreases maxBuffers - pool.buffers
  {
    if pool.buffers < maxBuffers && pool.top < lowWater {
      GrowFits(CreateEmpty(pool), maxBuffers, lowWater);
    }
  }

  // ---- Slots that are not there ----

  /** Each buffer the stack grows by has a slot to go to. */
  ghost predicate GrowDefined<E>(pool: Pool<E>, maxBuffers: nat, lowWater: nat)
    requires pool.top <= pool.buffers
    decreases maxBuffers - pool.buffers
  {
    pool.buffers >= maxBuffers || pool.top >= lowWater
    || (pool.top < |pool.slots| && GrowDefined(CreateEmpty(pool), maxBuffers, lowWater))
  }

  /** What the stack grows to, slots or not. */
  function GrownTop<E>(pool: Pool<E>, maxBuffers: nat, lowWater: nat): nat
    requires pool.top <= pool.buffers
  {
    AtLeast(AtMost(lowWater, pool.top + AtLeast(maxBuffers, pool.buffers) - pool.buffers), pool.top)
  }

  lemma {:induction false} GrowDefinedWithin<E>(pool: Pool<E>, maxBuffers: nat, lowWater: nat)
    requires pool.top <= pool.buffers && pool.top <= |pool.slots|
    ensures GrowDefined(pool, maxBuffers, lowWater) <==> GrownTop(pool, maxBuffers, lowWater) <= |pool.slots|
    decreases maxBuffers - pool.buffers
  {
    if pool.buffers < maxBuffers && pool.top < lowWater && pool.top < |pool.slots| {
      GrowDefinedWithin(CreateEmpty(pool), maxBuffers, lowWater);
    }
  }

  /** The slots for a policy that is about to be set are there. */
  ghost predicate SlotsSuffice<E>(pool: Pool<E>, policy: Policy)
    requires pool.top <= pool.buffers && pool.top <= |pool.slots|
  {
    var high, low := (policy.maxEmpty + BaseOf(pool)) % SIZE_RANGE, (policy.minEmpty + BaseOf(pool)) % SIZE_RANGE;
    TrimFits(pool, high);
    GrowDefined(Trim(pool, high), policy.maxBuffers, low)
  }

  /**
    Exactly when setting a policy stays within the slots, which are as many as buffers were allowed at first: what is
    left after trimming and is then made up to the low mark, as far as the policy allows buffers, fits in.
  */
  lemma SlotsSufficeWithin<E>(pool: Pool<E>, policy: Policy)
    requires pool.top <= pool.buffers && pool.top <= |pool.slots|
    ensures SlotsSuffice(pool, policy) <==>
      (var kept := AtMost(pool.top, (policy.maxEmpty + BaseOf(pool)) % SIZE_RANGE);
       var others := pool.buffers - pool.top;
       kept + AtMost(AtLeast((policy.minEmpty + BaseOf(pool)) % SIZE_RANGE, kept) - kept,
                     AtLeast(policy.maxBuffers, kept + others) - kept - others) <= |pool.slots|)
    ensures policy.maxBuffers <= |pool.slots| ==> SlotsSuffice(pool, policy)
  {
    var high, low := (policy.maxEmpty + BaseOf(pool)) % SIZE_RANGE, (policy.minEmpty + BaseOf(pool)) % SIZE_RANGE;
    TrimFits(pool, high);
    GrowDefinedWithin(Trim(pool, high), policy.maxBuffers, low);
    hide Trim, BaseOf, GrowDefined;
  }

  lemma AdjustOwns<E>(pool: Pool<E>, policy: Policy, base: nat, others: multiset<nat>)
    requires PoolOwns(pool, others) && Adjustable(pool, policy)
    ensures var after := AdjustEmpty(pool, policy, base);
      PoolOwns(after, others) && |after.slots| == |pool.slots|
  {
    hide PoolOwns, Trim, Grow;
    var high, low := (policy.maxEmpty + base) % SIZE_RANGE, (policy.minEmpty + base) % SIZE_RANGE;
    TrimFits(pool, high);
    TrimOwns(pool, high, others);
    GrowFits(Trim(pool, high), policy.maxBuffers, low);
    GrowOwns(Trim(pool, high), policy.maxBuffers, low, others);
  }

  // ---- The queue of ready buffers ----

  lemma {:induction false} IdsAppend<E>(buffers: seq<Buffer<E>>, b: Buffer<E>)
    ensures IdsOf(buffers + [b]) == IdsOf(buffers) + multiset{b.id}
  {
    if buffers == [] {
      assert [b][1..] == [];
    } else {
      assert (buffers + [b])[1..] == buffers[1..] + [b];
      IdsAppend(buffers[1..], b);
    }
  }

  lemma {:induction false} FlattenAppend<E>(buffers: seq<Buffer<E>>, b: Buffer<E>)
    ensures Flatten(buffers + [b]) == Flatten(buffers) + b.records
  {
    if buffers == [] {
      assert [b][1..] == [];
      assert b.records + Flatten([]) == Flatten([]) + b.records;
    } else {
      assert (buffers + [b])[1..] == buffers[1..] + [b];
      FlattenAppend(buffers[1..], b);
    }
  }

  lemma {:induction false} ReadyCount<E>(buffers: seq<Buffer<E>>)
    ensures |IdsOf(buffers)| == |buffers|
  {
    if buffers != [] {
      ReadyCount(buffers[1..]);
    }
  }

  /** Buffers are empty, ready, active or in the reader's hand. */
  lemma BuffersAddUp<E>(q: Queue<E>)
    requires OwnedOnce(q)
    ensures q.pool.buffers == q.pool.top + |q.ready| + Count(q.active) + Count(q.hand) <= |q.pool.slots|
  {
    hide Stacked, PoolIds, Distinct, IdsOf;
    PoolCount(q.pool.slots, q.pool.top);
    ReadyCount(q.ready);
  }

  /** No step is ever held up by anything but the protocol itself: every slot and pointer touched is there. */
  lemma StepsAreDefined<E>(q: Queue<E>)
    requires Safe(q)
    ensures q.reader.Delivered? ==> Enabled(q, Return)
    ensures q.reader.Holding? ==> Enabled(q, Deliver)
    ensures q.reader.Adjusting? ==> Enabled(q, Adjust)
    ensures q.producer == Looking ==> Enabled(q, Look)
    ensures q.producer == Filling ==> Enabled(q, Publish) && forall e :: q.nLeft > 0 ==> Enabled(q, Push(e))
    ensures |q.ready| <= |q.pool.slots|
  {
    hide PoolIds, Distinct, IdsOf, InOrder;
    BuffersAddUp(q);
  }

  // ---- Steps ----

  lemma PushSafe<E>(q: Queue<E>, e: E)
    requires Safe(q) && Enabled(q, Push(e))
    ensures Safe(Next(q, Push(e)))
  {
    hide PoolOwns, IdsOf, Flatten;
    var next := Next(q, Push(e));
    assert InUse(next) == InUse(q);
    assert next.pushed == next.delivered + InHand(next) + Flatten(next.ready) + RecordsOf(next.active);
  }

  lemma PublishSafe<E>(q: Queue<E>)
    requires Safe(q) && q.producer == Filling
    ensures Safe(Next(q, Publish))
  {
    hide PoolOwns, IdsOf, Flatten;
    IdsAppend(q.ready, q.active.value);
    FlattenAppend(q.ready, q.active.value);
    var next := Next(q, Publish);
    assert InUse(next) == InUse(q);
    assert q.pushed == next.delivered + InHand(next) + Flatten(next.ready) + RecordsOf(next.active);
  }

  lemma LookOwns<E>(q: Queue<E>)
    requires OwnedOnce(q) && q.pool.top > 0 && q.active.None? && Enabled(q, Look)
    ensures OwnedOnce(Next(q, Look))
  {
    hide Stacked, PoolIds, Distinct, IdsOf;
    PoolTake(q.pool.slots, q.pool.top);
    var next := Next(q, Look);
    assert PoolIds(next.pool.slots, next.pool.top) + InUse(next) == PoolIds(q.pool.slots, q.pool.top) + InUse(q);
  }

  lemma LookInOrder<E>(q: Queue<E>)
    requires InOrder(q) && Enabled(q, Look) && q.active.None?
    ensures InOrder(Next(q, Look))
  {
    hide Flatten;
    if q.pool.top > 0 {
      assert RecordsOf(Next(q, Look).active) == RecordsOf(q.active);
    }
  }

  lemma LookSafe<E>(q: Queue<E>)
    requires Safe(q) && Enabled(q, Look)
    ensures Safe(Next(q, Look))
  {
    hide PoolOwns, InOrder;
    LookInOrder(q);
    if q.pool.top > 0 {
      hide OwnedOnce;
      LookOwns(q);
    }
  }

  lemma FirstApart<E>(buffers: seq<Buffer<E>>)
    requires buffers != []
    ensures IdsOf(buffers) == IdsOf(buffers[1..]) + IdOf(Some(buffers[0]))
    ensures Flatten(buffers) == RecordsOf(Some(buffers[0])) + Flatten(buffers[1..])
  {
  }

  lemma ConsumeInOrder<E>(q: Queue<E>)
    requires InOrder(q) && Enabled(q, Consume)
    ensures InOrder(Next(q, Consume))
  {
    hide IdsOf, Flatten;
    if q.reader.left > 0 && q.ready != [] {
      FirstApart(q.ready);
      var first, rest, last := RecordsOf(Some(q.ready[0])), Flatten(q.ready[1..]), RecordsOf(q.active);
      assert q.delivered + [] + (first + rest) + last == q.delivered + first + rest + last;
    }
  }

  lemma HandedOver<E>(ready: seq<Buffer<E>>, active: Option<Buffer<E>>)
    requires ready != []
    ensures UsedBy(ready, active, None) == UsedBy(ready[1..], active, Some(ready[0]))
  {
  }

  lemma ConsumeMoves<E>(q: Queue<E>)
    requires Enabled(q, Consume) && q.hand.None?
    ensures InUse(Next(q, Consume)) == InUse(q)
  {
    hide UsedBy;
    if q.reader.left > 0 && q.ready != [] {
      HandedOver(q.ready, q.active);
    }
  }

  lemma ConsumeOwns<E>(q: Queue<E>)
    requires OwnedOnce(q) && Enabled(q, Consume) && q.hand.None?
    ensures OwnedOnce(Next(q, Consume))
  {
    hide InUse, PoolOwns;
    ConsumeMoves(q);
  }

  lemma ReadyFits<E>(q: Queue<E>)
    requires OwnedOnce(q)
    ensures |q.ready| <= |q.pool.slots|
  {
    BuffersAddUp(q);
  }

  lemma ConsumeSafe<E>(q: Queue<E>)
    requires Safe(q) && q.reader.Consuming?
    ensures Safe(Next(q, Consume))
  {
    hide OwnedOnce, InOrder;
    ReadyFits(q);
    ConsumeOwns(q);
    ConsumeInOrder(q);
  }

  lemma DeliverSafe<E>(q: Queue<E>)
    requires Safe(q) && Enabled(q, Deliver)
    ensures Safe(Next(q, Deliver))
  {
    hide PoolOwns, IdsOf, Flatten;
    var next := Next(q, Deliver);
    assert q.pushed == next.delivered + InHand(next) + Flatten(next.ready) + RecordsOf(next.active);
  }

  lemma ReturnOwns<E>(q: Queue<E>)
    requires OwnedOnce(q) && Enabled(q, Return)
    ensures OwnedOnce(Next(q, Return))
  {
    hide Stacked, PoolIds, Distinct, IdsOf;
    PoolPut(q.pool.slots, q.pool.top, q.hand.value);
    var next := Next(q, Return);
    assert PoolIds(next.pool.slots, next.pool.top) + InUse(next) == PoolIds(q.pool.slots, q.pool.top) + InUse(q);
  }

  lemma ReturnSafe<E>(q: Queue<E>)
    requires Safe(q) && Enabled(q, Return)
    ensures Safe(Next(q, Return))
  {
    hide PoolOwns, IdsOf, Flatten;
    ReturnOwns(q);
  }

  lemma AdjustSafe<E>(q: Queue<E>, policy: Policy, base: nat)
    requires Safe(q) && policy.Valid() && Adjustable(q.pool, policy)
    ensures var pool := AdjustEmpty(q.pool, policy, base);
      Safe(q.(pool := pool, policy := policy))
  {
    hide PoolOwns, AdjustEmpty, IdsOf, Flatten;
    AdjustOwns(q.pool, policy, base, InUse(q));
  }

  /** Whatever the two sides do, and however a policy is set, the hand-over is safe. */
  lemma StepSafe<E>(q: Queue<E>, a: Action<E>)
    requires Safe(q) && Enabled(q, a)
    ensures Safe(Next(q, a))
  {
    hide PoolOwns, AdjustEmpty, IdsOf, Flatten;
    match a
    case Push(e) => PushSafe(q, e);
    case Publish => PublishSafe(q);
    case Look => LookSafe(q);
    case Consume => ConsumeSafe(q);
    case Deliver => DeliverSafe(q);
    case Return => ReturnSafe(q);
    case Adjust => AdjustSafe(q, q.policy, q.reader.seen);
    case SetPolicy(policy) => AdjustSafe(q, policy, BaseOf(q.pool));
    case _ =>
  }
}
