/**
  What the hooks of a thread say about its calls: which of them are open, since
  when, and when the others were over.
*/
module HookCalls {
  import opened Statistics
  import opened ShadowStack
  import opened CallTree
  import opened CallsCollectorThreads

  /** A call that is over at the same time as all that is still open inside it. */
  function Ended(levels: seq<Level>, k: nat, timestamp: int): Call
    requires k < |levels|
    decreases |levels| - k
  {
    var l := levels[k];
    Call(l.callee, l.enterAt, timestamp,
         l.done + if k + 1 < |levels| then [Ended(levels, k + 1, timestamp)] else [])
  }

  /** The calls from the given one on are over; the one before is open still. */
  function Unwound(levels: seq<Level>, k: nat, timestamp: int): seq<Level>
    requires 1 <= k < |levels|
  {
    var parent := levels[k - 1];
    levels[..k - 1] + [parent.(done := parent.done + [Ended(levels, k, timestamp)])]
  }

  lemma UnwindFirst(levels: seq<Level>, timestamp: int)
    requires |levels| >= 2
    ensures ParseStep(levels, CallRecord(timestamp, 0)) == Unwound(levels, |levels| - 1, timestamp)
  {
    var l := levels[|levels| - 1];
    assert l.done + [] == l.done;
  }

  lemma UnwindNext(levels: seq<Level>, k: nat, timestamp: int)
    requires 2 <= k < |levels|
    ensures ParseStep(Unwound(levels, k, timestamp), CallRecord(timestamp, 0)) == Unwound(levels, k - 1, timestamp)
  {
    var before := Unwound(levels, k, timestamp);
    assert before[..k - 2] == levels[..k - 2] && before[k - 2] == levels[k - 2];
  }

  lemma {:induction false} ExitsParse(levels: seq<Level>, n: nat, timestamp: int)
    requires 1 <= n < |levels|
    ensures WellNested(|levels|, Exits(n, timestamp))
    ensures ParseFrom(levels, Exits(n, timestamp)) == Unwound(levels, |levels| - n, timestamp)
  {
    hide WellNested, Depth, ParseFrom, ParseStep, Ended;
    var exit := CallRecord(timestamp, 0);
    ExitsUnwind(|levels|, n, timestamp);
    if n == 1 {
      UnwindFirst(levels, timestamp);
      ParseOne(levels, exit);
      assert Exits(0, timestamp) == [] && Exits(1, timestamp) == [exit];
    } else {
      ExitsParse(levels, n - 1, timestamp);
      ExitsUnwind(|levels|, n - 1, timestamp);
      var before := Unwound(levels, |levels| - n + 1, timestamp);
      UnwindNext(levels, |levels| - n + 1, timestamp);
      ParseOne(before, exit);
      ParseConcat(levels, Exits(n - 1, timestamp), [exit]);
    }
  }

  // ---- One hook ----

  /**
    An entry below the innermost one opens a call inside the innermost open one. An entry at the innermost one is a tail
    call: the innermost open call is over, and one is opened in its place. An exit ends the calls entered at or below
    its pointer, but never none, the outer ones with all that is inside them; and all that at the time of the hook.
  */
  ghost predicate Does(h: Hook, stack: seq<ReturnEntry>, levels: seq<Level>, stack': seq<ReturnEntry>,
                       levels': seq<Level>)
    requires |stack| == |levels| >= 1
  {
    var n := |stack|;
    match h
    case Entered(sp, timestamp, callee, returnAddress) =>
      if sp == stack[n - 1].stackPtr then
        && n >= 2 && stack' == stack
        && var parent, over := levels[n - 2], levels[n - 1];
           levels' == levels[..n - 2]
                      + [parent.(done := parent.done + [Call(over.callee, over.enterAt, timestamp, over.done)]),
                         Level(callee, timestamp, [])]
      else
        stack' == stack + [ReturnEntry(sp, returnAddress)] && levels' == levels + [Level(callee, timestamp, [])]
    case Exited(sp, timestamp) =>
      var k := |stack'|;
      && 1 <= k < n && stack' == stack[..k]
      && (forall i :: 0 <= i < k ==> stack[i].stackPtr > sp)
      && (forall i :: k <= i < n - 1 ==> stack[i].stackPtr <= sp)
      && levels' == Unwound(levels, k, timestamp)
  }

  lemma EntryDoes(t: Thread, h: Hook)
    requires Consistent(t) && Legal(t, h) && h.Entered? && Consistent(Next(t, h))
    ensures |Parse(t.trace)| == |t.returnStack|
    ensures Does(h, t.returnStack, Parse(t.trace), Next(t, h).returnStack, Parse(Next(t, h).trace))
  {
    hide WellNested, Depth, ParseFrom;
    var levels := Parse(t.trace);
    var bottom := [Level(0, 0, [])];
    var enter, exit := CallRecord(h.timestamp, h.callee), CallRecord(h.timestamp, 0);
    if h.stackPtr == Top(t.returnStack) {
      ParseOne(levels, exit);
      ParseConcat(bottom, t.trace, [exit]);
      ParseOne(ParseStep(levels, exit), enter);
      ParseConcat(bottom, t.trace + [exit], [enter]);
      assert t.trace + [exit] + [enter] == t.trace + [exit, enter];
    } else {
      ParseOne(levels, enter);
      ParseConcat(bottom, t.trace, [enter]);
    }
  }

  lemma ExitDoes(t: Thread, h: Hook)
    requires Consistent(t) && Legal(t, h) && h.Exited? && Consistent(Next(t, h))
    ensures |Parse(t.trace)| == |t.returnStack|
    ensures Does(h, t.returnStack, Parse(t.trace), Next(t, h).returnStack, Parse(Next(t, h).trace))
  {
    hide WellNested, Depth, ParseFrom, Exits;
    var levels, left := Parse(t.trace), Next(t, h).returnStack;
    ExitRemovesExactly(t, h.stackPtr, h.timestamp);
    ExitsParse(levels, |levels| - |left|, h.timestamp);
    ParseConcat([Level(0, 0, [])], t.trace, Exits(|levels| - |left|, h.timestamp));
  }

  // ---- All hooks ----

  /** The hooks so far were all in order. */
  predicate InOrder(hooks: seq<Hook>) {
    CallsCollectorThreads.Run(Fresh(), hooks).1
  }

  function StackAfter(hooks: seq<Hook>): seq<ReturnEntry> {
    CallsCollectorThreads.Run(Fresh(), hooks).0.returnStack
  }

  /** The calls the emitted trace records: level zero stands for the thread, the others are open. */
  function CallsAfter(hooks: seq<Hook>): (levels: seq<Level>)
    ensures |levels| == |StackAfter(hooks)| >= 1
  {
    EveryTraceIsWellNested(hooks);
    Parse(CallsCollectorThreads.Run(Fresh(), hooks).0.trace)
  }

  /** No hook is out of order but one that is not legal. */
  lemma InOrderAll(hooks: seq<Hook>, h: Hook)
    ensures InOrder([]) && StackAfter([]) == [ReturnEntry(SENTINEL, 0)] && CallsAfter([]) == [Level(0, 0, [])]
    ensures InOrder(hooks + [h]) <==> InOrder(hooks) && Legal(CallsCollectorThreads.Run(Fresh(), hooks).0, h)
  {
    assert (hooks + [h])[..|hooks|] == hooks;
  }

  lemma HookDoes(hooks: seq<Hook>, h: Hook)
    requires InOrder(hooks + [h])
    ensures InOrder(hooks) && Legal(CallsCollectorThreads.Run(Fresh(), hooks).0, h)
    ensures Does(h, StackAfter(hooks), CallsAfter(hooks), StackAfter(hooks + [h]), CallsAfter(hooks + [h]))
  {
    hide Consistent, Does, Next, Legal, Parse;
    assert (hooks + [h])[..|hooks|] == hooks;
    var t := CallsCollectorThreads.Run(Fresh(), hooks).0;
    EveryTraceIsWellNested(hooks);
    HookKeepsConsistent(t, h);
    if h.Entered? {
      EntryDoes(t, h);
    } else {
      ExitDoes(t, h);
    }
  }

  /** The latest entry at a pointer. */
  ghost predicate Latest(hooks: seq<Hook>, j: nat, stackPtr: nat) {
    && j < |hooks| && hooks[j].Entered? && hooks[j].stackPtr == stackPtr
    && forall i :: j < i < |hooks| && hooks[i].Entered? ==> hooks[i].stackPtr != stackPtr
  }

  lemma NewIsOpen(h: Hook, stack: seq<ReturnEntry>, levels: seq<Level>, stack': seq<ReturnEntry>,
                  levels': seq<Level>)
    requires |stack| == |levels| >= 1 && Does(h, stack, levels, stack', levels') && h.Entered?
    ensures |stack'| == |levels'| >= 2 && stack'[|stack'| - 1].stackPtr == h.stackPtr
    ensures levels'[|stack'| - 1] == Level(h.callee, h.timestamp, [])
  {
  }

  lemma OthersStayOpen(h: Hook, stack: seq<ReturnEntry>, levels: seq<Level>, stack': seq<ReturnEntry>,
                       levels': seq<Level>, i: nat)
    requires |stack| == |levels| >= 1 && Does(h, stack, levels, stack', levels')
    requires i < |stack'| && (h.Entered? ==> i < |stack'| - 1)
    ensures i < |stack| && |levels'| == |stack'| && stack'[i] == stack[i]
    ensures levels'[i].callee == levels[i].callee && levels'[i].enterAt == levels[i].enterAt
  {
    hide Ended;
  }

  /** Each open call is the one of the latest entry at its place on the return stack. */
  lemma {:induction false} LatestIsOpen(hooks: seq<Hook>, i: nat) returns (j: nat)
    requires InOrder(hooks) && 1 <= i < |StackAfter(hooks)|
    ensures Latest(hooks, j, StackAfter(hooks)[i].stackPtr)
    ensures CallsAfter(hooks)[i].callee == hooks[j].callee && CallsAfter(hooks)[i].enterAt == hooks[j].timestamp
    decreases |hooks|
  {
    if hooks == [] {
      assert false;
    }
    var rest, h := hooks[..|hooks| - 1], hooks[|hooks| - 1];
    assert hooks == rest + [h];
    HookDoes(rest, h);
    Distinct(hooks);
    hide InOrder, StackAfter, CallsAfter, Does;
    var stack, levels, stack', levels' := StackAfter(rest), CallsAfter(rest), StackAfter(hooks), CallsAfter(hooks);
    if h.Entered? {
      NewIsOpen(h, stack, levels, stack', levels');
    }
    if h.Entered? && i == |stack'| - 1 {
      j := |hooks| - 1;
    } else {
      OthersStayOpen(h, stack, levels, stack', levels', i);
      j := LatestIsOpen(rest, i);
    }
  }

  lemma Distinct(hooks: seq<Hook>)
    ensures Descending(StackAfter(hooks))
  {
    EveryTraceIsWellNested(hooks);
  }
}
