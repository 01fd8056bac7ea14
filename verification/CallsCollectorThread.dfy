/**
  The hooks called on entry to and exit from instrumented functions. A stack of
  return entries tells regular calls from tail calls and knows how many calls a
  single exit completes; what the hooks emit is the trace the analyzer consumes.
*/
module CallsCollectorThreads {
  import opened Statistics
  import opened ShadowStack

  datatype ReturnEntry = ReturnEntry(stackPtr: nat, returnAddress: Address)

  /** Above every pointer a hook is called with. */
  const SENTINEL: nat := 0xFFFF_FFFF_FFFF_FFFF

  datatype Hook =
    | Entered(stackPtr: nat, timestamp: int, callee: Address, returnAddress: Address)
    | Exited(stackPtr: nat, timestamp: int)

  datatype Thread = Thread(returnStack: seq<ReturnEntry>, trace: seq<CallRecord>)

  function Top(stack: seq<ReturnEntry>): nat
    requires stack != []
  {
    stack[|stack| - 1].stackPtr
  }

  /** The part of the stack that lies above the pointer: the stack grows down, so it is a prefix. */
  function Above(stack: seq<ReturnEntry>, stackPtr: nat): (left: seq<ReturnEntry>)
    ensures left <= stack
  {
    if stack == [] || Top(stack) > stackPtr then stack else Above(stack[..|stack| - 1], stackPtr)
  }

  function Exits(n: nat, timestamp: int): seq<CallRecord> {
    if n == 0 then [] else Exits(n - 1, timestamp) + [CallRecord(timestamp, 0)]
  }

  /** The stack grows down: a call is made at or below the innermost entry, and an exit leaves at least that entry. */
  predicate Legal(t: Thread, h: Hook) {
    && t.returnStack != [] && h.stackPtr < SENTINEL
    && match h
       case Entered(sp, _, callee, _) => sp <= Top(t.returnStack) && callee != 0
       case Exited(sp, _) => |t.returnStack| > 1
  }

  function Next(t: Thread, h: Hook): Thread
    requires Legal(t, h)
  {
    var stack := t.returnStack;
    match h
    case Entered(sp, timestamp, callee, returnAddress) =>
      if sp == Top(stack) then
        Thread(stack, t.trace + [CallRecord(timestamp, 0), CallRecord(timestamp, callee)])
      else
        Thread(stack + [ReturnEntry(sp, returnAddress)], t.trace + [CallRecord(timestamp, callee)])
    case Exited(sp, timestamp) =>
      var left := Above(stack[..|stack| - 1], sp);
      Thread(left, t.trace + Exits(|stack| - |left|, timestamp))
  }

  predicate Descending(stack: seq<ReturnEntry>) {
    && stack != [] && stack[0].stackPtr == SENTINEL
    && forall i, j :: 0 <= i < j < |stack| ==> stack[i].stackPtr > stack[j].stackPtr
  }

  /** One open call for each entry below the sentinel: the analyzer never pops its bottom frame. */
  predicate Consistent(t: Thread) {
    && Descending(t.returnStack)
    && WellNested(1, t.trace)
    && Depth(1, t.trace) == |t.returnStack|
  }

  lemma {:induction false} AboveSplits(stack: seq<ReturnEntry>, stackPtr: nat)
    ensures forall i :: |Above(stack, stackPtr)| <= i < |stack| ==> stack[i].stackPtr <= stackPtr
    ensures Above(stack, stackPtr) != [] ==> Top(Above(stack, stackPtr)) > stackPtr
    ensures stack != [] && stack[0].stackPtr > stackPtr ==> Above(stack, stackPtr) != []
    decreases |stack|
  {
    if stack != [] && Top(stack) <= stackPtr {
      AboveSplits(stack[..|stack| - 1], stackPtr);
    }
  }

  /** An exit completes exactly the calls entered at or below its pointer, but never fewer than one. */
  lemma ExitRemovesExactly(t: Thread, stackPtr: nat, timestamp: int)
    requires Descending(t.returnStack) && Legal(t, Exited(stackPtr, timestamp))
    ensures var left := Next(t, Exited(stackPtr, timestamp)).returnStack;
      && 1 <= |left| < |t.returnStack| && left == t.returnStack[..|left|]
      && (forall i :: 0 <= i < |left| ==> t.returnStack[i].stackPtr > stackPtr)
      && (forall i :: |left| <= i < |t.returnStack| - 1 ==> t.returnStack[i].stackPtr <= stackPtr)
  {
    var stack := t.returnStack;
    AboveSplits(stack[..|stack| - 1], stackPtr);
    var left := Above(stack[..|stack| - 1], stackPtr);
    assert left[|left| - 1] == stack[|left| - 1];
  }

  lemma OneRecord(depth: int, r: CallRecord)
    requires depth >= if r.callee != 0 then 1 else 2
    ensures WellNested(depth, [r]) && Depth(depth, [r]) == depth + if r.callee != 0 then 1 else -1
  {
    assert [r][..0] == [];
  }

  lemma {:induction false} ExitsUnwind(depth: int, n: nat, timestamp: int)
    requires depth - n >= 1
    ensures WellNested(depth, Exits(n, timestamp)) && Depth(depth, Exits(n, timestamp)) == depth - n
  {
    if n > 0 {
      hide WellNested, Depth;
      ExitsUnwind(depth, n - 1, timestamp);
      OneRecord(depth - n + 1, CallRecord(timestamp, 0));
      WellNestedConcat(depth, Exits(n - 1, timestamp), [CallRecord(timestamp, 0)]);
    }
  }

  lemma {:induction false} HookKeepsConsistent(t: Thread, h: Hook)
    requires Consistent(t) && Legal(t, h)
    ensures Consistent(Next(t, h))
  {
    hide WellNested, Depth;
    var d := |t.returnStack|;
    match h
    case Entered(sp, timestamp, callee, _) =>
      var enter, exit := CallRecord(timestamp, callee), CallRecord(timestamp, 0);
      if sp == Top(t.returnStack) {
        OneRecord(d, exit);
        OneRecord(d - 1, enter);
        WellNestedConcat(d, [exit], [enter]);
        assert [exit] + [enter] == [exit, enter];
        WellNestedConcat(1, t.trace, [exit, enter]);
      } else {
        OneRecord(d, enter);
        WellNestedConcat(1, t.trace, [enter]);
      }
    case Exited(sp, timestamp) =>
      ExitRemovesExactly(t, sp, timestamp);
      var left := Next(t, h).returnStack;
      ExitsUnwind(d, d - |left|, timestamp);
      WellNestedConcat(1, t.trace, Exits(d - |left|, timestamp));
  }

  // ---- Whole runs ----

  function Run(t: Thread, hooks: seq<Hook>): (result: (Thread, bool))
  {
    if hooks == [] then (t, true) else
    var before := Run(t, hooks[..|hooks| - 1]);
    var h := hooks[|hooks| - 1];
    if before.1 && Legal(before.0, h) then (Next(before.0, h), true) else (before.0, false)
  }

  function Fresh(): Thread {
    Thread([ReturnEntry(SENTINEL, 0)], [])
  }

  /** Whatever is called, however it returns: the emitted trace can be analyzed. */
  lemma {:induction false} EveryTraceIsWellNested(hooks: seq<Hook>)
    ensures Consistent(Run(Fresh(), hooks).0)
  {
    if hooks != [] {
      var before := Run(Fresh(), hooks[..|hooks| - 1]);
      EveryTraceIsWellNested(hooks[..|hooks| - 1]);
      if before.1 && Legal(before.0, hooks[|hooks| - 1]) {
        HookKeepsConsistent(before.0, hooks[|hooks| - 1]);
      }
    }
  }

  /**
    Hooks of the calls made by a function that was entered at the pointer, tail calls that replace it
    included; an exit reports a pointer no lower than that of the innermost entry.
  */
  predicate Inside(t: Thread, hooks: seq<Hook>, stackPtr: nat) {
    if hooks == [] then true else
    var rest, h := hooks[..|hooks| - 1], hooks[|hooks| - 1];
    Inside(t, rest, stackPtr) && InsideOne(Run(t, rest).0, h, stackPtr)
  }

  predicate InsideOne(t: Thread, h: Hook, stackPtr: nat) {
    match h
    case Entered(sp, _, _, _) => sp <= stackPtr
    case Exited(sp, _) => sp < stackPtr && t.returnStack != [] && Top(t.returnStack) <= sp
  }

  lemma {:induction false} EntrySurvivesOne(base: seq<ReturnEntry>, t: Thread, h: Hook)
    requires base != [] && base <= t.returnStack
    requires Descending(t.returnStack) && Legal(t, h) && InsideOne(t, h, Top(base))
    ensures base <= Next(t, h).returnStack
  {
    if h.Exited? {
      ExitRemovesExactly(t, h.stackPtr, h.timestamp);
      assert t.returnStack[|base| - 1] == base[|base| - 1];
    }
  }

  lemma {:induction false} EntrySurvives(t: Thread, hooks: seq<Hook>)
    requires Consistent(t) && Inside(t, hooks, Top(t.returnStack))
    ensures Consistent(Run(t, hooks).0) && t.returnStack <= Run(t, hooks).0.returnStack
  {
    if hooks != [] {
      var rest, h := hooks[..|hooks| - 1], hooks[|hooks| - 1];
      EntrySurvives(t, rest);
      var before := Run(t, rest);
      if before.1 && Legal(before.0, h) {
        HookKeepsConsistent(before.0, h);
        EntrySurvivesOne(t.returnStack, before.0, h);
      }
    }
  }

  /**
    A call, all that happens inside it, and its exit: the stack is back to what it was,
    and the exit yields the address saved when the function was entered, however
    many tail calls have replaced the function since.
  */
  lemma CallReturnsWhereItCameFrom(t: Thread, enter: Hook, inside: seq<Hook>, timestamp: int)
    requires Consistent(t) && enter.Entered? && Legal(t, enter) && enter.stackPtr < Top(t.returnStack)
    requires Inside(Next(t, enter), inside, enter.stackPtr) && Run(Next(t, enter), inside).1
    ensures var last := Run(Next(t, enter), inside).0;
      && |last.returnStack| > |t.returnStack| && Legal(last, Exited(enter.stackPtr, timestamp))
      && Next(last, Exited(enter.stackPtr, timestamp)).returnStack == t.returnStack
      && last.returnStack[|t.returnStack|].returnAddress == enter.returnAddress
  {
    var entered := Next(t, enter);
    var n := |t.returnStack|;
    HookKeepsConsistent(t, enter);
    EntrySurvives(entered, inside);
    var last := Run(entered, inside).0;
    assert last.returnStack[n] == entered.returnStack[n];
    ExitRemovesExactly(last, enter.stackPtr, timestamp);
    var left := Next(last, Exited(enter.stackPtr, timestamp)).returnStack;
    assert last.returnStack[n - 1].stackPtr == t.returnStack[n - 1].stackPtr > enter.stackPtr;
    assert last.returnStack[n].stackPtr == enter.stackPtr;
    assert |left| <= n by {
      assert !(n < |left|);
    }
    assert n <= |left|;
    assert last.returnStack[..n] == entered.returnStack[..n] == t.returnStack;
  }

  // ---- The thread's hooks as they run ----

  class CallsCollectorThread {
    var returnStack: seq<ReturnEntry>
    /** What has been handed to the buffers so far. */
    var trace: seq<CallRecord>

    ghost function Abstract(): Thread
      reads this
    {
      Thread(returnStack, trace)
    }

    constructor ()
      ensures Abstract() == Fresh() && Consistent(Abstract())
    {
      returnStack := [ReturnEntry(SENTINEL, 0)];
      trace := [];
    }

    method Track(callee: Address, timestamp: int)
      modifies this`trace
      ensures trace == old(trace) + [CallRecord(timestamp, callee)]
    {
      trace := trace + [CallRecord(timestamp, callee)];
    }

    method OnEnter(stackPtr: nat, timestamp: int, callee: Address, returnAddress: Address)
      requires Consistent(Abstract()) && Legal(Abstract(), Entered(stackPtr, timestamp, callee, returnAddress))
      modifies this
      ensures Abstract() == Next(old(Abstract()), Entered(stackPtr, timestamp, callee, returnAddress))
      ensures Consistent(Abstract())
    {
      HookKeepsConsistent(Abstract(), Entered(stackPtr, timestamp, callee, returnAddress));
      if returnStack[|returnStack| - 1].stackPtr != stackPtr {
        returnStack := returnStack + [ReturnEntry(stackPtr, returnAddress)];
      } else {
        Track(0, timestamp);
      }
      Track(callee, timestamp);
      assert old(trace) + [CallRecord(timestamp, 0)] + [CallRecord(timestamp, callee)]
          == old(trace) + [CallRecord(timestamp, 0), CallRecord(timestamp, callee)];
    }

    method OnExit(stackPtr: nat, timestamp: int) returns (returnAddress: Address)
      requires Consistent(Abstract()) && Legal(Abstract(), Exited(stackPtr, timestamp))
      modifies this
      ensures Abstract() == Next(old(Abstract()), Exited(stackPtr, timestamp))
      ensures Consistent(Abstract())
      ensures 1 <= |returnStack| < |old(returnStack)| && returnAddress == old(returnStack)[|returnStack|].returnAddress
    {
      hide WellNested, Depth, Descending;
      ghost var t := Abstract();
      HookKeepsConsistent(t, Exited(stackPtr, timestamp));
      ExitRemovesExactly(t, stackPtr, timestamp);
      ghost var left := Next(t, Exited(stackPtr, timestamp)).returnStack;
      returnAddress := CompleteOne(timestamp);
      assert Exits(0, timestamp) == [];
      while returnStack[|returnStack| - 1].stackPtr <= stackPtr
        invariant 1 <= |left| <= |returnStack| < |t.returnStack| && returnStack == t.returnStack[..|returnStack|]
        invariant left == Above(returnStack, stackPtr)
        invariant trace == t.trace + Exits(|t.returnStack| - |returnStack|, timestamp)
        invariant returnAddress == t.returnStack[|returnStack|].returnAddress
        decreases |returnStack|
      {
        returnAddress := CompleteOne(timestamp);
      }
    }

    /** The innermost call is over. */
    method CompleteOne(timestamp: int) returns (returnAddress: Address)
      requires returnStack != []
      modifies this
      ensures returnStack == old(returnStack)[..|old(returnStack)| - 1]
      ensures returnAddress == old(returnStack)[|old(returnStack)| - 1].returnAddress
      ensures trace == old(trace) + [CallRecord(timestamp, 0)]
    {
      returnAddress := returnStack[|returnStack| - 1].returnAddress;
      returnStack := returnStack[..|returnStack| - 1];
      Track(0, timestamp);
    }
  }
}
