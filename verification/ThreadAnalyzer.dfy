/**
  The analyzer of one thread as it runs: call nodes that own their callees and
  are updated in place, and a shadow stack whose records cache pointers to the
  nodes of the open calls. Clearing the statistics frees every node, so the
  pointers dangle until the next batch binds them again.
*/
module ThreadAnalyzers {
  import opened Statistics
  import opened ShadowStack
  import opened TimeConservation

  class CallNode {
    ghost const path: Path
    ghost var alive: bool
    var statistics: FunctionStatistics
    var callees: map<Address, CallNode>

    constructor (ghost path: Path)
      ensures this.path == path && alive && statistics == Zero() && callees == map[]
    {
      this.path := path;
      alive := true;
      statistics := Zero();
      callees := map[];
    }
  }

  /** The statistics of a thread: the root's callees are the thread's outermost functions. */
  class CallGraph {
    const root: CallNode
    /** The node at every path that can be reached from the root. */
    ghost var live: map<Path, CallNode>

    ghost predicate Valid()
      reads this, live.Values
    {
      && [] in live && live[[]] == root
      && (forall p :: p in live ==> live[p].path == p && live[p].alive)
      && (forall p {:trigger Parent(p)} :: p in live && p != [] ==>
            Parent(p) in live && p[|p| - 1] in live[Parent(p)].callees)
      && (forall p, k {:trigger k in live[p].callees} :: p in live && k in live[p].callees ==>
            p + [k] in live && live[p].callees[k] == live[p + [k]])
    }

    ghost function Gathered(): Forest
      reads this, live.Values
    {
      map p | p in live && p != [] :: live[p].statistics
    }

    /** No node was moved, and those that were added are new. */
    twostate predicate Grown()
      reads this
    {
      && (forall p :: p in old(live) ==> p in live && live[p] == old(live[p]))
      && (forall p :: p in live && p !in old(live) ==> fresh(live[p]))
    }

    constructor ()
      ensures Valid() && Gathered() == map[] && fresh(live.Values)
    {
      var node := new CallNode([]);
      root := node;
      live := map[[] := node];
    }

    /** The callee of a node, made on first use. */
    method Callee(parent: CallNode, callee: Address) returns (node: CallNode)
      requires Valid() && parent.path in live && live[parent.path] == parent
      modifies this, parent`callees
      ensures Valid() && Grown()
      ensures Gathered() == Merge(old(Gathered()), map[parent.path + [callee] := Zero()])
      ensures parent.path + [callee] in live && node == live[parent.path + [callee]]
    {
      hide Merge;
      ghost var p := parent.path + [callee];
      assert Parent(p) == parent.path && p[|p| - 1] == callee;
      MergeBare(Gathered(), p);
      if callee in parent.callees {
        node := parent.callees[callee];
      } else {
        node := Insert(parent, callee);
      }
    }

    method Insert(parent: CallNode, callee: Address) returns (node: CallNode)
      requires Valid() && parent.path in live && live[parent.path] == parent && callee !in parent.callees
      modifies this, parent`callees
      ensures Valid() && fresh(node)
      ensures parent.path + [callee] !in old(live) && live == old(live)[parent.path + [callee] := node]
      ensures Gathered() == old(Gathered())[parent.path + [callee] := Zero()]
    {
      ghost var p := parent.path + [callee];
      assert Parent(p) == parent.path && p[|p| - 1] == callee;
      node := new CallNode(p);
      parent.callees := parent.callees[callee := node];
      live := live[p := node];
    }

    /** Accounts for a completed call. */
    method Record(node: CallNode, inclusiveTime: int, exclusiveTime: int)
      requires Valid() && node.path in live && live[node.path] == node && node.path != []
      modifies node`statistics
      ensures Valid()
      ensures Gathered() == Merge(old(Gathered()), map[node.path := AddCall(Zero(), inclusiveTime, exclusiveTime)])
    {
      hide Merge;
      node.statistics := AddCall(node.statistics, inclusiveTime, exclusiveTime);
      MergeOne(old(Gathered()), node.path, AddCall(Zero(), inclusiveTime, exclusiveTime));
      assert Gathered() == old(Gathered())[node.path := node.statistics];
    }

    /** Frees all nodes. */
    method Clear()
      requires Valid()
      modifies this, live.Values
      ensures Valid() && live == map[[] := root] && Gathered() == map[]
      ensures forall p :: p in old(live) && p != [] ==> !old(live[p]).alive
    {
      forall n | n in live.Values && n != root {
        n.alive := false;
      }
      root.callees := map[];
      live := map[[] := root];
    }
  }

  /** The node pointer of a record says nothing until the record is bound to the statistics of a batch. */
  datatype StackRecord = StackRecord(frame: Frame, node: CallNode?)

  class ThreadAnalyzer {
    const overhead: Overhead
    const graph: CallGraph
    var stack: seq<StackRecord>

    ghost function Repr(): set<object>
      reads this, graph
    {
      {this, graph} + graph.live.Values
    }

    ghost predicate Valid()
      reads this, graph, graph.live.Values
    {
      |stack| >= 1 && graph.Valid()
    }

    ghost function Frames(): seq<Frame>
      reads this
    {
      seq(|stack|, k requires 0 <= k < |stack| reads this => stack[k].frame)
    }

    ghost function Abstract(): State
      reads this, graph, graph.live.Values
    {
      State(Frames(), graph.Gathered())
    }

    /** The first `n` records point at the live nodes of their calls. */
    ghost predicate Bound(n: nat)
      reads this, graph
    {
      |stack| >= 1 && forall k :: 0 <= k < n && k < |stack| ==>
        PathOf(Frames())[..k] in graph.live && stack[k].node == graph.live[PathOf(Frames())[..k]]
    }

    constructor (overhead: Overhead)
      ensures Valid() && this.overhead == overhead
      ensures Abstract() == State([Frame(0, 0, 0, 0)], map[])
      ensures fresh(Repr())
    {
      this.overhead := overhead;
      graph := new CallGraph();
      stack := [StackRecord(Frame(0, 0, 0, 0), null)];
    }

    /** Looks up the node of every open call, from the root down. */
    method ResetStack()
      requires Valid()
      modifies Repr()
      ensures Valid() && graph.Grown() && Bound(|stack|)
      ensures Frames() == old(Frames())
      ensures graph.Gathered() == Merge(old(graph.Gathered()), Blank(OpenPaths(old(Frames()))))
    {
      hide Merge, OpenPathsUpTo, Blank, PathOf;
      ghost var frames := Frames();
      stack := stack[0 := stack[0].(node := graph.root)];
      assert Frames() == frames;
      LookUpNone(graph.Gathered(), frames);
      var i := 1;
      while i < |stack|
        invariant 1 <= i <= |stack| == |frames|
        invariant Valid() && graph.Grown() && Frames() == frames && Bound(i)
        invariant graph.Gathered() == Merge(old(graph.Gathered()), Blank(OpenPathsUpTo(frames, i)))
      {
        Bind(i);
        LookUpOne(old(graph.Gathered()), frames, i);
        i := i + 1;
      }
    }

    /** Binds one more record below the ones that are bound. */
    method Bind(i: nat)
      requires Valid() && 1 <= i < |stack| && Bound(i)
      modifies Repr()
      ensures Valid() && graph.Grown() && 1 <= i < |stack| && Bound(i + 1)
      ensures Frames() == old(Frames())
      ensures graph.Gathered() == Merge(old(graph.Gathered()), map[PathOf(old(Frames()))[..i] := Zero()])
    {
      hide Merge;
      ghost var frames := Frames();
      assert PathOf(frames)[..i] == PathOf(frames)[..i - 1] + [stack[i].frame.callee];
      var node := graph.Callee(stack[i - 1].node, stack[i].frame.callee);
      stack := stack[i := stack[i].(node := node)];
      assert Frames() == frames;
    }

    method Enter(r: CallRecord)
      requires Valid() && Bound(|stack|) && r.callee != 0
      modifies Repr()
      ensures Valid() && graph.Grown() && Bound(|stack|)
      ensures Abstract() == Step(old(Abstract()), r, overhead)
    {
      hide Merge;
      ghost var frames := Frames();
      ghost var p := PathOf(frames);
      var previous := stack[|stack| - 1];
      assert p[..|stack| - 1] == p;
      var node := graph.Callee(previous.node, r.callee);
      stack := stack + [StackRecord(Frame(r.callee, r.timestamp, 0, 0), node)];
      assert Frames() == frames + [Frame(r.callee, r.timestamp, 0, 0)];
      assert PathOf(Frames()) == p + [r.callee];
      forall k | 0 <= k < |stack|
        ensures PathOf(Frames())[..k] in graph.live && stack[k].node == graph.live[PathOf(Frames())[..k]]
      {
        if k < |frames| {
          assert PathOf(Frames())[..k] == p[..k];
        } else {
          assert PathOf(Frames())[..k] == p + [r.callee];
        }
      }
    }

    method Exit(r: CallRecord)
      requires Valid() && Bound(|stack|) && r.callee == 0 && |stack| >= 2
      modifies Repr()
      ensures Valid() && graph.Grown() && Bound(|stack|)
      ensures Abstract() == Step(old(Abstract()), r, overhead)
    {
      hide Merge;
      ghost var frames := Frames();
      ghost var p := PathOf(frames);
      var n := |stack|;
      var current := stack[n - 1];
      assert p[..n - 1] == p;
      var inclusiveTimeObserved := r.timestamp - current.frame.enterAt - overhead.inner;
      var childrenOverhead := current.frame.childrenOverhead;
      var inclusiveTime := inclusiveTimeObserved - childrenOverhead;
      var exclusiveTime := inclusiveTimeObserved - current.frame.childrenTimeObserved;

      graph.Record(current.node, inclusiveTime, exclusiveTime);
      stack := stack[..n - 1];

      var parent := stack[n - 2].frame;
      parent := parent.(
        childrenTimeObserved := parent.childrenTimeObserved + (inclusiveTimeObserved + overhead.Total()),
        childrenOverhead := parent.childrenOverhead + (overhead.Total() + childrenOverhead));
      stack := stack[n - 2 := stack[n - 2].(frame := parent)];

      assert Frames() == NextFrames(frames, r, overhead);
      assert PathOf(Frames()) == p[..n - 2];
      forall k | 0 <= k < |stack|
        ensures PathOf(Frames())[..k] in graph.live && stack[k].node == graph.live[PathOf(Frames())[..k]]
      {
        assert PathOf(Frames())[..k] == p[..k];
      }
    }

    /** A batch of records. Between batches any number of nodes may have been freed, but none of them is ever touched. */
    method AcceptCalls(calls: seq<CallRecord>)
      requires Valid() && WellNested(|stack|, calls)
      modifies Repr()
      ensures Valid() && graph.Grown() && Bound(|stack|)
      ensures Abstract() == Update(old(Abstract()), calls, overhead)
    {
      hide Merge, Step, PathOf, OpenPathsUpTo, Bound, Blank;
      ResetStack();
      ghost var start := Abstract();
      assert calls[..0] == [] && calls[..|calls|] == calls;
      for i := 0 to |calls|
        invariant Valid() && graph.Grown() && Bound(|stack|)
        invariant WellNested(|start.frames|, calls[..i])
        invariant Abstract() == Run(start, calls[..i], overhead)
      {
        RunExtends(start, calls, i, overhead);
        if calls[i].callee != 0 {
          Enter(calls[i]);
        } else {
          Exit(calls[i]);
        }
      }
    }

    /** What has been gathered is dropped; open calls stay open. */
    method Clear()
      requires Valid()
      modifies Repr()
      ensures Valid()
      ensures Abstract() == State(old(Frames()), map[])
      ensures graph.live == map[[] := graph.root]
      ensures forall p :: p in old(graph.live) && p != [] ==> !old(graph.live[p]).alive
    {
      graph.Clear();
    }
  }
}
