/**
  From hooks to the frontend: the traces of all threads are analyzed batch by
  batch; now and then what has been gathered for any of them is written out,
  read into the frontend's table and cleared, whatever calls are open at that
  moment.
*/
module EndToEnd {
  import opened Statistics
  import opened ShadowStack
  import opened TimeConservation
  import opened ThreadAnalyzers
  import opened CallTables
  import opened CallTree
  import Analyzers

  /** The part of a forest that lies strictly below a node. */
  ghost function Below(f: Forest, p: Path): Forest {
    map q | q in f && p < q :: f[q]
  }

  /** A node and all that lies below it. */
  ghost function Branch(f: Forest, p: Path): Forest {
    map q | q in f && p <= q :: f[q]
  }

  lemma PrefixStep(p: Path, k: Address, q: Path)
    requires p + [k] <= q
    ensures p < q && |q| > |p| && q[|p|] == k
  {
    assert q[..|p| + 1] == p + [k];
    assert q[..|p|] == p;
  }

  lemma PrefixNext(p: Path, q: Path)
    requires p < q
    ensures p + [q[|p|]] <= q
  {
  }

  lemma BranchSplits(f: Forest, p: Path)
    requires p in f
    ensures Branch(f, p) == Merge(map[p := f[p]], Below(f, p))
  {
    var whole := Merge(map[p := f[p]], Below(f, p));
    assert whole.Keys == Branch(f, p).Keys by {
      forall q | q in f && p <= q && q != p ensures p < q {
        assert q[..|p|] == p;
      }
    }
    forall q ensures At(whole, q) == At(Branch(f, p), q) {
      MergeAt(map[p := f[p]], Below(f, p), q);
    }
    SameForest(whole, Branch(f, p));
  }

  /** Only the callees listed so far. */
  ghost function BelowAmong(f: Forest, p: Path, ks: set<Address>): Forest {
    map q | q in f && p < q && q[|p|] in ks :: f[q]
  }

  lemma BelowAmongGrows(f: Forest, p: Path, ks: set<Address>, k: Address)
    requires k !in ks
    ensures BelowAmong(f, p, ks + {k}) == Merge(BelowAmong(f, p, ks), Branch(f, p + [k]))
  {
    var whole := Merge(BelowAmong(f, p, ks), Branch(f, p + [k]));
    forall q | p < q && q[|p|] == k ensures p + [k] <= q {
      PrefixNext(p, q);
    }
    forall q | p + [k] <= q ensures p < q && q[|p|] == k {
      PrefixStep(p, k, q);
    }
    assert whole.Keys == BelowAmong(f, p, ks + {k}).Keys;
    forall q ensures At(whole, q) == At(BelowAmong(f, p, ks + {k}), q) {
      MergeAt(BelowAmong(f, p, ks), Branch(f, p + [k]), q);
    }
    SameForest(whole, BelowAmong(f, p, ks + {k}));
  }

  lemma BelowAll(f: Forest, p: Path, ks: set<Address>)
    requires forall q :: q in f && p < q ==> q[|p|] in ks
    ensures BelowAmong(f, p, ks) == Below(f, p)
  {
  }

  lemma {:induction false} FirstCallee(graph: CallGraph, p: Path, q: Path)
    requires graph.Valid() && q in graph.live && p < q
    ensures p in graph.live && q[|p|] in graph.live[p].callees
    decreases |q|
  {
    assert Parent(q) in graph.live;
    if |q| == |p| + 1 {
      assert Parent(q) == p;
    } else {
      assert p < Parent(q) by {
        assert Parent(q) == q[..|q| - 1];
      }
      FirstCallee(graph, p, Parent(q));
    }
  }

  ghost function PathsBelow(graph: CallGraph, p: Path): set<Path>
    reads graph
  {
    set q | q in graph.live && p < q
  }

  /** Writes the callees of a node, in whatever order the container yields them. */
  method Serialize(graph: CallGraph, node: CallNode) returns (items: seq<Item>)
    requires graph.Valid() && node.path in graph.live && graph.live[node.path] == node
    ensures ItemsForest(node.path, items) == Below(graph.Gathered(), node.path)
    decreases PathsBelow(graph, node.path)
  {
    hide Merge, Below, BelowAmong, Branch, ItemsForest, ItemForest, PathsBelow, CallGraph.Valid, CallGraph.Gathered;
    ghost var f, p := graph.Gathered(), node.path;
    items := [];
    var rest := node.callees.Keys;
    NoItems(f, p);
    assert node.callees.Keys - rest == {};
    while rest != {}
      invariant rest <= node.callees.Keys
      invariant ItemsForest(p, items) == BelowAmong(f, p, node.callees.Keys - rest)
    {
      var k :| k in rest;
      var child := node.callees[k];
      PathsShrink(graph, p, k);
      ChildOf(graph, node, k);
      var nested := Serialize(graph, child);
      var item := Item(k, child.statistics, nested);
      BranchSplits(f, p + [k]);
      BelowAmongGrows(f, p, node.callees.Keys - rest, k);
      ItemsAppend(p, items, item);
      assert node.callees.Keys - (rest - {k}) == node.callees.Keys - rest + {k};
      items := items + [item];
      rest := rest - {k};
    }
    assert node.callees.Keys - rest == node.callees.Keys;
    AllCallees(graph, p);
    BelowAll(f, p, node.callees.Keys);
  }

  lemma NoItems(f: Forest, p: Path)
    ensures ItemsForest(p, []) == BelowAmong(f, p, {})
  {
  }

  lemma ItemsAppend(p: Path, items: seq<Item>, item: Item)
    ensures ItemsForest(p, items + [item]) == Merge(ItemsForest(p, items),
      Merge(map[p + [item.address] := item.statistics], ItemsForest(p + [item.address], item.callees)))
  {
    hide Merge;
    assert (items + [item])[..|items|] == items;
  }

  lemma ChildOf(graph: CallGraph, node: CallNode, k: Address)
    requires graph.Valid() && node.path in graph.live && graph.live[node.path] == node && k in node.callees
    ensures var c := node.path + [k];
      && c in graph.live && graph.live[c] == node.callees[k] && node.callees[k].path == c
      && c in graph.Gathered() && graph.Gathered()[c] == node.callees[k].statistics
  {
  }

  lemma AllCallees(graph: CallGraph, p: Path)
    requires graph.Valid() && p in graph.live
    ensures forall q :: q in graph.Gathered() && p < q ==> q[|p|] in graph.live[p].callees.Keys
  {
    forall q | q in graph.Gathered() && p < q ensures q[|p|] in graph.live[p].callees.Keys {
      FirstCallee(graph, p, q);
    }
  }

  lemma PathsShrink(graph: CallGraph, p: Path, k: Address)
    requires graph.Valid() && p in graph.live && k in graph.live[p].callees
    ensures p + [k] in graph.live && PathsBelow(graph, p + [k]) < PathsBelow(graph, p)
  {
    forall q | q in PathsBelow(graph, p + [k]) ensures q in PathsBelow(graph, p) {
      PrefixStep(p, k, q);
    }
    assert p + [k] in PathsBelow(graph, p);
  }

  // ---- Updates of all threads ----

  /** What is written of a thread: its id, and the callees of its root. */
  datatype ThreadItems = ThreadItems(thread: ThreadId, items: seq<Item>)

  /** What an update says of a thread. */
  function UpdateForest(update: seq<ThreadItems>, thread: ThreadId): Forest {
    if update == [] then map[] else
    var rest, last := UpdateForest(update[..|update| - 1], thread), update[|update| - 1];
    if last.thread == thread then Merge(rest, ItemsForest([], last.items)) else rest
  }

  lemma UpdateGrows(update: seq<ThreadItems>, last: ThreadItems)
    ensures forall t ::
      UpdateForest(update + [last], t)
      == if t == last.thread then Merge(UpdateForest(update, t), ItemsForest([], last.items))
         else UpdateForest(update, t)
  {
    assert (update + [last])[..|update|] == update;
  }

  method SerializeThread(analyzer: Analyzers.Analyzer, thread: ThreadId) returns (items: seq<Item>)
    requires analyzer.Valid() && thread in analyzer.threads
    ensures thread in analyzer.known && ItemsForest([], items) == analyzer.known[thread].forest
  {
    hide Below, ItemsForest, CallGraph.Gathered, CallGraph.Valid, Analyzers.Analyzer.Valid;
    var graph := analyzer.threads[thread].graph;
    GraphOf(analyzer, thread);
    RootIsNowhere(graph);
    items := Serialize(graph, graph.root);
    NothingAbove(graph.Gathered());
  }

  lemma GraphOf(analyzer: Analyzers.Analyzer, thread: ThreadId)
    requires analyzer.Valid() && thread in analyzer.threads
    ensures thread in analyzer.known && analyzer.threads[thread].graph.Valid()
    ensures analyzer.threads[thread].graph.Gathered() == analyzer.known[thread].forest
  {
    hide CallGraph.Gathered, CallGraph.Valid, Analyzers.Separate;
    assert Analyzers.Holds(analyzer.parts[thread], analyzer.threads[thread], analyzer.overhead, analyzer.known[thread]);
  }

  lemma NothingAbove(f: Forest)
    requires [] !in f
    ensures Below(f, []) == f
  {
  }

  lemma RootIsNowhere(graph: CallGraph)
    requires graph.Valid()
    ensures graph.root.path == [] && [] in graph.live && graph.live[[]] == graph.root
    ensures [] !in graph.Gathered()
  {
  }

  /** Writes the threads in whatever order the container yields them. */
  method SerializeAll(analyzer: Analyzers.Analyzer) returns (update: seq<ThreadItems>)
    requires analyzer.Valid()
    ensures forall t :: UpdateForest(update, t) == Analyzers.StateOf(analyzer.known, t).forest
  {
    hide Merge, ItemsForest, UpdateForest, Analyzers.Analyzer.Valid;
    update := [];
    assert forall t :: UpdateForest([], t) == map[] by {
      NothingSaid();
    }
    analyzer.KeysKnown();
    var rest := analyzer.threads.Keys;
    while rest != {}
      invariant rest <= analyzer.threads.Keys
      invariant forall t ::
        UpdateForest(update, t) == if t in rest then map[] else Analyzers.StateOf(analyzer.known, t).forest
    {
      var t :| t in rest;
      var items := SerializeThread(analyzer, t);
      UpdateGrows(update, ThreadItems(t, items));
      MergeEmpty(ItemsForest([], items));
      update := update + [ThreadItems(t, items)];
      rest := rest - {t};
    }
  }

  lemma NothingSaid()
    ensures forall t :: UpdateForest([], t) == map[]
  {
  }

  /** The other side reads thread by thread, starting from no record. */
  method ReadAll(table: StatisticsTable, update: seq<ThreadItems>)
    requires table.Valid()
    modifies table
    ensures table.Valid()
    ensures forall t :: table.Forest(t) == Merge(old(table.Forest(t)), UpdateForest(update, t))
  {
    hide Merge, ThreadForest, Hierarchical, ItemsForest, UpdateForest, PathTo;
    NothingSaid();
    forall t ensures Merge(table.Forest(t), map[]) == table.Forest(t) {
      MergeEmpty(table.Forest(t));
    }
    assert update[..0] == [] && update[..|update|] == update;
    for i := 0 to |update|
      invariant table.Valid()
      invariant forall t :: table.Forest(t) == Merge(old(table.Forest(t)), UpdateForest(update[..i], t))
    {
      var thread := update[i].thread;
      RootPath(table);
      table.ReadItems(thread, 0, update[i].items);
      UpdateGrows(update[..i], update[i]);
      assert update[..i] + [update[i]] == update[..i + 1];
      MergeAssociates(old(table.Forest(thread)), UpdateForest(update[..i], thread), ItemsForest([], update[i].items));
    }
  }

  lemma RootPath(table: StatisticsTable)
    requires table.Valid()
    ensures table.PathOf(0) == []
  {
  }

  /** One update of the frontend: write all threads, read on the other side, clear all threads. */
  method SendUpdate(analyzer: Analyzers.Analyzer, table: StatisticsTable)
    requires analyzer.Valid() && table.Valid() && table !in analyzer.Repr
    modifies analyzer.Repr, table
    ensures analyzer.Valid() && table.Valid() && analyzer.Repr == old(analyzer.Repr)
    ensures analyzer.known == Analyzers.Cleared(old(analyzer.known))
    ensures forall t :: table.Forest(t) == Merge(old(table.Forest(t)), Analyzers.StateOf(old(analyzer.known), t).forest)
  {
    hide Merge, ThreadForest, Hierarchical, UpdateForest, Analyzers.Analyzer.Valid, Analyzers.Cleared, Analyzers.StateOf;
    hide StatisticsTable.Valid, StatisticsTable.Forest;
    var update := SerializeAll(analyzer);
    ReadAll(table, update);
    analyzer.Clear();
  }

  // ---- A whole session ----

  ghost predicate SessionNested(arrivals: seq<Analyzers.Arrival>, thread: ThreadId) {
    WellNested(1, Calls(Analyzers.Mine(arrivals, thread)))
  }

  ghost predicate AllWellNested(arrivals: seq<Analyzers.Arrival>) {
    forall t :: SessionNested(arrivals, t)
  }

  /** What a thread's session has shipped. */
  ghost function Sent(arrivals: seq<Analyzers.Arrival>, thread: ThreadId, overhead: Overhead): Forest
    requires AllWellNested(arrivals)
  {
    assert SessionNested(arrivals, thread);
    MergeAll(Play(Frame(0, 0, 0, 0), Analyzers.Mine(arrivals, thread), overhead).shipped)
  }

  ghost function Held(arrivals: seq<Analyzers.Arrival>, thread: ThreadId, overhead: Overhead): State
    requires AllWellNested(arrivals)
  {
    assert SessionNested(arrivals, thread);
    Play(Frame(0, 0, 0, 0), Analyzers.Mine(arrivals, thread), overhead).state
  }

  /** The analysis of all a thread's calls as one trace. */
  ghost function Uncut(arrivals: seq<Analyzers.Arrival>, thread: ThreadId, overhead: Overhead): State
    requires AllWellNested(arrivals)
  {
    assert SessionNested(arrivals, thread);
    Run(State([Frame(0, 0, 0, 0)], map[]), Calls(Analyzers.Mine(arrivals, thread)), overhead)
  }

  lemma NothingArrived(overhead: Overhead)
    ensures AllWellNested([]) && Analyzers.TakenAll([], overhead) == map[]
    ensures forall t :: Sent([], t, overhead) == map[]
  {
  }

  lemma WellNestedBefore(arrivals: seq<Analyzers.Arrival>)
    requires AllWellNested(arrivals) && arrivals != []
    ensures AllWellNested(arrivals[..|arrivals| - 1])
  {
    hide WellNested, Calls, Analyzers.Mine;
    var rest := arrivals[..|arrivals| - 1];
    forall t ensures SessionNested(rest, t) {
      assert SessionNested(arrivals, t);
      Analyzers.MineExtends(arrivals, t);
    }
  }

  lemma {:induction false} WellNestedUpTo(arrivals: seq<Analyzers.Arrival>, i: nat)
    requires AllWellNested(arrivals) && i <= |arrivals|
    ensures AllWellNested(arrivals[..i])
    decreases |arrivals|
  {
    hide AllWellNested;
    if i == |arrivals| {
      assert arrivals[..i] == arrivals;
    } else {
      WellNestedBefore(arrivals);
      WellNestedUpTo(arrivals[..|arrivals| - 1], i);
      assert arrivals[..|arrivals| - 1][..i] == arrivals[..i];
    }
  }

  lemma PlayShips(events: seq<Event>, e: Event, overhead: Overhead)
    requires WellNested(1, Calls(events + [e]))
    ensures WellNested(1, Calls(events))
    ensures var bottom := Frame(0, 0, 0, 0);
      var before, after := Play(bottom, events, overhead), Play(bottom, events + [e], overhead);
      MergeAll(after.shipped)
      == if e.Ship? then Merge(MergeAll(before.shipped), before.state.forest) else MergeAll(before.shipped)
  {
    hide WellNested, Merge, Update;
    var all := events + [e];
    assert all[..|events|] == events && all[..|all|] == all;
    PlayExtends(Frame(0, 0, 0, 0), all, |events|, overhead);
  }

  /** What one more arrival does, for all threads at once. */
  lemma OneMoreArrival(arrivals: seq<Analyzers.Arrival>, last: Analyzers.Arrival, overhead: Overhead)
    requires AllWellNested(arrivals + [last])
    ensures AllWellNested(arrivals)
    ensures Analyzers.TakenAll(arrivals + [last], overhead)
         == Analyzers.Taken(Analyzers.TakenAll(arrivals, overhead), last, overhead)
    ensures last.Arrived? ==> WellNested(|Held(arrivals, last.thread, overhead).frames|, last.calls)
    ensures forall t ::
      Sent(arrivals + [last], t, overhead)
      == if last.Shipped? then Merge(Sent(arrivals, t, overhead), Held(arrivals, t, overhead).forest)
         else Sent(arrivals, t, overhead)
  {
    hide WellNested, Calls, Analyzers.Mine, Analyzers.TakenAll, Analyzers.Taken, Play, Merge, MergeAll;
    var now := arrivals + [last];
    assert now[..|now| - 1] == arrivals && now[|now| - 1] == last;
    WellNestedBefore(now);
    Analyzers.MineLast(now, 0, overhead);
    forall t
      ensures Sent(now, t, overhead)
           == if last.Shipped? then Merge(Sent(arrivals, t, overhead), Held(arrivals, t, overhead).forest)
              else Sent(arrivals, t, overhead)
      ensures last.Arrived? && last.thread == t ==> WellNested(|Held(arrivals, t, overhead).frames|, last.calls)
    {
      assert SessionNested(now, t) && SessionNested(arrivals, t);
      Analyzers.MineLast(now, t, overhead);
      var mine := Analyzers.Mine(arrivals, t);
      if last.Shipped? {
        PlayShips(mine, Ship, overhead);
      } else if last.thread == t {
        PlayShips(mine, Batch(last.calls), overhead);
        Analyzers.PlayLast(mine, Batch(last.calls), overhead);
      }
    }
  }

  /**
    A whole profiling session: batches of any threads and updates of the frontend, in any order. At any moment the
    frontend's table, with what the analyzer still holds, is the analysis of the uncut trace of each thread.
  */
  method Profile(overhead: Overhead, arrivals: seq<Analyzers.Arrival>)
      returns (analyzer: Analyzers.Analyzer, table: StatisticsTable)
    requires AllWellNested(arrivals)
    ensures analyzer.Valid() && table.Valid()
    ensures forall t :: Analyzers.StateOf(analyzer.known, t).frames == Uncut(arrivals, t, overhead).frames
    ensures forall t ::
      Merge(table.Forest(t), Analyzers.StateOf(analyzer.known, t).forest) == Uncut(arrivals, t, overhead).forest
  {
    hide Merge, ThreadForest, Hierarchical, Update, Play, Calls, WellNested, MergeAll, Run;
    hide AllWellNested, Sent, Held, Uncut;
    hide Analyzers.Mine, Analyzers.TakenAll, Analyzers.Analyzer.Valid, Analyzers.StateOf, Analyzers.Cleared;
    hide StatisticsTable.Valid, StatisticsTable.Forest;
    NothingArrived(overhead);
    analyzer := new Analyzers.Analyzer(overhead);
    table := new StatisticsTable();
    assert arrivals[..0] == [] && arrivals[..|arrivals|] == arrivals;
    for i := 0 to |arrivals|
      invariant analyzer.Valid() && table.Valid() && analyzer.overhead == overhead
      invariant fresh(analyzer.Repr) && fresh(table) && table !in analyzer.Repr
      invariant AllWellNested(arrivals[..i])
      invariant analyzer.known == Analyzers.TakenAll(arrivals[..i], overhead)
      invariant forall t :: table.Forest(t) == Sent(arrivals[..i], t, overhead)
    {
      WellNestedUpTo(arrivals, i + 1);
      assert arrivals[..i] + [arrivals[i]] == arrivals[..i + 1];
      OneMoreArrival(arrivals[..i], arrivals[i], overhead);
      AllHeld(arrivals[..i], overhead);
      if arrivals[i].Arrived? {
        analyzer.AcceptCalls(arrivals[i].thread, arrivals[i].calls);
      } else {
        SendUpdate(analyzer, table);
      }
    }
    AllHeld(arrivals, overhead);
    AllAccountedFor(arrivals, overhead);
  }

  lemma AllHeld(arrivals: seq<Analyzers.Arrival>, overhead: Overhead)
    requires AllWellNested(arrivals)
    ensures forall t :: Analyzers.StateOf(Analyzers.TakenAll(arrivals, overhead), t) == Held(arrivals, t, overhead)
  {
    hide WellNested, Calls, Analyzers.Mine, Analyzers.TakenAll, Analyzers.StateOf, Play;
    forall t ensures Analyzers.StateOf(Analyzers.TakenAll(arrivals, overhead), t) == Held(arrivals, t, overhead) {
      assert SessionNested(arrivals, t);
      Analyzers.ThreadsDoNotMix(arrivals, overhead, t);
    }
  }

  lemma AllAccountedFor(arrivals: seq<Analyzers.Arrival>, overhead: Overhead)
    requires AllWellNested(arrivals)
    ensures forall t :: Held(arrivals, t, overhead).frames == Uncut(arrivals, t, overhead).frames
    ensures forall t ::
      Merge(Sent(arrivals, t, overhead), Held(arrivals, t, overhead).forest) == Uncut(arrivals, t, overhead).forest
  {
    hide WellNested, Calls, Analyzers.Mine, Play, Merge, MergeAll, Run;
    forall t
      ensures Held(arrivals, t, overhead).frames == Uncut(arrivals, t, overhead).frames
      ensures Merge(Sent(arrivals, t, overhead), Held(arrivals, t, overhead).forest)
           == Uncut(arrivals, t, overhead).forest
    {
      assert SessionNested(arrivals, t);
      NothingIsLost(Frame(0, 0, 0, 0), Analyzers.Mine(arrivals, t), overhead);
    }
  }
}
