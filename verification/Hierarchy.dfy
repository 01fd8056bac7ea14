/**
  Ordering the rows of a call tree: siblings by a column, ties by id, and every
  row right before the rows of the calls made from it.
*/
module Hierarchy {
  import opened Statistics
  import opened CallTables

  /** Parents have smaller ids; a parent that is not there makes its record a top one. */
  ghost predicate Acyclic(records: Records) {
    forall id :: id in records ==>
      records[id].id == id && (records[id].parentId in records ==> records[id].parentId < id)
  }

  /** The ids on the way from a top record to this one. */
  ghost function IdPath(records: Records, id: Id): (path: seq<Id>)
    requires Acyclic(records) && id in records
    ensures path != [] && path[|path| - 1] == id
    ensures forall i :: i in path ==> i in records
    decreases id
  {
    var parent := records[id].parentId;
    (if parent in records then IdPath(records, parent) else []) + [id]
  }

  ghost function Callers(records: Records, id: Id): seq<Id>
    requires Acyclic(records) && id in records
  {
    var parent := records[id].parentId;
    if parent in records then IdPath(records, parent) else []
  }

  /** Calls to the same function among the callers of this one. */
  function Reentrance(records: Records, id: Id, address: Address): nat
    requires Acyclic(records) && id in records
    decreases id
  {
    var parent := records[id].parentId;
    if parent !in records then 0 else
    Reentrance(records, parent, address) + if records[parent].address == address then 1 else 0
  }

  ghost function SameFunction(records: Records, id: Id, address: Address): set<Id>
    requires Acyclic(records) && id in records
  {
    set c | c in Callers(records, id) && records[c].address == address
  }

  /** Reentrance is how many of the callers are calls to the function. */
  lemma {:induction false} ReentranceCounts(records: Records, id: Id, address: Address)
    requires Acyclic(records) && id in records
    ensures Reentrance(records, id, address) == |SameFunction(records, id, address)|
    ensures forall c :: c in Callers(records, id) ==> c < id
    decreases id
  {
    var parent := records[id].parentId;
    if parent in records {
      ReentranceCounts(records, parent, address);
      var further := SameFunction(records, parent, address);
      assert parent !in further;
      assert SameFunction(records, id, address)
          == further + if records[parent].address == address then {parent} else {};
    }
  }

  ghost function Reversed(s: seq<Id>): seq<Id> {
    if s == [] then [] else Reversed(s[1..]) + [s[0]]
  }

  lemma {:induction false} ReversedAppend(s: seq<Id>, x: Id)
    ensures Reversed(s + [x]) == [x] + Reversed(s)
    ensures Reversed([]) == []
  {
    if s != [] {
      assert (s + [x])[1..] == s[1..] + [x];
      ReversedAppend(s[1..], x);
    }
  }

  method Reverse(s: seq<Id>) returns (r: seq<Id>)
    ensures r == Reversed(s)
  {
    r := [];
    assert s[..0] == [] && s[..|s|] == s;
    for i := 0 to |s|
      invariant r == Reversed(s[..i])
    {
      ReversedAppend(s[..i], s[i]);
      assert s[..i + 1] == s[..i] + [s[i]];
      r := [s[i]] + r;
    }
  }

  /** One step up the hierarchy. */
  lemma Climb(records: Records, id: Id, address: Address)
    requires Acyclic(records) && id in records
    ensures IdPath(records, id) == Callers(records, id) + [id]
    ensures var parent := records[id].parentId;
      if parent in records then
        parent < id && Callers(records, id) == Callers(records, parent) + [parent]
        && Reentrance(records, id, address)
           == Reentrance(records, parent, address) + if records[parent].address == address then 1 else 0
      else
        Callers(records, id) == [] && Reentrance(records, id, address) == 0
  {
  }

  /** Fills in the cached path and reentrance of a record. */
  method InitializePath(records: Records, id: Id) returns (path: seq<Id>, reentrance: nat)
    requires Acyclic(records) && id in records
    ensures path == IdPath(records, id)
    ensures reentrance == Reentrance(records, id, records[id].address)
  {
    hide Reversed, IdPath, Callers, Reentrance, Acyclic;
    var item := id;
    path, reentrance := [id], 0;
    ReversedAppend([], id);
    assert [] + [id] == [id];
    Climb(records, id, records[id].address);
    while records[item].parentId in records
      invariant item in records
      invariant IdPath(records, id) == Callers(records, item) + Reversed(path)
      invariant Reentrance(records, id, records[id].address)
             == Reentrance(records, item, records[id].address) + reentrance
      decreases item
    {
      var parent := records[item].parentId;
      ReversedAppend(path, parent);
      Climb(records, item, records[id].address);
      path := path + [parent];
      reentrance := reentrance + if records[parent].address == records[id].address then 1 else 0;
      item := parent;
    }
    Climb(records, item, records[id].address);
    path := Reverse(path);
  }

  // ---- The order ----

  type Comparer = (CallStatistics, CallStatistics) -> int

  ghost predicate Consistent(compare: Comparer) {
    && (forall a: CallStatistics :: compare(a, a) == 0)
    && (forall a: CallStatistics, b: CallStatistics :: compare(a, b) < 0 <==> compare(b, a) > 0)
    && (forall a: CallStatistics, b: CallStatistics, c: CallStatistics ::
          compare(a, b) <= 0 && compare(b, c) <= 0 ==> compare(a, c) <= 0)
  }

  predicate TotalLess(compare: Comparer, a: CallStatistics, b: CallStatistics) {
    var result := compare(a, b);
    if result != 0 then result < 0 else a.id < b.id
  }

  /** The first fork decides; short of a fork, the shallower row comes first. */
  predicate PathLess(records: Records, compare: Comparer, p: seq<Id>, q: seq<Id>)
    requires forall i :: i in p ==> i in records
    requires forall i :: i in q ==> i in records
  {
    if p == [] || q == [] then |p| < |q| else
    if p[0] != q[0] then TotalLess(compare, records[p[0]], records[q[0]]) else
    PathLess(records, compare, p[1..], q[1..])
  }

  ghost predicate Less(records: Records, compare: Comparer, a: Id, b: Id)
    requires Acyclic(records) && a in records && b in records
  {
    if records[a].parentId == records[b].parentId then TotalLess(compare, records[a], records[b])
    else PathLess(records, compare, IdPath(records, a), IdPath(records, b))
  }

  lemma {:induction false} PathLessFrom(records: Records, compare: Comparer, p: seq<Id>, q: seq<Id>, i: nat)
    requires forall i :: i in p ==> i in records
    requires forall i :: i in q ==> i in records
    requires i <= |p| && i <= |q| && p[..i] == q[..i]
    ensures PathLess(records, compare, p, q) == PathLess(records, compare, p[i..], q[i..])
    decreases i
  {
    if i == 0 {
      assert p[0..] == p && q[0..] == q;
    } else {
      assert p[0] == p[..i][0] == q[..i][0] == q[0];
      assert p[1..][..i - 1] == p[..i][1..] == q[..i][1..] == q[1..][..i - 1];
      PathLessFrom(records, compare, p[1..], q[1..], i - 1);
      assert p[1..][i - 1..] == p[i..] && q[1..][i - 1..] == q[i..];
    }
  }

  lemma ForkDecides(records: Records, compare: Comparer, p: seq<Id>, q: seq<Id>, i: nat)
    requires forall i :: i in p ==> i in records
    requires forall i :: i in q ==> i in records
    requires i <= |p| && i <= |q| && p[..i] == q[..i]
    ensures i < |p| && i < |q| && p[i] != q[i] ==>
      PathLess(records, compare, p, q) == TotalLess(compare, records[p[i]], records[q[i]])
    ensures i == |p| || i == |q| ==> PathLess(records, compare, p, q) == (|p| < |q|)
  {
    PathLessFrom(records, compare, p, q, i);
  }

  method HierarchicalLess(records: Records, compare: Comparer, lhs: Id, rhs: Id) returns (less: bool)
    requires Acyclic(records) && lhs in records && rhs in records
    ensures less == Less(records, compare, lhs, rhs)
  {
    hide PathLess, Acyclic, TotalLess, IdPath;
    if records[lhs].parentId == records[rhs].parentId {
      return TotalLess(compare, records[lhs], records[rhs]);
    }
    var lhsPath, _ := InitializePath(records, lhs);
    var rhsPath, _ := InitializePath(records, rhs);
    var minLength := if |lhsPath| < |rhsPath| then |lhsPath| else |rhsPath|;
    var i := 0;
    while i != minLength
      invariant 0 <= i <= minLength && lhsPath[..i] == rhsPath[..i]
      decreases minLength - i
    {
      ForkDecides(records, compare, lhsPath, rhsPath, i);
      if lhsPath[i] != rhsPath[i] {
        return TotalLess(compare, records[lhsPath[i]], records[rhsPath[i]]);
      }
      assert lhsPath[..i + 1] == lhsPath[..i] + [lhsPath[i]];
      assert rhsPath[..i + 1] == rhsPath[..i] + [rhsPath[i]];
      i := i + 1;
    }
    ForkDecides(records, compare, lhsPath, rhsPath, i);
    less := |lhsPath| < |rhsPath|;
  }

  /** The shortcut for siblings agrees with the scan of whole paths. */
  lemma ShortcutAgrees(records: Records, compare: Comparer, a: Id, b: Id)
    requires Acyclic(records) && a in records && b in records && Consistent(compare)
    requires records[a].parentId == records[b].parentId
    ensures TotalLess(compare, records[a], records[b])
         == PathLess(records, compare, IdPath(records, a), IdPath(records, b))
  {
    var p, q := IdPath(records, a), IdPath(records, b);
    var n := |p| - 1;
    assert p[..n] == q[..n];
    PathLessFrom(records, compare, p, q, n);
    assert p[n..] == [a] && q[n..] == [b];
  }

  lemma LessIsPathLess(records: Records, compare: Comparer, a: Id, b: Id)
    requires Acyclic(records) && a in records && b in records && Consistent(compare)
    ensures Less(records, compare, a, b) == PathLess(records, compare, IdPath(records, a), IdPath(records, b))
  {
    if records[a].parentId == records[b].parentId {
      ShortcutAgrees(records, compare, a, b);
    }
  }

  lemma TotalLessOneWay(compare: Comparer, a: CallStatistics, b: CallStatistics)
    requires Consistent(compare)
    ensures !(TotalLess(compare, a, b) && TotalLess(compare, b, a))
  {
    assert compare(a, b) < 0 <==> compare(b, a) > 0;
    assert compare(b, a) < 0 <==> compare(a, b) > 0;
  }

  lemma TotalLessTransitive(compare: Comparer, a: CallStatistics, b: CallStatistics, c: CallStatistics)
    requires Consistent(compare) && TotalLess(compare, a, b) && TotalLess(compare, b, c)
    ensures TotalLess(compare, a, c)
  {
    assert compare(a, c) <= 0;
    if compare(a, c) == 0 {
      assert compare(c, a) <= 0;
      assert compare(b, a) <= 0 && compare(c, b) <= 0;
    }
  }

  lemma {:induction false} PathLessTransitive(records: Records, compare: Comparer, p: seq<Id>, q: seq<Id>, r: seq<Id>)
    requires Acyclic(records) && Consistent(compare)
    requires forall i :: i in p || i in q || i in r ==> i in records
    requires PathLess(records, compare, p, q) && PathLess(records, compare, q, r)
    ensures PathLess(records, compare, p, r)
    decreases |p|
  {
    if p != [] && q != [] && r != [] {
      if p[0] == q[0] == r[0] {
        PathLessTransitive(records, compare, p[1..], q[1..], r[1..]);
      } else if p[0] != q[0] && q[0] != r[0] {
        TotalLessTransitive(compare, records[p[0]], records[q[0]], records[r[0]]);
        assert compare(records[p[0]], records[p[0]]) == 0;
      }
    }
  }

  lemma {:induction false} PathLessTrichotomy(records: Records, compare: Comparer, p: seq<Id>, q: seq<Id>)
    requires Acyclic(records) && Consistent(compare)
    requires forall i :: i in p || i in q ==> i in records
    ensures p == q ==> !PathLess(records, compare, p, q)
    ensures p != q ==> PathLess(records, compare, p, q) != PathLess(records, compare, q, p)
    decreases |p|
  {
    if p != [] && q != [] && p[0] == q[0] {
      PathLessTrichotomy(records, compare, p[1..], q[1..]);
      assert p == [p[0]] + p[1..] && q == [q[0]] + q[1..];
    } else if p != [] && q != [] {
      assert compare(records[p[0]], records[q[0]]) < 0 <==> compare(records[q[0]], records[p[0]]) > 0;
      assert compare(records[q[0]], records[p[0]]) < 0 <==> compare(records[p[0]], records[q[0]]) > 0;
    }
  }

  /** Rows of any depth are strictly and totally ordered. */
  lemma StrictTotalOrder(records: Records, compare: Comparer, a: Id, b: Id, c: Id)
    requires Acyclic(records) && a in records && b in records && c in records && Consistent(compare)
    ensures !Less(records, compare, a, a)
    ensures a != b ==> Less(records, compare, a, b) != Less(records, compare, b, a)
    ensures Less(records, compare, a, b) && Less(records, compare, b, c) ==> Less(records, compare, a, c)
  {
    var p, q, r := IdPath(records, a), IdPath(records, b), IdPath(records, c);
    LessIsPathLess(records, compare, a, a);
    LessIsPathLess(records, compare, a, b);
    LessIsPathLess(records, compare, b, a);
    LessIsPathLess(records, compare, b, c);
    LessIsPathLess(records, compare, a, c);
    PathLessTrichotomy(records, compare, p, p);
    PathLessTrichotomy(records, compare, p, q);
    if PathLess(records, compare, p, q) && PathLess(records, compare, q, r) {
      PathLessTransitive(records, compare, p, q, r);
    }
  }

  /** The row of a call made, however indirectly, from the call of another row. */
  ghost predicate Descendant(records: Records, ancestor: Id, id: Id)
    requires Acyclic(records) && id in records
    decreases id
  {
    var parent := records[id].parentId;
    parent in records && (parent == ancestor || Descendant(records, ancestor, parent))
  }

  lemma {:induction false} DescendantByPath(records: Records, a: Id, d: Id)
    requires Acyclic(records) && a in records && d in records
    ensures Descendant(records, a, d) <==> IdPath(records, a) < IdPath(records, d)
    decreases d
  {
    var parent := records[d].parentId;
    var p, q := IdPath(records, a), IdPath(records, d);
    if parent in records {
      var front := IdPath(records, parent);
      assert q == front + [d] && q[..|front|] == front;
      DescendantByPath(records, a, parent);
      if p < q {
        assert p <= front by {
          assert p == q[..|p|] == front[..|p|];
        }
        if |p| == |front| {
          assert p == front;
        }
      }
      if p <= front {
        assert p == front[..|p|] == q[..|p|];
      }
    }
  }

  lemma {:induction false} PrefixLess(records: Records, compare: Comparer, p: seq<Id>, q: seq<Id>)
    requires forall i :: i in p || i in q ==> i in records
    requires p < q
    ensures PathLess(records, compare, p, q)
  {
    assert p[..|p|] == q[..|p|];
    PathLessFrom(records, compare, p, q, |p|);
  }

  lemma {:induction false} PathConvex(records: Records, compare: Comparer, p: seq<Id>, x: seq<Id>, q: seq<Id>)
    requires Acyclic(records) && Consistent(compare)
    requires forall i :: i in p || i in x || i in q ==> i in records
    requires p <= q && PathLess(records, compare, p, x) && PathLess(records, compare, x, q)
    ensures p <= x
    decreases |p|
  {
    if p != [] {
      assert p[0] == q[0] && p[1..] <= q[1..] && x != [];
      TotalLessOneWay(compare, records[p[0]], records[x[0]]);
      if p[0] == x[0] {
        PathConvex(records, compare, p[1..], x[1..], q[1..]);
        assert p == [p[0]] + p[1..] && x == [x[0]] + x[1..];
      }
    }
  }

  /** Every row precedes its descendants, and whatever comes in between is a descendant too. */
  lemma DepthFirst(records: Records, compare: Comparer, a: Id, d: Id, x: Id)
    requires Acyclic(records) && a in records && d in records && x in records && Consistent(compare)
    requires Descendant(records, a, d)
    ensures Less(records, compare, a, d)
    ensures Less(records, compare, a, x) && Less(records, compare, x, d) ==> Descendant(records, a, x)
  {
    var p, q, r := IdPath(records, a), IdPath(records, d), IdPath(records, x);
    DescendantByPath(records, a, d);
    DescendantByPath(records, a, x);
    LessIsPathLess(records, compare, a, d);
    LessIsPathLess(records, compare, a, x);
    LessIsPathLess(records, compare, x, d);
    PrefixLess(records, compare, p, q);
    if PathLess(records, compare, p, r) && PathLess(records, compare, r, q) {
      PathConvex(records, compare, p, r, q);
      if p == r {
        PathLessTrichotomy(records, compare, p, r);
        assert false;
      }
    }
  }

  /** However the rows are sorted, each row is directly followed by its descendants. */
  lemma SortedRows(records: Records, compare: Comparer, rows: seq<Id>, i: nat, j: nat, k: nat)
    requires Acyclic(records) && Consistent(compare) && forall row :: row in rows ==> row in records
    requires forall m, n :: 0 <= m < n < |rows| ==> Less(records, compare, rows[m], rows[n])
    requires i < |rows| && j < |rows| && Descendant(records, rows[i], rows[j])
    ensures i < j
    ensures i < k <= j ==> Descendant(records, rows[i], rows[k])
  {
    DepthFirst(records, compare, rows[i], rows[j], rows[if i < k <= j then k else j]);
    StrictTotalOrder(records, compare, rows[i], rows[j], rows[i]);
    StrictTotalOrder(records, compare, rows[j], rows[i], rows[j]);
  }

  // ---- What the comparer decides ----

  /** Rows of calls made from the same call are in the order of the column, and by id where that does not tell. */
  lemma SiblingsByColumn(records: Records, compare: Comparer, a: Id, b: Id)
    requires Acyclic(records) && a in records && b in records && records[a].parentId == records[b].parentId
    ensures compare(records[a], records[b]) < 0 ==> Less(records, compare, a, b)
    ensures compare(records[a], records[b]) > 0 ==> !Less(records, compare, a, b)
    ensures compare(records[a], records[b]) == 0 ==> (Less(records, compare, a, b) <==> a < b)
  {
  }

  ghost predicate SelfOrDescendant(records: Records, ancestor: Id, id: Id)
    requires Acyclic(records) && id in records
  {
    id == ancestor || Descendant(records, ancestor, id)
  }

  /** Calls made from the same call, or from none that is there. */
  predicate SameCaller(records: Records, x: Id, y: Id)
    requires x in records && y in records
  {
    || records[x].parentId == records[y].parentId
    || (records[x].parentId !in records && records[y].parentId !in records)
  }

  lemma SelfOrDescendantByPath(records: Records, x: Id, a: Id)
    requires Acyclic(records) && x in records && a in records
    ensures SelfOrDescendant(records, x, a) <==> IdPath(records, x) <= IdPath(records, a)
  {
    var p, q := IdPath(records, x), IdPath(records, a);
    DescendantByPath(records, x, a);
    if p <= q && !(p < q) {
      assert p == q && p[|p| - 1] == x && q[|q| - 1] == a;
    }
  }

  /** Rows of different branches are in the order of the calls these branches start with. */
  lemma BranchesByColumn(records: Records, compare: Comparer, a: Id, b: Id, x: Id, y: Id)
    requires Acyclic(records) && a in records && b in records && x in records && y in records && Consistent(compare)
    requires x != y && SameCaller(records, x, y)
    requires SelfOrDescendant(records, x, a) && SelfOrDescendant(records, y, b)
    ensures compare(records[x], records[y]) < 0 ==> Less(records, compare, a, b)
    ensures compare(records[x], records[y]) > 0 ==> !Less(records, compare, a, b)
    ensures compare(records[x], records[y]) == 0 ==> (Less(records, compare, a, b) <==> x < y)
  {
    var p, q := IdPath(records, a), IdPath(records, b);
    var front := Callers(records, x);
    assert IdPath(records, x) == front + [x] && IdPath(records, y) == front + [y];
    assert records[x].id == x && records[y].id == y;
    hide IdPath, Callers, Consistent, Less, PathLess, Acyclic, SelfOrDescendant;
    LessIsPathLess(records, compare, a, b);
    SelfOrDescendantByPath(records, x, a);
    SelfOrDescendantByPath(records, y, b);
    ForkAfter(p, q, front, x, y);
    ForkDecides(records, compare, p, q, |front|);
  }

  lemma ForkAfter(p: seq<Id>, q: seq<Id>, front: seq<Id>, x: Id, y: Id)
    requires front + [x] <= p && front + [y] <= q
    ensures |p| > |front| && |q| > |front| && p[..|front|] == q[..|front|]
    ensures p[|front|] == x && q[|front|] == y
  {
    var n := |front|;
    assert p[..n] == (front + [x])[..n] == front == (front + [y])[..n] == q[..n];
    assert p[n] == (front + [x])[n] && q[n] == (front + [y])[n];
  }

  lemma {:induction false} ChildTowards(records: Records, caller: Id, id: Id) returns (child: Id)
    requires Acyclic(records) && id in records && Descendant(records, caller, id)
    ensures child in records && records[child].parentId == caller && caller in records
    ensures SelfOrDescendant(records, child, id)
    decreases id
  {
    child := id;
    if records[id].parentId != caller {
      child := ChildTowards(records, caller, records[id].parentId);
    }
  }

  lemma {:induction false} TopOf(records: Records, id: Id) returns (top: Id)
    requires Acyclic(records) && id in records
    ensures top in records && records[top].parentId !in records && SelfOrDescendant(records, top, id)
    decreases id
  {
    top := id;
    if records[id].parentId in records {
      top := TopOf(records, records[id].parentId);
    }
  }

  /** Unless one row descends from the other, there is a call they branch off from, or they are of different trees. */
  lemma {:induction false} BranchesPart(records: Records, a: Id, b: Id) returns (x: Id, y: Id)
    requires Acyclic(records) && a in records && b in records
    requires !SelfOrDescendant(records, a, b) && !SelfOrDescendant(records, b, a)
    ensures x in records && y in records && x != y && SameCaller(records, x, y)
    ensures SelfOrDescendant(records, x, a) && SelfOrDescendant(records, y, b)
    decreases a
  {
    var parent := records[a].parentId;
    if parent !in records {
      x := a;
      y := TopOf(records, b);
    } else if SelfOrDescendant(records, parent, b) {
      x := a;
      y := ChildTowards(records, parent, b);
    } else {
      x, y := BranchesPart(records, parent, b);
    }
  }
}
