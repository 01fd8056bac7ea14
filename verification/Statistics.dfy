/**
  What is measured about a function, and forests of such measurements: the call
  tree of one thread is seen as a map from a path of callees to the statistics
  of the node that path leads to.
*/
module Statistics {

  /** The address of a function; zero marks the end of a call in a trace. */
  type Address = nat

  /** The longest call starts at zero and is only ever raised. */
  datatype FunctionStatistics = FunctionStatistics(
    timesCalled: nat,
    inclusiveTime: int,
    exclusiveTime: int,
    maxCallTime: nat)

  function Zero(): FunctionStatistics {
    FunctionStatistics(0, 0, 0, 0)
  }

  function Max(a: nat, b: int): (m: nat)
    ensures m == a || m == b
    ensures a <= m && b <= m
  {
    if b > a then b else a
  }

  /** Accounts for one more call. */
  function AddCall(s: FunctionStatistics, inclusive: int, exclusive: int): FunctionStatistics {
    FunctionStatistics(s.timesCalled + 1, s.inclusiveTime + inclusive, s.exclusiveTime + exclusive,
                       Max(s.maxCallTime, inclusive))
  }

  /** Accounts for everything another statistics accounts for. */
  function Add(s: FunctionStatistics, t: FunctionStatistics): FunctionStatistics {
    FunctionStatistics(s.timesCalled + t.timesCalled, s.inclusiveTime + t.inclusiveTime,
                       s.exclusiveTime + t.exclusiveTime, Max(s.maxCallTime, t.maxCallTime))
  }

  type Path = seq<Address>
  type Forest = map<Path, FunctionStatistics>

  function At(f: Forest, p: Path): FunctionStatistics {
    if p in f then f[p] else Zero()
  }

  /** Node by node, what either forest accounts for. */
  function Merge(f: Forest, g: Forest): Forest {
    map p | p in f.Keys + g.Keys :: Add(At(f, p), At(g, p))
  }

  lemma MergeAt(f: Forest, g: Forest, p: Path)
    ensures At(Merge(f, g), p) == Add(At(f, p), At(g, p))
  {
  }

  lemma MergeKeys(f: Forest, g: Forest)
    ensures Merge(f, g).Keys == f.Keys + g.Keys
  {
  }

  /** Merging a single node touches that node alone. */
  lemma MergeOne(f: Forest, p: Path, s: FunctionStatistics)
    ensures Merge(f, map[p := s]) == f[p := Add(At(f, p), s)]
  {
    assert Merge(f, map[p := s]).Keys == f.Keys + {p};
  }

  /** A completed call counts the same whether it is added to its node, or a forest of that call alone is merged. */
  lemma MergeCall(f: Forest, p: Path, inclusive: int, exclusive: int)
    ensures Merge(f, map[p := AddCall(Zero(), inclusive, exclusive)]) == f[p := AddCall(At(f, p), inclusive, exclusive)]
  {
    MergeOne(f, p, AddCall(Zero(), inclusive, exclusive));
  }

  /** Looking a node up makes it, unless it is there already. */
  lemma MergeBare(f: Forest, p: Path)
    ensures Merge(f, map[p := Zero()]) == if p in f then f else f[p := Zero()]
  {
    MergeOne(f, p, Zero());
    AddZero(At(f, p));
    hide Merge, Add;
  }

  lemma AddZero(s: FunctionStatistics)
    ensures Add(s, Zero()) == s
  {
  }

  lemma SameForest(f: Forest, g: Forest)
    requires f.Keys == g.Keys && forall p: Path :: At(f, p) == At(g, p)
    ensures f == g
  {
    forall p | p in f ensures f[p] == g[p] {
      assert At(f, p) == At(g, p);
    }
  }

  lemma AddAssociates(s: FunctionStatistics, t: FunctionStatistics, u: FunctionStatistics)
    ensures Add(Add(s, t), u) == Add(s, Add(t, u))
  {
  }

  lemma MergeCommutes(f: Forest, g: Forest)
    ensures Merge(f, g) == Merge(g, f)
  {
    assert f.Keys + g.Keys == g.Keys + f.Keys;
  }

  lemma MergeAssociates(f: Forest, g: Forest, h: Forest)
    ensures Merge(Merge(f, g), h) == Merge(f, Merge(g, h))
  {
    var l, r := Merge(Merge(f, g), h), Merge(f, Merge(g, h));
    assert l.Keys == r.Keys;
    forall p: Path ensures At(l, p) == At(r, p) {
      MergeAt(Merge(f, g), h, p);
      MergeAt(f, g, p);
      MergeAt(f, Merge(g, h), p);
      MergeAt(g, h, p);
      AddAssociates(At(f, p), At(g, p), At(h, p));
    }
    SameForest(l, r);
  }

  lemma MergeEmpty(f: Forest)
    ensures Merge(f, map[]) == f && Merge(map[], f) == f
  {
    assert Merge(f, map[]).Keys == f.Keys;
  }

  lemma BareUnder(p: Path, s: FunctionStatistics)
    ensures Merge(map[p := Zero()], map[p := s]) == map[p := s]
  {
  }

  /** Bare nodes: present, with nothing accounted for. */
  function Blank(ps: set<Path>): Forest {
    map p | p in ps :: Zero()
  }

  lemma MergeBlank(f: Forest, ps: set<Path>)
    requires ps <= f.Keys
    ensures Merge(f, Blank(ps)) == f
  {
    assert Merge(f, Blank(ps)).Keys == f.Keys;
  }

  function MergeAll(fs: seq<Forest>): Forest {
    if fs == [] then map[] else Merge(MergeAll(fs[..|fs| - 1]), fs[|fs| - 1])
  }
}
