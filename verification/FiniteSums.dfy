/** Sums of an integer weight over a finite set, in no particular order. */
module FiniteSums {

  ghost function Sum<T>(s: set<T>, weight: T -> int): int {
    if s == {} then 0 else
      var x :| x in s;
      weight(x) + Sum(s - {x}, weight)
  }

  /** Whatever element is taken out first, the sum is the same. */
  lemma {:induction false} SumRemove<T>(s: set<T>, weight: T -> int, x: T)
    requires x in s
    ensures Sum(s, weight) == weight(x) + Sum(s - {x}, weight)
  {
    var y :| y in s && Sum(s, weight) == weight(y) + Sum(s - {y}, weight);
    if x != y {
      SumRemove(s - {y}, weight, x);
      SumRemove(s - {x}, weight, y);
      assert s - {y} - {x} == s - {x} - {y};
    }
  }

  lemma {:induction false} SumAgree<T>(s: set<T>, f: T -> int, g: T -> int)
    requires forall x :: x in s ==> f(x) == g(x)
    ensures Sum(s, f) == Sum(s, g)
  {
    if s != {} {
      var x :| x in s;
      SumAgree(s - {x}, f, g);
      SumRemove(s, f, x);
      SumRemove(s, g, x);
    }
  }

  lemma {:induction false} SumAtMost<T>(s: set<T>, f: T -> int, g: T -> int)
    requires forall x :: x in s ==> f(x) <= g(x)
    ensures Sum(s, f) <= Sum(s, g)
  {
    if s != {} {
      var x :| x in s;
      SumAtMost(s - {x}, f, g);
      SumRemove(s, f, x);
      SumRemove(s, g, x);
    }
  }

  lemma {:induction false} SumDifference<T>(s: set<T>, f: T -> int, g: T -> int, h: T -> int)
    requires forall x :: x in s ==> h(x) == f(x) - g(x)
    ensures Sum(s, h) == Sum(s, f) - Sum(s, g)
  {
    if s != {} {
      var x :| x in s;
      SumDifference(s - {x}, f, g, h);
      SumRemove(s, f, x);
      SumRemove(s, g, x);
      SumRemove(s, h, x);
    }
  }

  lemma {:induction false} SumUnion<T>(s: set<T>, t: set<T>, weight: T -> int)
    requires s !! t
    ensures Sum(s + t, weight) == Sum(s, weight) + Sum(t, weight)
  {
    if s == {} {
      assert s + t == t;
    } else {
      var x :| x in s;
      SumUnion(s - {x}, t, weight);
      SumRemove(s, weight, x);
      SumRemove(s + t, weight, x);
      assert s + t - {x} == (s - {x}) + t;
    }
  }

  /** The elements of `s` that `fiber` sends to `u`. */
  ghost function Fiber<T, U>(s: set<T>, fiber: T -> U, u: U): set<T> {
    set x | x in s && fiber(x) == u
  }

  ghost function FiberSum<T, U>(s: set<T>, weight: T -> int, fiber: T -> U): U -> int {
    u => Sum(Fiber(s, fiber, u), weight)
  }

  /** Summing group by group visits every element exactly once. */
  lemma {:induction false} SumFibers<T, U>(s: set<T>, weight: T -> int, groups: set<U>, fiber: T -> U)
    requires forall x :: x in s ==> fiber(x) in groups
    ensures Sum(s, weight) == Sum(groups, FiberSum(s, weight, fiber))
    decreases groups
  {
    var total := FiberSum(s, weight, fiber);
    if groups == {} {
      assert s == {};
    } else {
      var u :| u in groups;
      var here, rest := Fiber(s, fiber, u), s - Fiber(s, fiber, u);
      var restTotal := FiberSum(rest, weight, fiber);
      SumFibers(rest, weight, groups - {u}, fiber);
      forall v | v in groups - {u} ensures total(v) == restTotal(v) {
        assert Fiber(s, fiber, v) == Fiber(rest, fiber, v);
      }
      SumAgree(groups - {u}, total, restTotal);
      SumRemove(groups, total, u);
      SumUnion(here, rest, weight);
      assert here + rest == s;
    }
  }
}
