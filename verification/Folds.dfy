/** Folding over a finite set in no particular order, for steps whose order does not matter. */
module Folds {

  ghost predicate LeftCommutative<V(!new), T(!new)>(step: (V, T) -> V) {
    forall v: V, a: T, b: T :: step(step(v, a), b) == step(step(v, b), a)
  }

  /** The fold over the members of a group, each standing for a value. */
  ghost function Fold<H, T, V>(group: set<H>, values: map<H, T>, zero: V, step: (V, T) -> V): V
    requires group <= values.Keys
  {
    if group == {} then zero else
    var h :| h in group;
    step(Fold(group - {h}, values, zero, step), values[h])
  }

  lemma FoldNone<H, T, V>(values: map<H, T>, zero: V, step: (V, T) -> V)
    ensures Fold({}, values, zero, step) == zero
  {
  }

  /** Any member may come last. */
  lemma {:induction false} FoldRemove<H, T(!new), V(!new)>(group: set<H>, values: map<H, T>, zero: V, step: (V,
      T) -> V, h: H)
    requires group <= values.Keys && h in group && LeftCommutative(step)
    ensures Fold(group, values, zero, step) == step(Fold(group - {h}, values, zero, step), values[h])
  {
    var k :| k in group && Fold(group, values, zero, step) == step(Fold(group - {k}, values, zero, step), values[k]);
    if k != h {
      FoldRemove(group - {k}, values, zero, step, h);
      FoldRemove(group - {h}, values, zero, step, k);
      assert group - {k} - {h} == group - {h} - {k};
      var rest := Fold(group - {k} - {h}, values, zero, step);
      assert step(step(rest, values[h]), values[k]) == step(step(rest, values[k]), values[h]);
    }
  }

  /** The fold depends on what the members stand for, not on the members. */
  lemma {:induction false} FoldRename<G, H, T(!new), V(!new)>(
      group: set<G>, values: map<G, T>, image: set<H>, values': map<H, T>, rename: map<G, H>, zero: V, step: (V, T) -> V)
    requires LeftCommutative(step) && group <= values.Keys && group <= rename.Keys && image <= values'.Keys
    requires forall g :: g in group ==> rename[g] in image && values'[rename[g]] == values[g]
    requires forall g, g' :: g in group && g' in group && rename[g] == rename[g'] ==> g == g'
    requires forall h :: h in image ==> exists g :: g in group && rename[g] == h
    ensures Fold(group, values, zero, step) == Fold(image, values', zero, step)
    decreases group
  {
    if group == {} {
      assert image == {};
    } else {
      var g :| g in group;
      FoldRemove(group, values, zero, step, g);
      FoldRemove(image, values', zero, step, rename[g]);
      forall h | h in image - {rename[g]} ensures exists g' :: g' in group - {g} && rename[g'] == h {
        var g' :| g' in group && rename[g'] == h;
        assert g' in group - {g};
      }
      FoldRename(group - {g}, values, image - {rename[g]}, values', rename, zero, step);
    }
  }

  lemma {:induction false} FoldAgree<H, T(!new), V(!new)>(group: set<H>, values: map<H, T>, values': map<H, T>,
      zero: V, step: (V, T) -> V)
    requires LeftCommutative(step) && group <= values.Keys && group <= values'.Keys
    requires forall h :: h in group ==> values[h] == values'[h]
    ensures Fold(group, values, zero, step) == Fold(group, values', zero, step)
  {
    FoldRename(group, values, group, values', map h | h in group :: h, zero, step);
  }
}
