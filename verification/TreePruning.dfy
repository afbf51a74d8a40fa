/** Pruned trees (common/graph/perm.go): fewer children where there were too many ways to choose among them. */
module TreePruning {
  import opened Combinations
  import opened TreeSelections

  /** `m` of `n` children survive: few enough to choose from, still enough to choose, and as many as that allows. */
  predicate Counts(n: nat, m: nat, threshold: int, bound: int) {
    && threshold >= 0
    && !CombinationsExceed(m, threshold, bound)
    && (n >= threshold ==> m >= threshold)
    && (n > 0 ==> m > 0)
    && (m == n || CombinationsExceed(m + 1, threshold, bound))
    && (!CombinationsExceed(n, threshold, bound) ==> m == n)
  }

  /** `p` is `t` with some children taken out at some internal vertices. */
  ghost predicate PrunedTo<D>(t: Tree<D>, p: Tree<D>, bound: int)
    decreases t, 1
  {
    p.id == t.id && p.data == t.data && p.threshold == t.threshold && exists kept :: PrunedBy(t, p, bound, kept)
  }

  ghost predicate PrunedBy<D>(t: Tree<D>, p: Tree<D>, bound: int, kept: seq<int>)
    decreases t, 0
  {
    && IsCombination(kept, |t.descendants|, |p.descendants|)
    && (t.descendants != [] ==> Counts(|t.descendants|, |p.descendants|, t.threshold, bound))
    && forall j | 0 <= j < |kept| :: PrunedTo(t.descendants[kept[j]], p.descendants[j], bound)
  }

  lemma Survivors<D>(t: Tree<D>, p: Tree<D>, bound: int) returns (kept: seq<int>)
    requires PrunedTo(t, p, bound)
    ensures PrunedBy(t, p, bound, kept)
    ensures t.descendants == [] <==> p.descendants == []
  {
    kept :| PrunedBy(t, p, bound, kept);
    assert kept != [] ==> 0 <= kept[0] < |t.descendants|;
  }

  /** Pruning keeps identifiers unique. */
  lemma {:induction false} PrunedUnique<D>(t: Tree<D>, p: Tree<D>, bound: int)
    requires PrunedTo(t, p, bound)
    ensures Ids(p) <= Ids(t)
    ensures Unique(t) ==> Unique(p)
    decreases t
  {
    var kept := Survivors(t, p, bound);
    forall j | 0 <= j < |kept|
      ensures Ids(p.descendants[j]) <= Ids(t.descendants[kept[j]]) && (Unique(t) ==> Unique(p.descendants[j]))
    {
      PrunedUnique(t.descendants[kept[j]], p.descendants[j], bound);
    }
  }

  /** Picking from a combination is a combination. */
  function Through(kept: seq<int>, chosen: seq<int>): seq<int>
    requires forall j | 0 <= j < |chosen| :: 0 <= chosen[j] < |kept|
  {
    seq(|chosen|, j requires 0 <= j < |chosen| => kept[chosen[j]])
  }

  /** Every selection of the pruned tree is a selection of the tree. */
  lemma {:induction false} PrunedSelection<D>(t: Tree<D>, p: Tree<D>, bound: int, q: Shape<D>)
    requires PrunedTo(t, p, bound) && IsSelection(p, q)
    ensures IsSelection(t, q)
    decreases t
  {
    var kept := Survivors(t, p, bound);
    var chosen := Selected(p, q);
    var through := Through(kept, chosen);
    forall j | 0 <= j < |chosen| ensures IsSelection(t.descendants[through[j]], q.descendants[j]) {
      PrunedSelection(t.descendants[kept[chosen[j]]], p.descendants[chosen[j]], bound, q.descendants[j]);
    }
    assert SelectionBy(t, q, through);
  }

  /** At no internal vertex are there too many ways to choose. */
  predicate WithinBound<D>(t: Tree<D>, bound: int) {
    && (t.descendants != [] && t.threshold >= 0 ==> !CombinationsExceed(|t.descendants|, t.threshold, bound))
    && forall i | 0 <= i < |t.descendants| :: WithinBound(t.descendants[i], bound)
  }

  /** A tree within the bound is not pruned. */
  lemma {:induction false} NothingPruned<D>(t: Tree<D>, p: Tree<D>, bound: int)
    requires PrunedTo(t, p, bound) && WithinBound(t, bound)
    ensures p == t
    decreases t
  {
    var kept := Survivors(t, p, bound);
    AllKept(kept, |t.descendants|);
    forall j | 0 <= j < |kept| ensures p.descendants[j] == t.descendants[j] {
      NothingPruned(t.descendants[j], p.descendants[j], bound);
    }
  }

  /** A pruned tree is within the bound. */
  lemma {:induction false} PrunedWithinBound<D>(t: Tree<D>, p: Tree<D>, bound: int)
    requires PrunedTo(t, p, bound)
    ensures WithinBound(p, bound)
    decreases t
  {
    var kept := Survivors(t, p, bound);
    forall j | 0 <= j < |kept| ensures WithinBound(p.descendants[j], bound) {
      PrunedWithinBound(t.descendants[kept[j]], p.descendants[j], bound);
    }
  }

  /** The thresholds of the internal vertices are not negative. */
  predicate Sane<D>(t: Tree<D>) {
    (t.descendants != [] ==> t.threshold >= 0) && forall i | 0 <= i < |t.descendants| :: Sane(t.descendants[i])
  }
}
