/**
 Trees with a threshold at every vertex, and their selections: the trees obtained by keeping, at every
 internal vertex, exactly as many children as its threshold says (common/graph).
 */
module TreeSelections {
  import opened Combinations

  datatype Tree<D> = Tree(id: string, data: D, threshold: int, descendants: seq<Tree<D>>)

  /** A tree without the thresholds, which cloning drops. */
  datatype Shape<D> = Shape(id: string, data: D, descendants: seq<Shape<D>>)

  function Erase<D>(t: Tree<D>): (s: Shape<D>) {
    Shape(t.id, t.data, seq(|t.descendants|, i requires 0 <= i < |t.descendants| => Erase(t.descendants[i])))
  }

  function EraseAll<D>(ts: seq<Tree<D>>): (ss: seq<Shape<D>>)
    ensures |ss| == |ts| && forall i | 0 <= i < |ts| :: ss[i] == Erase(ts[i])
  {
    seq(|ts|, i requires 0 <= i < |ts| => Erase(ts[i]))
  }

  // ---------------------------------------------------------------------------
  // Selections
  // ---------------------------------------------------------------------------

  /** The reference: `q` keeps exactly the threshold's number of children at every internal vertex of `t`. */
  ghost predicate IsSelection<D>(t: Tree<D>, q: Shape<D>)
    decreases t, 1
  {
    q.id == t.id && q.data == t.data && exists kept :: SelectionBy(t, q, kept)
  }

  ghost predicate SelectionBy<D>(t: Tree<D>, q: Shape<D>, kept: seq<int>)
    decreases t, 0
  {
    && IsCombination(kept, |t.descendants|, if t.descendants == [] then 0 else t.threshold)
    && |q.descendants| == |kept|
    && forall j | 0 <= j < |kept| :: IsSelection(t.descendants[kept[j]], q.descendants[j])
  }

  /** Selected only at the vertices in `done`; everywhere else all children are kept. */
  ghost predicate IsPartial<D>(t: Tree<D>, q: Shape<D>, done: set<string>)
    decreases t, 1
  {
    q.id == t.id && q.data == t.data && exists kept :: PartialBy(t, q, done, kept)
  }

  ghost predicate PartialBy<D>(t: Tree<D>, q: Shape<D>, done: set<string>, kept: seq<int>)
    decreases t, 0
  {
    && IsCombination(kept, |t.descendants|, if t.id in done then t.threshold else |t.descendants|)
    && |q.descendants| == |kept|
    && forall j | 0 <= j < |kept| :: IsPartial(t.descendants[kept[j]], q.descendants[j], done)
  }

  lemma Kept<D>(t: Tree<D>, q: Shape<D>, done: set<string>) returns (kept: seq<int>)
    requires IsPartial(t, q, done)
    ensures PartialBy(t, q, done, kept)
  {
    kept :| PartialBy(t, q, done, kept);
  }

  lemma Selected<D>(t: Tree<D>, q: Shape<D>) returns (kept: seq<int>)
    requires IsSelection(t, q)
    ensures SelectionBy(t, q, kept)
  {
    kept :| SelectionBy(t, q, kept);
  }

  /** A choice of the children of one vertex. */
  ghost predicate IsChoice<D>(w: Tree<D>, kids: seq<Shape<D>>) {
    exists kept :: IsCombination(kept, |w.descendants|, w.threshold) && kids == EraseAll(Pick(w.descendants, kept))
  }

  // ---------------------------------------------------------------------------
  // Identifiers
  // ---------------------------------------------------------------------------

  function Ids<D>(t: Tree<D>): set<string> {
    {t.id} + set i, x | 0 <= i < |t.descendants| && x in Ids(t.descendants[i]) :: x
  }

  function InternalIds<D>(t: Tree<D>): set<string> {
    (if t.descendants == [] then {} else {t.id}) + set i, x | 0 <= i < |t.descendants| && x in InternalIds(t.descendants[i]) :: x
  }

  function InternalIdsAll<D>(ts: seq<Tree<D>>): set<string> {
    set i, x | 0 <= i < |ts| && x in InternalIds(ts[i]) :: x
  }

  predicate Unique<D>(t: Tree<D>) {
    && (forall i | 0 <= i < |t.descendants| :: Unique(t.descendants[i]) && t.id !in Ids(t.descendants[i]))
    && (forall i, j | 0 <= i < j < |t.descendants| :: Ids(t.descendants[i]) !! Ids(t.descendants[j]))
  }

  /** Wherever the tree has a vertex with the identifier of `w`, that vertex is `w`. */
  predicate Locates<D(==)>(t: Tree<D>, w: Tree<D>) {
    if t.id == w.id then t == w else forall i | 0 <= i < |t.descendants| :: Locates(t.descendants[i], w)
  }

  lemma {:induction false} LocatesAbsent<D>(t: Tree<D>, w: Tree<D>)
    requires w.id !in Ids(t)
    ensures Locates(t, w)
    decreases t
  {
    forall i | 0 <= i < |t.descendants| ensures Locates(t.descendants[i], w) {
      LocatesAbsent(t.descendants[i], w);
    }
  }

  ghost predicate Occurs<D>(t: Tree<D>, w: Tree<D>) {
    t == w || exists i | 0 <= i < |t.descendants| :: Occurs(t.descendants[i], w)
  }

  lemma {:induction false} OccursIds<D>(t: Tree<D>, w: Tree<D>)
    requires Occurs(t, w)
    ensures Ids(w) <= Ids(t) && w.id in Ids(t)
    decreases t
  {
    if t != w {
      var i :| 0 <= i < |t.descendants| && Occurs(t.descendants[i], w);
      OccursIds(t.descendants[i], w);
    }
  }

  lemma {:induction false} OccursLocates<D>(t: Tree<D>, w: Tree<D>)
    requires Unique(t) && Occurs(t, w)
    ensures Locates(t, w)
    decreases t
  {
    if t != w {
      var i :| 0 <= i < |t.descendants| && Occurs(t.descendants[i], w);
      OccursIds(t.descendants[i], w);
      OccursLocates(t.descendants[i], w);
      forall j | 0 <= j < |t.descendants| ensures Locates(t.descendants[j], w) {
        if j != i {
          LocatesAbsent(t.descendants[j], w);
        }
      }
    }
  }

  lemma {:induction false} OccursChild<D>(t: Tree<D>, w: Tree<D>, k: nat)
    requires Occurs(t, w) && k < |w.descendants|
    ensures Occurs(t, w.descendants[k])
    decreases t
  {
    if t == w {
      assert Occurs(t.descendants[k], w.descendants[k]);
    } else {
      var i :| 0 <= i < |t.descendants| && Occurs(t.descendants[i], w);
      OccursChild(t.descendants[i], w, k);
    }
  }

  lemma {:induction false} OccursUnique<D>(t: Tree<D>, w: Tree<D>)
    requires Unique(t) && Occurs(t, w)
    ensures Unique(w)
    decreases t
  {
    if t != w {
      var i :| 0 <= i < |t.descendants| && Occurs(t.descendants[i], w);
      OccursUnique(t.descendants[i], w);
    }
  }

  // ---------------------------------------------------------------------------
  // Find and replace on shapes
  // ---------------------------------------------------------------------------

  predicate Exists<D>(s: Shape<D>, id: string) {
    s.id == id || exists i | 0 <= i < |s.descendants| :: Exists(s.descendants[i], id)
  }

  /** `replace`: the children of the vertex with the identifier become `kids`. */
  function Replace<D>(s: Shape<D>, id: string, kids: seq<Shape<D>>): Shape<D> {
    if s.id == id then Shape(s.id, s.data, kids)
    else Shape(s.id, s.data, seq(|s.descendants|, i requires 0 <= i < |s.descendants| => Replace(s.descendants[i], id, kids)))
  }

  /** The vertices with the identifier have these children. */
  predicate AllKids<D(==)>(s: Shape<D>, id: string, kids: seq<Shape<D>>) {
    if s.id == id then s.descendants == kids else forall i | 0 <= i < |s.descendants| :: AllKids(s.descendants[i], id, kids)
  }

  lemma {:induction false} ReplaceTwice<D>(s: Shape<D>, id: string, a: seq<Shape<D>>, b: seq<Shape<D>>)
    ensures Replace(Replace(s, id, a), id, b) == Replace(s, id, b)
    decreases s
  {
    if s.id != id {
      forall i | 0 <= i < |s.descendants| ensures Replace(Replace(s.descendants[i], id, a), id, b) == Replace(s.descendants[i], id, b) {
        ReplaceTwice(s.descendants[i], id, a, b);
      }
    }
  }

  lemma {:induction false} ReplaceSame<D>(s: Shape<D>, id: string, kids: seq<Shape<D>>)
    requires AllKids(s, id, kids)
    ensures Replace(s, id, kids) == s
    decreases s
  {
    if s.id != id {
      forall i | 0 <= i < |s.descendants| ensures Replace(s.descendants[i], id, kids) == s.descendants[i] {
        ReplaceSame(s.descendants[i], id, kids);
      }
    }
  }

  lemma {:induction false} AbsentAllKids<D>(s: Shape<D>, id: string, kids: seq<Shape<D>>)
    requires !Exists(s, id)
    ensures AllKids(s, id, kids)
    decreases s
  {
    forall i | 0 <= i < |s.descendants| ensures AllKids(s.descendants[i], id, kids) {
      AbsentAllKids(s.descendants[i], id, kids);
    }
  }

  lemma {:induction false} ReplaceKids<D>(s: Shape<D>, id: string, kids: seq<Shape<D>>)
    ensures AllKids(Replace(s, id, kids), id, kids)
    ensures Exists(s, id) ==> Exists(Replace(s, id, kids), id)
    decreases s
  {
    if s.id != id {
      var r := Replace(s, id, kids);
      forall i | 0 <= i < |s.descendants|
        ensures AllKids(r.descendants[i], id, kids) && (Exists(s.descendants[i], id) ==> Exists(r.descendants[i], id))
      {
        ReplaceKids(s.descendants[i], id, kids);
      }
    }
  }

  lemma {:induction false} KidsFixed<D>(s: Shape<D>, id: string, a: seq<Shape<D>>, b: seq<Shape<D>>)
    requires Exists(s, id) && AllKids(s, id, a) && AllKids(s, id, b)
    ensures a == b
    decreases s
  {
    if s.id != id {
      var i :| 0 <= i < |s.descendants| && Exists(s.descendants[i], id);
      KidsFixed(s.descendants[i], id, a, b);
    }
  }

  /** Where the old children are known, replacing loses nothing. */
  lemma ReplaceInjective<D>(p: Shape<D>, a: seq<Shape<D>>, p': Shape<D>, a': seq<Shape<D>>, id: string, full: seq<Shape<D>>)
    requires AllKids(p, id, full) && AllKids(p', id, full) && Exists(p, id)
    requires Replace(p, id, a) == Replace(p', id, a')
    ensures p == p' && a == a'
  {
    ReplaceTwice(p, id, a, full);
    ReplaceTwice(p', id, a', full);
    ReplaceSame(p, id, full);
    ReplaceSame(p', id, full);
    ReplaceKids(p, id, a);
    ReplaceKids(p', id, a');
    KidsFixed(Replace(p, id, a), id, a, a');
  }

  // ---------------------------------------------------------------------------
  // One vertex more
  // ---------------------------------------------------------------------------

  lemma AllKept(kept: seq<int>, n: nat)
    requires IsCombination(kept, n, n)
    ensures forall j | 0 <= j < n :: kept[j] == j
  {
    forall j: nat | j < n ensures kept[j] == j {
      KeptBounds(kept, n, j);
    }
  }

  lemma {:induction false} KeptBounds(kept: seq<int>, n: nat, j: nat)
    requires IsCombination(kept, n, n) && j < n
    ensures kept[j] == j
  {
    KeptAtLeast(kept, n, j);
    KeptAtMost(kept, n, j);
  }

  lemma {:induction false} KeptAtLeast(kept: seq<int>, n: nat, j: nat)
    requires IsCombination(kept, n, n) && j < n
    ensures kept[j] >= j
  {
    if j > 0 {
      KeptAtLeast(kept, n, j - 1);
    }
  }

  lemma {:induction false} KeptAtMost(kept: seq<int>, n: nat, j: nat)
    requires IsCombination(kept, n, n) && j < n
    ensures kept[j] <= j
    decreases n - j
  {
    if j + 1 < n {
      KeptAtMost(kept, n, j + 1);
    }
  }

  function Everything(n: nat): (kept: seq<int>)
    ensures IsCombination(kept, n, n)
  {
    seq(n, i => i)
  }

  /** Where nothing is selected yet, the whole tree is kept. */
  lemma {:induction false} UntouchedIsErased<D>(t: Tree<D>, q: Shape<D>, done: set<string>)
    requires done !! Ids(t)
    ensures IsPartial(t, q, done) <==> q == Erase(t)
    decreases t
  {
    var n := |t.descendants|;
    forall i, r | 0 <= i < n ensures IsPartial(t.descendants[i], r, done) <==> r == Erase(t.descendants[i]) {
      UntouchedIsErased(t.descendants[i], r, done);
    }
    if IsPartial(t, q, done) {
      var kept := Kept(t, q, done);
      AllKept(kept, n);
      assert q.descendants == Erase(t).descendants;
    }
    if q == Erase(t) {
      AllKept(Everything(n), n);
      assert PartialBy(t, q, done, Everything(n));
    }
  }

  lemma {:induction false} PartialIds<D>(t: Tree<D>, q: Shape<D>, done: set<string>, id: string)
    requires IsPartial(t, q, done) && Exists(q, id)
    ensures id in Ids(t)
    decreases t
  {
    if q.id != id {
      var kept := Kept(t, q, done);
      var j :| 0 <= j < |q.descendants| && Exists(q.descendants[j], id);
      PartialIds(t.descendants[kept[j]], q.descendants[j], done, id);
    }
  }

  /** Before `w` is handled, it has all its children wherever it is present. */
  lemma {:induction false} UnhandledIsFull<D>(t: Tree<D>, q: Shape<D>, done: set<string>, w: Tree<D>)
    requires Locates(t, w) && done !! Ids(w) && IsPartial(t, q, done)
    ensures AllKids(q, w.id, EraseAll(w.descendants))
    decreases t
  {
    if t.id == w.id {
      UntouchedIsErased(t, q, done);
    } else {
      var kept := Kept(t, q, done);
      forall j | 0 <= j < |q.descendants| ensures AllKids(q.descendants[j], w.id, EraseAll(w.descendants)) {
        UnhandledIsFull(t.descendants[kept[j]], q.descendants[j], done, w);
      }
    }
  }

  /** A partial selection without `w` stays one when `w` is handled, and was one before. */
  lemma {:induction false} AbsentUnaffected<D>(t: Tree<D>, q: Shape<D>, done: set<string>, id: string)
    requires !Exists(q, id)
    ensures IsPartial(t, q, done) <==> IsPartial(t, q, done + {id})
    decreases t
  {
    forall i, j | 0 <= i < |t.descendants| && 0 <= j < |q.descendants|
      ensures IsPartial(t.descendants[i], q.descendants[j], done) <==> IsPartial(t.descendants[i], q.descendants[j], done + {id})
    {
      AbsentUnaffected(t.descendants[i], q.descendants[j], done, id);
    }
    if IsPartial(t, q, done) {
      var kept := Kept(t, q, done);
      assert PartialBy(t, q, done + {id}, kept);
    }
    if IsPartial(t, q, done + {id}) {
      var kept := Kept(t, q, done + {id});
      assert PartialBy(t, q, done, kept);
    }
  }

  /** Replacing the children of `w` by a choice of them handles `w`. */
  lemma {:induction false} ChoiceHandles<D>(t: Tree<D>, p: Shape<D>, done: set<string>, w: Tree<D>, kids: seq<Shape<D>>)
    requires Locates(t, w) && Unique(w) && done !! Ids(w) && IsPartial(t, p, done) && IsChoice(w, kids)
    ensures IsPartial(t, Replace(p, w.id, kids), done + {w.id})
    decreases t
  {
    var q, done' := Replace(p, w.id, kids), done + {w.id};
    if t.id == w.id {
      ChoiceIsPartial(w, q, done);
    } else {
      var kept := Kept(t, p, done);
      forall j | 0 <= j < |kept| ensures IsPartial(t.descendants[kept[j]], q.descendants[j], done') {
        ChoiceHandles(t.descendants[kept[j]], p.descendants[j], done, w, kids);
      }
      assert PartialBy(t, q, done', kept);
    }
  }

  lemma ChoiceIsPartial<D>(w: Tree<D>, q: Shape<D>, done: set<string>)
    requires Unique(w) && done !! Ids(w) && q.id == w.id && q.data == w.data
    ensures IsPartial(w, q, done + {w.id}) <==> IsChoice(w, q.descendants)
  {
    var done' := done + {w.id};
    forall i, r | 0 <= i < |w.descendants| ensures IsPartial(w.descendants[i], r, done') <==> r == Erase(w.descendants[i]) {
      UntouchedIsErased(w.descendants[i], r, done');
    }
    if IsPartial(w, q, done') {
      var kept := Kept(w, q, done');
      assert q.descendants == EraseAll(Pick(w.descendants, kept));
    }
    if IsChoice(w, q.descendants) {
      var kept :| IsCombination(kept, |w.descendants|, w.threshold) && q.descendants == EraseAll(Pick(w.descendants, kept));
      assert PartialBy(w, q, done', kept);
    }
  }

  /** Every partial selection that handles `w` comes from one before by a choice at `w`. */
  lemma {:induction false} HandledByChoice<D>(t: Tree<D>, q: Shape<D>, done: set<string>, w: Tree<D>) returns (kids: seq<Shape<D>>)
    requires Unique(t) && Locates(t, w) && Unique(w) && done !! Ids(w) && IsPartial(t, q, done + {w.id}) && Exists(q, w.id)
    ensures IsChoice(w, kids) && AllKids(q, w.id, kids)
    ensures IsPartial(t, Replace(q, w.id, EraseAll(w.descendants)), done)
    decreases t
  {
    var full, done' := EraseAll(w.descendants), done + {w.id};
    if t.id == w.id {
      kids := q.descendants;
      ChoiceIsPartial(w, q, done);
      UntouchedIsErased(t, Replace(q, w.id, full), done);
    } else {
      var kept := Kept(t, q, done');
      var j :| 0 <= j < |q.descendants| && Exists(q.descendants[j], w.id);
      kids := HandledByChoice(t.descendants[kept[j]], q.descendants[j], done, w);
      PartialIds(t.descendants[kept[j]], q.descendants[j], done', w.id);
      var p := Replace(q, w.id, full);
      forall i | 0 <= i < |kept|
        ensures IsPartial(t.descendants[kept[i]], p.descendants[i], done) && AllKids(q.descendants[i], w.id, kids)
      {
        if i != j {
          OtherChild(t, q.descendants[i], done, w.id, kept[j], kept[i]);
          AbsentAllKids(q.descendants[i], w.id, kids);
          AbsentAllKids(q.descendants[i], w.id, full);
          ReplaceSame(q.descendants[i], w.id, full);
        }
      }
      assert PartialBy(t, p, done, kept);
    }
  }

  lemma OtherChild<D>(t: Tree<D>, r: Shape<D>, done: set<string>, id: string, a: int, b: int)
    requires Unique(t) && 0 <= a < |t.descendants| && 0 <= b < |t.descendants| && a != b && id in Ids(t.descendants[a])
    requires IsPartial(t.descendants[b], r, done + {id})
    ensures !Exists(r, id) && IsPartial(t.descendants[b], r, done)
  {
    if Exists(r, id) {
      PartialIds(t.descendants[b], r, done + {id}, id);
    }
    AbsentUnaffected(t.descendants[b], r, done, id);
  }

  // ---------------------------------------------------------------------------
  // From partial selections to selections
  // ---------------------------------------------------------------------------

  lemma RestrictFurther(a: set<string>, b: set<string>, big: set<string>, small: set<string>)
    requires a * big == b * big && small <= big
    ensures a * small == b * small
  {
    forall x | x in small ensures x in a <==> x in b {
      assert x in a * big <==> x in b * big;
    }
  }

  lemma {:induction false} OnlyOwnIdsMatter<D>(t: Tree<D>, q: Shape<D>, done: set<string>, done': set<string>)
    requires done * Ids(t) == done' * Ids(t)
    ensures IsPartial(t, q, done) <==> IsPartial(t, q, done')
    decreases t
  {
    assert t.id in Ids(t);
    assert t.id in done <==> t.id in done * Ids(t);
    assert t.id in done' <==> t.id in done' * Ids(t);
    forall i, j | 0 <= i < |t.descendants| && 0 <= j < |q.descendants|
      ensures IsPartial(t.descendants[i], q.descendants[j], done) <==> IsPartial(t.descendants[i], q.descendants[j], done')
    {
      RestrictFurther(done, done', Ids(t), Ids(t.descendants[i]));
      OnlyOwnIdsMatter(t.descendants[i], q.descendants[j], done, done');
    }
    if IsPartial(t, q, done) {
      var kept := Kept(t, q, done);
      assert PartialBy(t, q, done', kept);
    }
    if IsPartial(t, q, done') {
      var kept := Kept(t, q, done');
      assert PartialBy(t, q, done, kept);
    }
  }

  lemma {:induction false} InternalAreIds<D>(t: Tree<D>)
    ensures InternalIds(t) <= Ids(t)
    decreases t
  {
    forall i | 0 <= i < |t.descendants| ensures InternalIds(t.descendants[i]) <= Ids(t.descendants[i]) {
      InternalAreIds(t.descendants[i]);
    }
  }

  lemma InternalFrom<D>(t: Tree<D>, x: string) returns (j: nat)
    requires x in InternalIds(t) && x != t.id
    ensures j < |t.descendants| && x in InternalIds(t.descendants[j])
  {
    j :| 0 <= j < |t.descendants| && x in InternalIds(t.descendants[j]);
  }

  /** The internal vertices of a subtree are those of the tree that lie in it. */
  lemma InternalBelow<D>(t: Tree<D>, i: nat)
    requires Unique(t) && i < |t.descendants|
    ensures InternalIds(t) * Ids(t.descendants[i]) == InternalIds(t.descendants[i])
  {
    var u := t.descendants[i];
    InternalAreIds(u);
    forall x ensures x in InternalIds(t) * Ids(u) <==> x in InternalIds(u) {
      if x in InternalIds(t) && x in Ids(u) {
        var j := InternalFrom(t, x);
        InternalAreIds(t.descendants[j]);
        assert x in Ids(t.descendants[j]);
        assert j == i;
      }
    }
  }

  /** When every internal vertex is handled, the partial selections are the selections. */
  lemma {:induction false} HandledEverywhere<D>(t: Tree<D>, q: Shape<D>)
    requires Unique(t)
    ensures IsPartial(t, q, InternalIds(t)) <==> IsSelection(t, q)
    decreases t
  {
    var done := InternalIds(t);
    assert t.descendants == [] ==> done == {};
    assert t.id in done <==> t.descendants != [];
    forall i, j | 0 <= i < |t.descendants| && 0 <= j < |q.descendants|
      ensures IsPartial(t.descendants[i], q.descendants[j], done) <==> IsSelection(t.descendants[i], q.descendants[j])
    {
      InternalBelow(t, i);
      InternalAreIds(t.descendants[i]);
      OnlyOwnIdsMatter(t.descendants[i], q.descendants[j], done, InternalIds(t.descendants[i]));
      HandledEverywhere(t.descendants[i], q.descendants[j]);
    }
    if IsPartial(t, q, done) {
      var kept := Kept(t, q, done);
      assert SelectionBy(t, q, kept);
    }
    if IsSelection(t, q) {
      var kept := Selected(t, q);
      assert PartialBy(t, q, done, kept);
    }
  }
}
