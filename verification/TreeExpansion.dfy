/**
 The expansion step of `permute` (common/graph/perm.go) on lists of shapes, and the breadth-first order in
 which it is applied: together they list every selection of a tree exactly once.
 */
module TreeExpansion {
  import opened Combinations
  import opened TreeSelections

  // ---------------------------------------------------------------------------
  // The expansion step
  // ---------------------------------------------------------------------------

  function Absent<D>(perms: seq<Shape<D>>, id: string): seq<Shape<D>> {
    if perms == [] then []
    else
      var p := perms[|perms| - 1];
      Absent(perms[..|perms| - 1], id) + if Exists(p, id) then [] else [p]
  }

  function Present<D>(perms: seq<Shape<D>>, id: string): seq<Shape<D>> {
    if perms == [] then []
    else
      var p := perms[|perms| - 1];
      Present(perms[..|perms| - 1], id) + if Exists(p, id) then [p] else []
  }

  /** One permutation, once per choice of children at the vertex. */
  function Row<D>(p: Shape<D>, id: string, choices: seq<seq<Shape<D>>>): (r: seq<Shape<D>>)
    ensures |r| == |choices| && forall i | 0 <= i < |choices| :: r[i] == Replace(p, id, choices[i])
  {
    seq(|choices|, i requires 0 <= i < |choices| => Replace(p, id, choices[i]))
  }

  function Rows<D>(ps: seq<Shape<D>>, id: string, choices: seq<seq<Shape<D>>>): seq<Shape<D>> {
    if ps == [] then [] else Rows(ps[..|ps| - 1], id, choices) + Row(ps[|ps| - 1], id, choices)
  }

  /** The permutations without the vertex, then those with it, once per choice. */
  function Expand<D>(perms: seq<Shape<D>>, id: string, choices: seq<seq<Shape<D>>>): seq<Shape<D>> {
    Absent(perms, id) + Rows(Present(perms, id), id, choices)
  }

  /** The list holds the partial selections, each once. */
  ghost predicate Lists<D(!new)>(perms: seq<Shape<D>>, t: Tree<D>, done: set<string>) {
    NoDuplicates(perms) && forall q :: q in perms <==> IsPartial(t, q, done)
  }

  /** The list holds the choices of children of a vertex, each once. */
  ghost predicate ListsChoices<D(!new)>(w: Tree<D>, choices: seq<seq<Shape<D>>>) {
    NoDuplicates(choices) && forall kids :: kids in choices <==> IsChoice(w, kids)
  }

  lemma {:induction false} FilterMembers<D(!new)>(perms: seq<Shape<D>>, id: string)
    ensures forall q :: q in Absent(perms, id) <==> q in perms && !Exists(q, id)
    ensures forall q :: q in Present(perms, id) <==> q in perms && Exists(q, id)
    ensures NoDuplicates(perms) ==> NoDuplicates(Absent(perms, id)) && NoDuplicates(Present(perms, id))
  {
    if perms != [] {
      var init, p := perms[..|perms| - 1], perms[|perms| - 1];
      FilterMembers(init, id);
      assert perms == init + [p];
    }
  }

  lemma RowMembers<D>(p: Shape<D>, id: string, choices: seq<seq<Shape<D>>>, q: Shape<D>)
    ensures q in Row(p, id, choices) <==> exists kids :: kids in choices && q == Replace(p, id, kids)
  {
    if q in Row(p, id, choices) {
      var i :| 0 <= i < |choices| && q == Row(p, id, choices)[i];
      assert choices[i] in choices;
    }
    if kids :| kids in choices && q == Replace(p, id, kids) {
      var i :| 0 <= i < |choices| && choices[i] == kids;
      assert q == Row(p, id, choices)[i];
    }
  }

  lemma {:induction false} RowsMembers<D>(ps: seq<Shape<D>>, id: string, choices: seq<seq<Shape<D>>>, q: Shape<D>)
    ensures q in Rows(ps, id, choices) <==> exists p, kids :: p in ps && kids in choices && q == Replace(p, id, kids)
  {
    if ps != [] {
      var init, last := ps[..|ps| - 1], ps[|ps| - 1];
      assert ps == init + [last];
      RowsMembers(init, id, choices, q);
      RowMembers(last, id, choices, q);
    }
  }

  lemma {:induction false} RowsDistinct<D>(ps: seq<Shape<D>>, id: string, choices: seq<seq<Shape<D>>>, full: seq<Shape<D>>)
    requires NoDuplicates(ps) && NoDuplicates(choices)
    requires forall p | p in ps :: Exists(p, id) && AllKids(p, id, full)
    ensures NoDuplicates(Rows(ps, id, choices))
  {
    if ps != [] {
      var init, last := ps[..|ps| - 1], ps[|ps| - 1];
      assert ps == init + [last];
      RowsDistinct(init, id, choices, full);
      var before, row := Rows(init, id, choices), Row(last, id, choices);
      forall i, j | 0 <= i < j < |row| ensures row[i] != row[j] {
        if row[i] == row[j] {
          ReplaceInjective(last, choices[i], last, choices[j], id, full);
        }
      }
      forall i, j | 0 <= i < |before| && 0 <= j < |row| ensures before[i] != row[j] {
        RowsMembers(init, id, choices, before[i]);
        var p, kids :| p in init && kids in choices && before[i] == Replace(p, id, kids);
        if before[i] == row[j] {
          ReplaceInjective(p, kids, last, choices[j], id, full);
        }
      }
    }
  }

  /** The conditions under which a vertex is expanded. */
  ghost predicate Expandable<D>(t: Tree<D>, done: set<string>, w: Tree<D>) {
    Unique(t) && Occurs(t, w) && done !! Ids(w)
  }

  lemma ExpandSound<D(!new)>(perms: seq<Shape<D>>, t: Tree<D>, done: set<string>, w: Tree<D>, choices: seq<seq<Shape<D>>>, q: Shape<D>)
    requires Expandable(t, done, w) && Lists(perms, t, done) && ListsChoices(w, choices)
    requires q in Expand(perms, w.id, choices)
    ensures IsPartial(t, q, done + {w.id})
  {
    FilterMembers(perms, w.id);
    if q in Absent(perms, w.id) {
      AbsentUnaffected(t, q, done, w.id);
    } else {
      RowsMembers(Present(perms, w.id), w.id, choices, q);
      var p, kids :| p in Present(perms, w.id) && kids in choices && q == Replace(p, w.id, kids);
      OccursLocates(t, w);
      OccursUnique(t, w);
      ChoiceHandles(t, p, done, w, kids);
    }
  }

  lemma ExpandComplete<D(!new)>(perms: seq<Shape<D>>, t: Tree<D>, done: set<string>, w: Tree<D>, choices: seq<seq<Shape<D>>>, q: Shape<D>)
    requires Expandable(t, done, w) && Lists(perms, t, done) && ListsChoices(w, choices)
    requires IsPartial(t, q, done + {w.id})
    ensures q in Expand(perms, w.id, choices)
  {
    FilterMembers(perms, w.id);
    if !Exists(q, w.id) {
      AbsentUnaffected(t, q, done, w.id);
    } else {
      OccursLocates(t, w);
      OccursUnique(t, w);
      var kids := HandledByChoice(t, q, done, w);
      var full := EraseAll(w.descendants);
      var p := Replace(q, w.id, full);
      ReplaceTwice(q, w.id, full, kids);
      ReplaceSame(q, w.id, kids);
      ReplaceKids(q, w.id, full);
      assert p in Present(perms, w.id) && kids in choices && q == Replace(p, w.id, kids);
      RowsMembers(Present(perms, w.id), w.id, choices, q);
    }
  }

  lemma ExpandDistinct<D(!new)>(perms: seq<Shape<D>>, t: Tree<D>, done: set<string>, w: Tree<D>, choices: seq<seq<Shape<D>>>)
    requires Expandable(t, done, w) && Lists(perms, t, done) && ListsChoices(w, choices)
    ensures NoDuplicates(Expand(perms, w.id, choices))
  {
    var full, present := EraseAll(w.descendants), Present(perms, w.id);
    FilterMembers(perms, w.id);
    OccursLocates(t, w);
    forall p | p in present ensures Exists(p, w.id) && AllKids(p, w.id, full) {
      UnhandledIsFull(t, p, done, w);
    }
    RowsDistinct(present, w.id, choices, full);
    forall q | q in Absent(perms, w.id) ensures q !in Rows(present, w.id, choices) {
      RowsMembers(present, w.id, choices, q);
      if p, kids :| p in present && kids in choices && q == Replace(p, w.id, kids) {
        ReplaceKids(p, w.id, kids);
      }
    }
    NoDuplicatesAppend(Absent(perms, w.id), Rows(present, w.id, choices));
  }

  /** Expanding a vertex turns the list of partial selections into the list that also handles the vertex. */
  lemma ExpandLists<D(!new)>(perms: seq<Shape<D>>, t: Tree<D>, done: set<string>, w: Tree<D>, choices: seq<seq<Shape<D>>>)
    requires Expandable(t, done, w) && Lists(perms, t, done) && ListsChoices(w, choices)
    ensures Lists(Expand(perms, w.id, choices), t, done + {w.id})
  {
    ExpandDistinct(perms, t, done, w, choices);
    forall q ensures q in Expand(perms, w.id, choices) <==> IsPartial(t, q, done + {w.id}) {
      if q in Expand(perms, w.id, choices) {
        ExpandSound(perms, t, done, w, choices, q);
      } else if IsPartial(t, q, done + {w.id}) {
        ExpandComplete(perms, t, done, w, choices, q);
      }
    }
  }

  // ---------------------------------------------------------------------------
  // The choices of one vertex
  // ---------------------------------------------------------------------------

  /** The children at a combination of indices. */
  function ChoiceAt<D>(w: Tree<D>, combination: seq<int>): seq<Shape<D>>
    requires IsCombination(combination, |w.descendants|, w.threshold)
  {
    EraseAll(Pick(w.descendants, combination))
  }

  /** The children picked by each list of indices. */
  function ChoicesAt<D>(w: Tree<D>, combinations: seq<seq<int>>): (choices: seq<seq<Shape<D>>>)
    requires forall i | 0 <= i < |combinations| :: IsCombination(combinations[i], |w.descendants|, w.threshold)
    ensures |choices| == |combinations|
    ensures forall i | 0 <= i < |combinations| :: choices[i] == ChoiceAt(w, combinations[i])
  {
    seq(|combinations|, i requires 0 <= i < |combinations| => ChoiceAt(w, combinations[i]))
  }

  /** Different index lists pick different children. */
  lemma PickInjective<D>(w: Tree<D>, a: seq<int>, b: seq<int>)
    requires Unique(w) && IsCombination(a, |w.descendants|, w.threshold) && IsCombination(b, |w.descendants|, w.threshold)
    requires EraseAll(Pick(w.descendants, a)) == EraseAll(Pick(w.descendants, b))
    ensures a == b
  {
    forall j | 0 <= j < |a| ensures a[j] == b[j] {
      var x, y := w.descendants[a[j]], w.descendants[b[j]];
      assert Erase(x) == EraseAll(Pick(w.descendants, a))[j] == EraseAll(Pick(w.descendants, b))[j] == Erase(y);
      assert x.id in Ids(x) && x.id == y.id && y.id in Ids(y);
    }
  }

  lemma ChoicesListed<D(!new)>(w: Tree<D>, combinations: seq<seq<int>>)
    requires Unique(w) && NoDuplicates(combinations)
    requires forall c :: c in combinations <==> IsCombination(c, |w.descendants|, w.threshold)
    ensures ListsChoices(w, ChoicesAt(w, combinations))
  {
    var choices := ChoicesAt(w, combinations);
    forall i, j | 0 <= i < j < |choices| ensures choices[i] != choices[j] {
      if choices[i] == choices[j] {
        PickInjective(w, combinations[i], combinations[j]);
      }
    }
    forall kids ensures kids in choices <==> IsChoice(w, kids) {
      if kids in choices {
        var i :| 0 <= i < |choices| && choices[i] == kids;
        assert kids == ChoiceAt(w, combinations[i]);
      }
      if IsChoice(w, kids) {
        var kept :| IsCombination(kept, |w.descendants|, w.threshold) && kids == EraseAll(Pick(w.descendants, kept));
        var i :| 0 <= i < |combinations| && combinations[i] == kept;
        assert choices[i] == kids;
      }
    }
  }

  // ---------------------------------------------------------------------------
  // Breadth-first order
  // ---------------------------------------------------------------------------

  /** The queue holds disjoint subtrees that no handled vertex lies in, and all internal vertices not yet handled. */
  ghost predicate Pending<D>(t: Tree<D>, queue: seq<Tree<D>>, done: set<string>) {
    && (forall i | 0 <= i < |queue| :: Occurs(t, queue[i]) && done !! Ids(queue[i]))
    && (forall i, j | 0 <= i < j < |queue| :: Ids(queue[i]) !! Ids(queue[j]))
    && InternalIds(t) == done + InternalIdsAll(queue)
  }

  function Size<D>(t: Tree<D>): nat {
    1 + SizeAll(t.descendants)
  }

  function SizeAll<D>(ts: seq<Tree<D>>): nat {
    if ts == [] then 0 else Size(ts[0]) + SizeAll(ts[1..])
  }

  lemma {:induction false} SizeAppend<D>(a: seq<Tree<D>>, b: seq<Tree<D>>)
    ensures SizeAll(a + b) == SizeAll(a) + SizeAll(b)
    decreases |a|
  {
    if a == [] {
      assert a + b == b;
    } else {
      assert (a + b)[1..] == a[1..] + b;
      SizeAppend(a[1..], b);
    }
  }

  /** `Next`: dequeue a vertex and enqueue its children. */
  function Next<D>(queue: seq<Tree<D>>): seq<Tree<D>>
    requires queue != []
  {
    queue[1..] + queue[0].descendants
  }

  lemma NextIsSmaller<D>(queue: seq<Tree<D>>)
    requires queue != []
    ensures SizeAll(Next(queue)) < SizeAll(queue)
  {
    SizeAppend(queue[1..], queue[0].descendants);
  }

  lemma NextInternal<D>(queue: seq<Tree<D>>)
    requires queue != []
    ensures var own := if queue[0].descendants == [] then {} else {queue[0].id};
            own + InternalIdsAll(Next(queue)) == InternalIdsAll(queue)
  {
    var v, next := queue[0], Next(queue);
    var own := if v.descendants == [] then {} else {v.id};
    forall x | x in InternalIdsAll(queue) ensures x in own + InternalIdsAll(next) {
      var i :| 0 <= i < |queue| && x in InternalIds(queue[i]);
      if i > 0 {
        assert next[i - 1] == queue[i];
      } else if x !in own {
        var k :| 0 <= k < |v.descendants| && x in InternalIds(v.descendants[k]);
        assert next[|queue| - 1 + k] == v.descendants[k];
      }
    }
    forall x | x in InternalIdsAll(next) ensures x in InternalIdsAll(queue) {
      var i :| 0 <= i < |next| && x in InternalIds(next[i]);
      if i < |queue| - 1 {
        assert next[i] == queue[i + 1];
      } else {
        assert next[i] == v.descendants[i - (|queue| - 1)];
        assert x in InternalIds(v);
      }
    }
    assert own <= InternalIdsAll(queue) by {
      assert own <= InternalIds(v);
    }
  }

  lemma NextPending<D>(t: Tree<D>, queue: seq<Tree<D>>, done: set<string>)
    requires Unique(t) && Pending(t, queue, done) && queue != []
    ensures Pending(t, Next(queue), done + if queue[0].descendants == [] then {} else {queue[0].id})
  {
    var next := Next(queue);
    var own := if queue[0].descendants == [] then {} else {queue[0].id};
    NextInternal(queue);
    forall i | 0 <= i < |next| ensures Occurs(t, next[i]) && done + own !! Ids(next[i]) {
      NextFrom(queue, i);
      if i < |queue| - 1 {
        OwnIdApart(queue[0], queue[i + 1]);
        ApartWithOwn(done, own, queue[0].id, Ids(queue[i + 1]));
      } else {
        EnqueuedChild(t, queue[0], done, i - (|queue| - 1));
        ApartWithOwn(done, own, queue[0].id, Ids(queue[0].descendants[i - (|queue| - 1)]));
      }
    }
    forall i, j | 0 <= i < j < |next| ensures Ids(next[i]) !! Ids(next[j]) {
      NextApart(t, queue, done, i, j);
    }
  }

  lemma ApartWithOwn(done: set<string>, own: set<string>, id: string, ids: set<string>)
    requires done !! ids && id !in ids && own <= {id}
    ensures done + own !! ids
  {
  }

  lemma OwnIdApart<D>(v: Tree<D>, u: Tree<D>)
    requires Ids(v) !! Ids(u)
    ensures v.id !in Ids(u)
  {
    assert v.id in Ids(v);
  }

  lemma EnqueuedChild<D>(t: Tree<D>, v: Tree<D>, done: set<string>, k: nat)
    requires Unique(t) && Occurs(t, v) && done !! Ids(v) && k < |v.descendants|
    ensures Occurs(t, v.descendants[k]) && done !! Ids(v.descendants[k]) && v.id !in Ids(v.descendants[k])
  {
    OccursUnique(t, v);
    OccursChild(t, v, k);
    assert Ids(v.descendants[k]) <= Ids(v);
  }

  lemma NextApart<D>(t: Tree<D>, queue: seq<Tree<D>>, done: set<string>, i: nat, j: nat)
    requires Unique(t) && Pending(t, queue, done) && queue != [] && i < j < |Next(queue)|
    ensures Ids(Next(queue)[i]) !! Ids(Next(queue)[j])
  {
    OccursUnique(t, queue[0]);
    NextFrom(queue, i);
    NextFrom(queue, j);
  }

  lemma NextFrom<D>(queue: seq<Tree<D>>, i: nat)
    requires queue != [] && i < |Next(queue)|
    ensures i < |queue| - 1 ==> Next(queue)[i] == queue[i + 1]
    ensures i >= |queue| - 1 ==> Next(queue)[i] == queue[0].descendants[i - (|queue| - 1)] && Ids(Next(queue)[i]) <= Ids(queue[0])
  {
  }

  /** At the end of the traversal the list holds the selections, each once. */
  lemma AllSelected<D(!new)>(perms: seq<Shape<D>>, t: Tree<D>, done: set<string>)
    requires Unique(t) && Pending(t, [], done) && Lists(perms, t, done)
    ensures NoDuplicates(perms) && forall q :: q in perms <==> IsSelection(t, q)
  {
    assert done == InternalIds(t);
    forall q ensures q in perms <==> IsSelection(t, q) {
      HandledEverywhere(t, q);
    }
  }
}
