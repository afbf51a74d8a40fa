/**
 Threshold trees in memory (common/graph/tree.go and perm.go): vertices that refer to their descendants,
 cloning, in-place replacement, random pruning and the breadth-first expansion into all selections.
 */
module TreePermutations {
  import opened Combinations
  import opened TreeExpansion
  import opened TreePruning
  import opened TreeSelections

  class TreeVertex<D> {
    const id: string
    const data: D
    var descendants: seq<TreeVertex<D>>
    var threshold: int
    /** This vertex and everything below it. */
    ghost var repr: set<TreeVertex<D>>

    /** The vertices below do not lead back here. */
    ghost predicate Valid()
      reads this, repr
      decreases repr
    {
      && this in repr
      && forall u | u in descendants :: u in repr && u.repr <= repr && this !in u.repr && u.Valid()
    }

    /** No two descendants share a vertex, all the way down. */
    ghost predicate Separate()
      requires Valid()
      reads this, repr
      decreases repr
    {
      && (forall u | u in descendants :: u.Separate())
      && (forall i, j | 0 <= i < j < |descendants| :: descendants[i].repr !! descendants[j].repr)
    }

    ghost function View(): Tree<D>
      requires Valid()
      reads this, repr
      decreases repr
    {
      Tree(id, data, threshold, seq(|descendants|, i requires 0 <= i < |descendants| && Valid() reads this, repr => descendants[i].View()))
    }

    ghost function Outline(): Shape<D>
      requires Valid()
      reads this, repr
    {
      Erase(View())
    }

    /** The vertex is valid, lies within the set and has the given outline. */
    ghost predicate Shows(outline: Shape<D>, within: set<TreeVertex<D>>)
      reads this, repr
    {
      Valid() && repr <= within && Outline() == outline
    }

    /** The vertex has these vertices below it, none of them shared, and the given outline. */
    ghost predicate Intact(repr': set<TreeVertex<D>>, outline: Shape<D>)
      reads this, repr
    {
      Valid() && Separate() && repr == repr' && Outline() == outline
    }

    lemma OutlineBy(kids: seq<Shape<D>>)
      requires Valid() && |kids| == |descendants| && forall i | 0 <= i < |kids| :: descendants[i].Outline() == kids[i]
      ensures Outline() == Shape(id, data, kids)
    {
      assert Outline().descendants == kids;
    }

    /** A vertex over valid descendants; the threshold is left unset. */
    constructor (id: string, data: D, descendants: seq<TreeVertex<D>>)
      requires forall u | u in descendants :: u.Valid()
      ensures this.id == id && this.data == data && this.descendants == descendants && threshold == 0
      ensures Valid() && repr == {this} + Vertices(descendants)
    {
      this.id, this.data, this.descendants, this.threshold := id, data, descendants, 0;
      repr := {this} + Vertices(descendants);
    }

    /** `Find`: some vertex with the identifier, if there is one. */
    method Find(id: string) returns (r: TreeVertex?<D>)
      requires Valid()
      ensures r != null <==> Exists(Outline(), id)
      ensures r != null ==> r in repr && r.id == id
      decreases repr
    {
      if this.id == id {
        return this;
      }
      for k := 0 to |descendants|
        invariant forall j | 0 <= j < k :: !Exists(descendants[j].Outline(), id)
      {
        r := descendants[k].Find(id);
        if r != null {
          assert Exists(Outline().descendants[k], id);
          return;
        }
      }
      r := null;
    }

    /** `Clone`: a copy that shares no vertex with anything. */
    method Clone() returns (copy: TreeVertex<D>)
      requires Valid()
      ensures copy.Valid() && fresh(copy.repr) && copy.Separate() && copy.Outline() == old(Outline())
      decreases repr, 1
    {
      ghost var kids := Outline().descendants;
      var copies := CloneDescendants();
      copy := new TreeVertex(id, data, copies);
      copy.OutlineBy(kids);
    }

    method CloneDescendants() returns (copies: seq<TreeVertex<D>>)
      requires Valid()
      ensures |copies| == |old(Outline()).descendants|
      ensures forall j | 0 <= j < |copies| ::
        copies[j].Valid() && fresh(copies[j].repr) && copies[j].Separate() && copies[j].Outline() == old(Outline()).descendants[j]
      ensures forall i, j | 0 <= i < j < |copies| :: copies[i].repr !! copies[j].repr
      decreases repr, 0
    {
      copies := [];
      ghost var kids := Outline().descendants;
      for k := 0 to |descendants|
        invariant |copies| == k
        invariant forall j | 0 <= j < k ::
          copies[j].Valid() && fresh(copies[j].repr) && copies[j].Separate() && copies[j].Outline() == kids[j]
        invariant forall i, j | 0 <= i < j < k :: copies[i].repr !! copies[j].repr
      {
        assert descendants[k].Valid() && descendants[k].Outline() == old(descendants[k].Outline());
        var c := descendants[k].Clone();
        copies := copies + [c];
      }
    }

    /**
     `replace`: the vertices with the identifier take over the descendants of `r`.  Only this tree is written to;
     `below` holds everything below `r`.
     */
    method Replace(id: string, r: TreeVertex<D>, ghost kids: seq<Shape<D>>, ghost below: set<TreeVertex<D>>)
      requires Valid() && Separate() && r !in repr && below !! repr
      requires Drawn(r.descendants, kids, below)
      modifies repr
      ensures Valid() && repr <= old(repr) + below
      ensures Outline() == TreeSelections.Replace(old(Outline()), id, kids)
      decreases repr, 1
    {
      if this.id == id {
        descendants := r.descendants;
        repr := {this} + below;
        OutlineBy(kids);
        return;
      }
      ghost var was := Outline().descendants;
      ReplaceBelow(id, r, kids, below);
      repr := repr + below;
      OutlineBy(seq(|was|, i requires 0 <= i < |was| => TreeSelections.Replace(was[i], id, kids)));
    }

    /** `replace` on every descendant. */
    method ReplaceBelow(id: string, r: TreeVertex<D>, ghost kids: seq<Shape<D>>, ghost below: set<TreeVertex<D>>)
      requires Valid() && Separate() && r !in repr && below !! repr
      requires Drawn(r.descendants, kids, below)
      modifies repr - {this}
      ensures descendants == old(descendants) && repr == old(repr)
      ensures forall j | 0 <= j < |descendants| ::
        descendants[j].Shows(TreeSelections.Replace(old(descendants[j].Outline()), id, kids), old(descendants[j].repr) + below)
      decreases repr, 0
    {
      for k := 0 to |descendants|
        invariant forall j | 0 <= j < k ::
          descendants[j].Shows(TreeSelections.Replace(old(descendants[j].Outline()), id, kids), old(descendants[j].repr) + below)
        invariant forall j | k <= j < |descendants| :: descendants[j].Intact(old(descendants[j].repr), old(descendants[j].Outline()))
        invariant Drawn(r.descendants, kids, below)
      {
        descendants[k].Replace(id, r, kids, below);
      }
    }
  }

  /** The vertices are valid, lie within `below` and have the given outlines. */
  ghost predicate Drawn<D>(vs: seq<TreeVertex<D>>, outlines: seq<Shape<D>>, below: set<TreeVertex<D>>)
    reads vs, below
  {
    && |vs| == |outlines|
    && forall i | 0 <= i < |vs| :: vs[i] in below && vs[i].repr <= below && vs[i].Valid() && vs[i].Outline() == outlines[i]
  }

  /** Everything below some of the vertices. */
  ghost function Vertices<D>(vs: seq<TreeVertex<D>>): set<TreeVertex<D>>
    reads vs
  {
    set v, o | v in vs && o in v.repr :: o
  }

  /** The vertices are valid and have the given outlines. */
  ghost predicate Sketched<D>(vs: seq<TreeVertex<D>>, outlines: seq<Shape<D>>)
    reads vs, Vertices(vs)
  {
    |vs| == |outlines| && forall i | 0 <= i < |vs| :: vs[i].Valid() && vs[i].Outline() == outlines[i]
  }

  lemma SketchedMore<D>(vs: seq<TreeVertex<D>>, outlines: seq<Shape<D>>, v: TreeVertex<D>)
    requires Sketched(vs, outlines) && v.Valid()
    ensures Sketched(vs + [v], outlines + [v.Outline()])
  {
  }

  /** The combinations that belong to a vertex. */
  function CombinationsOf(n: nat, threshold: int): seq<seq<int>> {
    if threshold < 0 then [] else Chosen(n, threshold, 0, [])
  }

  lemma CombinationsListed(n: nat, threshold: nat)
    ensures NoDuplicates(CombinationsOf(n, threshold))
    ensures forall c :: c in CombinationsOf(n, threshold) <==> IsCombination(c, n, threshold)
    ensures forall i | 0 <= i < |CombinationsOf(n, threshold)| :: IsCombination(CombinationsOf(n, threshold)[i], n, threshold)
  {
    AllCombinations(n, threshold);
    forall i | 0 <= i < |CombinationsOf(n, threshold)| ensures IsCombination(CombinationsOf(n, threshold)[i], n, threshold) {
      assert CombinationsOf(n, threshold)[i] in CombinationsOf(n, threshold);
    }
  }

  /** The choices recorded for a vertex are its descendants at every combination of indices. */
  ghost predicate Recorded<D>(v: TreeVertex<D>, choices: seq<seq<TreeVertex<D>>>)
    reads v
  {
    var combinations := CombinationsOf(|v.descendants|, v.threshold);
    && v.threshold >= 0
    && |choices| == |combinations|
    && forall i | 0 <= i < |choices| ::
         IsCombination(combinations[i], |v.descendants|, v.threshold) && choices[i] == Pick(v.descendants, combinations[i])
  }

  /** The choices are recorded for every internal vertex at or below `v`. */
  ghost predicate AllRecorded<D>(v: TreeVertex<D>, table: map<TreeVertex<D>, seq<seq<TreeVertex<D>>>>)
    requires v.Valid()
    reads v, v.repr
    decreases v.repr
  {
    && (v.descendants != [] ==> Recorded(v, Entry(table, v)))
    && forall u | u in v.descendants :: AllRecorded(u, table)
  }

  /** A lookup in a Go map gives the empty list when there is no entry. */
  function Entry<D>(table: map<TreeVertex<D>, seq<seq<TreeVertex<D>>>>, v: TreeVertex<D>): seq<seq<TreeVertex<D>>> {
    if v in table then table[v] else []
  }

  lemma FilterStep<D>(outlines: seq<Shape<D>>, k: nat, id: string)
    requires k < |outlines|
    ensures Present(outlines[..k + 1], id) == Present(outlines[..k], id) + if Exists(outlines[k], id) then [outlines[k]] else []
    ensures Absent(outlines[..k + 1], id) == Absent(outlines[..k], id) + if Exists(outlines[k], id) then [] else [outlines[k]]
  {
    assert outlines[..k + 1][..k] == outlines[..k];
  }

  /** Each vertex of the selection goes with the same outline as it does in the whole list. */
  ghost predicate Among<D>(part: seq<TreeVertex<D>>, outlines': seq<Shape<D>>, all: seq<TreeVertex<D>>, outlines: seq<Shape<D>>) {
    && |part| == |outlines'| && |all| == |outlines|
    && forall i | 0 <= i < |part| :: exists j | 0 <= j < |all| :: part[i] == all[j] && outlines'[i] == outlines[j]
  }

  lemma AmongMore<D>(part: seq<TreeVertex<D>>, outlines': seq<Shape<D>>, all: seq<TreeVertex<D>>, outlines: seq<Shape<D>>, k: nat)
    requires Among(part, outlines', all, outlines) && k < |all|
    ensures Among(part + [all[k]], outlines' + [outlines[k]], all, outlines)
  {
  }

  /** `Exists` on one of the permutations. */
  method Holds<D>(perms: seq<TreeVertex<D>>, k: nat, id: string, ghost outlines: seq<Shape<D>>) returns (found: bool)
    requires Sketched(perms, outlines) && k < |perms|
    ensures found <==> Exists(outlines[k], id)
    ensures Sketched(perms, outlines)
  {
    var r := perms[k].Find(id);
    found := r != null;
  }

  /** Splits the permutations by whether they hold the vertex. */
  method Partition<D>(perms: seq<TreeVertex<D>>, id: string, ghost outlines: seq<Shape<D>>)
    returns (with: seq<TreeVertex<D>>, without: seq<TreeVertex<D>>)
    requires Sketched(perms, outlines)
    ensures Sketched(with, Present(outlines, id)) && Sketched(without, Absent(outlines, id))
  {
    with, without := [], [];
    ghost var present: seq<Shape<D>>, absent: seq<Shape<D>> := [], [];
    for k := 0 to |perms|
      invariant Sketched(perms, outlines)
      invariant present == Present(outlines[..k], id) && absent == Absent(outlines[..k], id)
      invariant Among(with, present, perms, outlines) && Among(without, absent, perms, outlines)
    {
      FilterStep(outlines, k, id);
      var holds := Holds(perms, k, id, outlines);
      if holds {
        AmongMore(with, present, perms, outlines, k);
        with, present := with + [perms[k]], present + [outlines[k]];
      } else {
        AmongMore(without, absent, perms, outlines, k);
        without, absent := without + [perms[k]], absent + [outlines[k]];
      }
    }
    assert outlines[..|perms|] == outlines;
  }

  /** Gives the vertex in a separate tree the chosen descendants. */
  method Attach<D>(tree: TreeVertex<D>, v: TreeVertex<D>, choice: seq<TreeVertex<D>>,
                   ghost kids: seq<Shape<D>>, ghost below: set<TreeVertex<D>>)
    requires tree.Valid() && tree.Separate() && below !! tree.repr && Drawn(choice, kids, below)
    modifies tree.repr
    ensures tree.Valid() && tree.Outline() == TreeSelections.Replace(old(tree.Outline()), v.id, kids)
  {
    var subGraph := new TreeVertex(v.id, v.data, choice);
    tree.Replace(v.id, subGraph, kids, below);
  }

  /** A clone of the permutation in which the vertex has the chosen descendants. */
  method Graft<D>(perm: TreeVertex<D>, v: TreeVertex<D>, choice: seq<TreeVertex<D>>,
                  ghost kids: seq<Shape<D>>, ghost below: set<TreeVertex<D>>)
    returns (newTree: TreeVertex<D>)
    requires perm.Valid() && Drawn(choice, kids, below)
    ensures newTree.Valid() && newTree.Outline() == TreeSelections.Replace(old(perm.Outline()), v.id, kids)
  {
    newTree := perm.Clone();
    Attach(newTree, v, choice, kids, below);
  }

  /** One permutation, cloned and replaced once per choice. */
  method ExpandOne<D>(perm: TreeVertex<D>, v: TreeVertex<D>, choices: seq<seq<TreeVertex<D>>>,
                      ghost kids: seq<seq<Shape<D>>>, ghost below: set<TreeVertex<D>>)
    returns (expanded: seq<TreeVertex<D>>)
    requires perm.Valid() && |choices| == |kids| && forall i | 0 <= i < |choices| :: Drawn(choices[i], kids[i], below)
    ensures Sketched(expanded, Row(old(perm.Outline()), v.id, kids))
  {
    expanded := [];
    ghost var row, done := Row(perm.Outline(), v.id, kids), [];
    for k := 0 to |choices|
      invariant perm.Valid() && perm.Outline() == old(perm.Outline())
      invariant forall i | 0 <= i < |choices| :: Drawn(choices[i], kids[i], below)
      invariant done == row[..k] && Sketched(expanded, done)
    {
      var newTree := Graft(perm, v, choices[k], kids[k], below);
      SketchedMore(expanded, done, newTree);
      expanded, done := expanded + [newTree], done + [newTree.Outline()];
    }
  }

  lemma SketchedAppend<D>(vs: seq<TreeVertex<D>>, outlines: seq<Shape<D>>, vs': seq<TreeVertex<D>>, outlines': seq<Shape<D>>)
    requires Sketched(vs, outlines) && Sketched(vs', outlines')
    ensures Sketched(vs + vs', outlines + outlines')
  {
  }

  lemma RowsStep<D>(before: seq<Shape<D>>, present: seq<Shape<D>>, k: nat, id: string, kids: seq<seq<Shape<D>>>)
    requires k < |present|
    ensures before + Rows(present[..k + 1], id, kids) == before + Rows(present[..k], id, kids) + Row(present[k], id, kids)
  {
    assert present[..k + 1][..k] == present[..k];
    assert Rows(present[..k + 1], id, kids) == Rows(present[..k], id, kids) + Row(present[k], id, kids);
  }

  /** The whole expansion step at one vertex. */
  method ExpandVertex<D>(perms: seq<TreeVertex<D>>, v: TreeVertex<D>, choices: seq<seq<TreeVertex<D>>>,
                         ghost outlines: seq<Shape<D>>, ghost kids: seq<seq<Shape<D>>>, ghost below: set<TreeVertex<D>>)
    returns (expanded: seq<TreeVertex<D>>)
    requires Sketched(perms, outlines)
    requires |choices| == |kids| && forall i | 0 <= i < |choices| :: Drawn(choices[i], kids[i], below)
    ensures Sketched(expanded, Expand(outlines, v.id, kids))
  {
    var with, without := Partition(perms, v.id, outlines);
    expanded := without;
    ghost var present, done := Present(outlines, v.id), Absent(outlines, v.id);
    assert done == Absent(outlines, v.id) + Rows([], v.id, kids);
    for k := 0 to |with|
      invariant forall i | 0 <= i < |choices| :: Drawn(choices[i], kids[i], below)
      invariant Sketched(with, present) && Sketched(expanded, done)
      invariant done == Absent(outlines, v.id) + Rows(present[..k], v.id, kids)
    {
      var more := ExpandOne(with[k], v, choices, kids, below);
      SketchedAppend(expanded, done, more, Row(present[k], v.id, kids));
      RowsStep(Absent(outlines, v.id), present, k, v.id, kids);
      expanded, done := expanded + more, done + Row(present[k], v.id, kids);
    }
    assert present[..|with|] == present;
  }

  // ---------------------------------------------------------------------------
  // permute
  // ---------------------------------------------------------------------------

  /** The queued vertices, their trees, and the recorded choices below them. */
  ghost predicate Queued<D>(queue: seq<TreeVertex<D>>, trees: seq<Tree<D>>, table: map<TreeVertex<D>, seq<seq<TreeVertex<D>>>>)
    reads queue, Vertices(queue)
  {
    && |queue| == |trees|
    && forall i | 0 <= i < |queue| :: queue[i].Valid() && queue[i].View() == trees[i] && AllRecorded(queue[i], table)
  }

  lemma QueuedNext<D>(queue: seq<TreeVertex<D>>, trees: seq<Tree<D>>, table: map<TreeVertex<D>, seq<seq<TreeVertex<D>>>>)
    requires queue != [] && Queued(queue, trees, table)
    ensures Queued(queue[1..] + queue[0].descendants, Next(trees), table)
  {
    var v, next := queue[0], queue[1..] + queue[0].descendants;
    forall i | 0 <= i < |next|
      ensures next[i].Valid() && next[i].View() == Next(trees)[i] && AllRecorded(next[i], table)
    {
      if i < |queue| - 1 {
        assert next[i] == queue[i + 1];
      } else {
        assert next[i] == v.descendants[i - (|queue| - 1)];
      }
    }
  }

  /** The recorded choices of a vertex look like the choices of its tree. */
  lemma ChoicesDrawn<D>(v: TreeVertex<D>, choices: seq<seq<TreeVertex<D>>>) returns (kids: seq<seq<Shape<D>>>)
    requires v.Valid() && Recorded(v, choices)
    ensures var combinations := CombinationsOf(|v.descendants|, v.threshold);
            && (forall i | 0 <= i < |combinations| :: IsCombination(combinations[i], |v.View().descendants|, v.View().threshold))
            && kids == ChoicesAt(v.View(), combinations)
    ensures |kids| == |choices| && forall i | 0 <= i < |choices| :: Drawn(choices[i], kids[i], v.repr)
  {
    kids := ChoicesAt(v.View(), CombinationsOf(|v.descendants|, v.threshold));
    forall i | 0 <= i < |choices| ensures Drawn(choices[i], kids[i], v.repr) {
      var c := CombinationsOf(|v.descendants|, v.threshold)[i];
      assert kids[i] == ChoiceAt(v.View(), c);
      forall j | 0 <= j < |choices[i]|
        ensures choices[i][j] in v.repr && choices[i][j].repr <= v.repr && choices[i][j].Valid() && choices[i][j].Outline() == kids[i][j]
      {
        assert choices[i][j] == v.descendants[c[j]];
      }
    }
  }

  // ---------------------------------------------------------------------------
  // Pruning
  // ---------------------------------------------------------------------------

  /** The descendants after pruning: some of the old ones, in their order, in the right number. */
  ghost predicate PrunedKids<D>(was: seq<TreeVertex<D>>, now: seq<TreeVertex<D>>, threshold: int, bound: int) {
    Counts(|was|, |now|, threshold, bound) && exists kept :: KidsBy(was, now, kept)
  }

  ghost predicate KidsBy<D>(was: seq<TreeVertex<D>>, now: seq<TreeVertex<D>>, kept: seq<int>) {
    IsCombination(kept, |was|, |now|) && now == Pick(was, kept)
  }

  lemma KidsByAll<D>(was: seq<TreeVertex<D>>)
    ensures KidsBy(was, was, Everything(|was|))
  {
  }

  lemma KidsByFewer<D>(was: seq<TreeVertex<D>>, now: seq<TreeVertex<D>>, kept: seq<int>, victim: nat)
    requires KidsBy(was, now, kept) && victim < |now|
    ensures KidsBy(was, now[..victim] + now[victim + 1..], kept[..victim] + kept[victim + 1..])
  {
  }

  /** Takes out random descendants while there are too many combinations. */
  method Prune<D>(v: TreeVertex<D>, bound: int)
    requires v.threshold >= 0 && bound >= 1
    modifies v`descendants
    ensures PrunedKids(old(v.descendants), v.descendants, v.threshold, bound)
  {
    ghost var kept := Everything(|v.descendants|);
    KidsByAll(v.descendants);
    while CombinationsExceed(|v.descendants|, v.threshold, bound)
      invariant KidsBy(old(v.descendants), v.descendants, kept)
      invariant |old(v.descendants)| >= v.threshold ==> |v.descendants| >= v.threshold
      invariant old(v.descendants) != [] ==> v.descendants != []
      invariant |v.descendants| == |old(v.descendants)| || CombinationsExceed(|v.descendants| + 1, v.threshold, bound)
      invariant !CombinationsExceed(|old(v.descendants)|, v.threshold, bound) ==> |v.descendants| == |old(v.descendants)|
      decreases |v.descendants|
    {
      ExceedsNeedsMore(|v.descendants|, v.threshold, bound);
      var victim :| 0 <= victim < |v.descendants|;
      KidsByFewer(old(v.descendants), v.descendants, kept, victim);
      kept := kept[..victim] + kept[victim + 1..];
      v.descendants := v.descendants[..victim] + v.descendants[victim + 1..];
    }
  }

  /** The descendants at every combination of indices. */
  method Select<D>(v: TreeVertex<D>) returns (choices: seq<seq<TreeVertex<D>>>)
    requires v.threshold >= 0
    ensures Recorded(v, choices)
  {
    var combinations := ChooseKoutOfN(|v.descendants|, v.threshold);
    CombinationsListed(|v.descendants|, v.threshold);
    choices := [];
    for k := 0 to |combinations|
      invariant |choices| == k
      invariant forall i | 0 <= i < k :: choices[i] == Pick(v.descendants, combinations[i])
    {
      choices := choices + [Pick(v.descendants, combinations[k])];
    }
  }

  /** The vertex does not lead back to itself, as far as its descendants say. */
  ghost predicate Rooted<D>(y: TreeVertex<D>)
    reads y, y.descendants`repr
  {
    y in y.repr && forall u | u in y.descendants :: u in y.repr && u.repr <= y.repr && y !in u.repr
  }

  /** A tree all of whose vertices are rooted is valid. */
  lemma {:induction false} RootedValid<D>(x: TreeVertex<D>, done: set<TreeVertex<D>>)
    requires x in done && forall y | y in done :: Rooted(y) && forall u | u in y.descendants :: u in done
    ensures x.Valid()
    decreases x.repr
  {
    assert Rooted(x);
    forall u | u in x.descendants ensures u.Valid() {
      RootedValid(u, done);
    }
  }

  ghost predicate RecordedAt<D>(y: TreeVertex<D>, table: map<TreeVertex<D>, seq<seq<TreeVertex<D>>>>)
    reads y
  {
    y.descendants != [] ==> Recorded(y, Entry(table, y))
  }

  lemma {:induction false} RecordedBelow<D>(x: TreeVertex<D>, done: set<TreeVertex<D>>, table: map<TreeVertex<D>, seq<seq<TreeVertex<D>>>>)
    requires x.Valid() && x in done
    requires forall y | y in done :: RecordedAt(y, table) && forall u | u in y.descendants :: u in done
    ensures AllRecorded(x, table)
    decreases x.repr
  {
    assert RecordedAt(x, table);
    forall u | u in x.descendants ensures AllRecorded(u, table) {
      RecordedBelow(u, done, table);
    }
  }

  /** The vertex keeps, of the tree it had, the subtrees at the indices `kept`. */
  ghost predicate PrunedAt<D>(y: TreeVertex<D>, trees: map<TreeVertex<D>, Tree<D>>, kept: seq<int>, bound: int)
    reads y
  {
    && y in trees && trees[y].id == y.id && trees[y].data == y.data && trees[y].threshold == y.threshold
    && IsCombination(kept, |trees[y].descendants|, |y.descendants|)
    && (trees[y].descendants != [] ==> Counts(|trees[y].descendants|, |y.descendants|, y.threshold, bound))
    && forall j | 0 <= j < |y.descendants| ::
         y.descendants[j] in trees && trees[y].descendants[kept[j]] == trees[y.descendants[j]]
  }

  lemma ViewChild<D>(x: TreeVertex<D>, i: nat)
    requires x.Valid() && i < |x.descendants|
    ensures |x.View().descendants| == |x.descendants| && x.View().descendants[i] == x.descendants[i].View()
  {
  }

  /** Where every vertex was pruned, the tree was pruned. */
  lemma {:induction false} PrunedBelow<D>(x: TreeVertex<D>, done: set<TreeVertex<D>>, trees: map<TreeVertex<D>, Tree<D>>,
                                          kept: map<TreeVertex<D>, seq<int>>, bound: int)
    requires x.Valid() && x in done
    requires forall y | y in done :: y in kept && PrunedAt(y, trees, kept[y], bound) && forall u | u in y.descendants :: u in done
    ensures x in trees && PrunedTo(trees[x], x.View(), bound)
    decreases x.repr
  {
    assert PrunedAt(x, trees, kept[x], bound);
    forall j | 0 <= j < |x.descendants| ensures PrunedTo(trees[x].descendants[kept[x][j]], x.View().descendants[j], bound) {
      PrunedBelow(x.descendants[j], done, trees, kept, bound);
      ViewChild(x, j);
    }
    assert PrunedBy(trees[x], x.View(), bound, kept[x]);
  }

  /** The vertices still to be pruned: separate, untouched trees. */
  ghost predicate Untouched<D>(queue: seq<TreeVertex<D>>, trees: map<TreeVertex<D>, Tree<D>>)
    reads queue, Vertices(queue)
  {
    && (forall i | 0 <= i < |queue| ::
          && queue[i].Valid() && queue[i].Separate()
          && queue[i] in trees && trees[queue[i]] == queue[i].View() && Sane(queue[i].View()))
    && (forall i, j | 0 <= i < j < |queue| :: queue[i].repr !! queue[j].repr)
  }

  /** The trees of the descendants are known from now on. */
  ghost function WithChildren<D>(trees: map<TreeVertex<D>, Tree<D>>, v: TreeVertex<D>): (r: map<TreeVertex<D>, Tree<D>>)
    requires v.Valid()
    reads v, v.repr
  {
    trees + map u | u in v.descendants :: u.View()
  }

  /** Taking a vertex off the queue and putting its descendants on it keeps the queue as it should be. */
  lemma UntouchedNext<D>(queue: seq<TreeVertex<D>>, trees: map<TreeVertex<D>, Tree<D>>)
    requires queue != [] && Untouched(queue, trees)
    ensures Untouched(queue[1..] + queue[0].descendants, WithChildren(trees, queue[0]))
    ensures forall u | u in queue[1..] + queue[0].descendants :: queue[0] !in u.repr
  {
    var v, next, trees' := queue[0], queue[1..] + queue[0].descendants, WithChildren(trees, queue[0]);
    forall i | 0 <= i < |next|
      ensures next[i].Valid() && next[i].Separate() && next[i] in trees' && trees'[next[i]] == next[i].View() && Sane(next[i].View())
      ensures v !in next[i].repr
    {
      UntouchedAt(queue, trees, i);
    }
    forall i, j | 0 <= i < j < |next| ensures next[i].repr !! next[j].repr {
      UntouchedAt(queue, trees, i);
      UntouchedAt(queue, trees, j);
    }
  }

  lemma UntouchedAt<D>(queue: seq<TreeVertex<D>>, trees: map<TreeVertex<D>, Tree<D>>, i: nat)
    requires queue != [] && Untouched(queue, trees) && i < |queue[1..] + queue[0].descendants|
    ensures var v, u := queue[0], (queue[1..] + queue[0].descendants)[i];
            && u.Valid() && u.Separate() && v !in u.repr && Sane(u.View())
            && u in WithChildren(trees, v) && WithChildren(trees, v)[u] == u.View()
            && (if i < |queue| - 1 then u == queue[i + 1] && u.repr !! v.repr
                else u == v.descendants[i - (|queue| - 1)] && u.repr <= v.repr)
  {
    var v := queue[0];
    if i >= |queue| - 1 {
      ViewChild(v, i - (|queue| - 1));
    }
  }

  /** The vertex is done with: pruned and recorded, its descendants within `reach`. */
  ghost predicate Settled<D>(y: TreeVertex<D>, trees: map<TreeVertex<D>, Tree<D>>, kept: map<TreeVertex<D>, seq<int>>,
                             table: map<TreeVertex<D>, seq<seq<TreeVertex<D>>>>, bound: int, reach: set<TreeVertex<D>>)
    reads y, y.descendants`repr
  {
    && Rooted(y) && RecordedAt(y, table)
    && y in kept && PrunedAt(y, trees, kept[y], bound)
    && forall u | u in y.descendants :: u in reach
  }

  lemma SettledMore<D>(y: TreeVertex<D>, trees: map<TreeVertex<D>, Tree<D>>, kept: map<TreeVertex<D>, seq<int>>,
                       table: map<TreeVertex<D>, seq<seq<TreeVertex<D>>>>, bound: int, reach: set<TreeVertex<D>>,
                       trees': map<TreeVertex<D>, Tree<D>>, kept': map<TreeVertex<D>, seq<int>>,
                       table': map<TreeVertex<D>, seq<seq<TreeVertex<D>>>>, reach': set<TreeVertex<D>>)
    requires Settled(y, trees, kept, table, bound, reach)
    requires forall x | x in trees :: x in trees' && trees'[x] == trees[x]
    requires y in kept' && kept'[y] == kept[y] && Entry(table', y) == Entry(table, y) && reach <= reach'
    ensures Settled(y, trees', kept', table', bound, reach')
  {
  }

  /** The state of the pruning loop: `done` vertices are settled, the queued ones untouched, and the two apart. */
  ghost predicate Progress<D>(queue: seq<TreeVertex<D>>, trees: map<TreeVertex<D>, Tree<D>>, kept: map<TreeVertex<D>, seq<int>>,
                              table: map<TreeVertex<D>, seq<seq<TreeVertex<D>>>>, bound: int, done: set<TreeVertex<D>>, all: set<TreeVertex<D>>)
    reads *
  {
    && Untouched(queue, trees)
    && (forall y | y in done :: Settled(y, trees, kept, table, bound, trees.Keys))
    && trees.Keys == done + (set u | u in queue)
    && (forall u | u in queue :: u.repr <= all - done)
    && done <= all && table.Keys <= done
  }

  /** What was known of a vertex before it was treated: its tree `t` and its descendants `was`. */
  ghost predicate Known<D>(v: TreeVertex<D>, t: Tree<D>, was: seq<TreeVertex<D>>, trees: map<TreeVertex<D>, Tree<D>>)
    reads v, was`repr
  {
    && v in trees && trees[v] == t && t.id == v.id && t.data == v.data && t.threshold == v.threshold
    && |t.descendants| == |was| && (forall i | 0 <= i < |was| :: was[i] in trees && trees[was[i]] == t.descendants[i])
    && v in v.repr && forall u | u in was :: u in v.repr && u.repr <= v.repr && v !in u.repr
  }

  lemma HeadKnown<D>(queue: seq<TreeVertex<D>>, trees: map<TreeVertex<D>, Tree<D>>)
    requires queue != [] && Untouched(queue, trees)
    ensures var v := queue[0]; Known(v, v.View(), v.descendants, WithChildren(trees, v))
    ensures Sane(queue[0].View())
  {
    var v, trees' := queue[0], WithChildren(trees, queue[0]);
    assert v !in v.descendants;
    forall i | 0 <= i < |v.descendants| ensures v.descendants[i] in trees' && trees'[v.descendants[i]] == v.View().descendants[i] {
      ViewChild(v, i);
    }
  }

  /** A vertex just treated is settled. */
  lemma SettledNow<D>(v: TreeVertex<D>, t: Tree<D>, was: seq<TreeVertex<D>>, k: seq<int>, trees: map<TreeVertex<D>, Tree<D>>,
                      kept: map<TreeVertex<D>, seq<int>>, table: map<TreeVertex<D>, seq<seq<TreeVertex<D>>>>, bound: int)
    requires Known(v, t, was, trees)
    requires KidsBy(was, v.descendants, k) && (was != [] ==> Counts(|was|, |v.descendants|, v.threshold, bound))
    requires v in kept && kept[v] == k && RecordedAt(v, table)
    ensures Settled(v, trees, kept, table, bound, trees.Keys)
  {
    forall u | u in v.descendants ensures u in was {
      var j :| 0 <= j < |v.descendants| && v.descendants[j] == u;
      assert u == was[k[j]];
    }
  }

  /** The vertices that the queue knew are known as before. */
  lemma TreesKept<D>(queue: seq<TreeVertex<D>>, trees: map<TreeVertex<D>, Tree<D>>, done: set<TreeVertex<D>>, all: set<TreeVertex<D>>)
    requires queue != [] && Untouched(queue, trees) && trees.Keys == done + (set u | u in queue)
    requires forall u | u in queue :: u.repr <= all - done
    ensures var v := queue[0]; var trees' := WithChildren(trees, v);
            && (forall x | x in trees :: x in trees' && trees'[x] == trees[x])
            && trees'.Keys == done + {v} + (set u | u in queue[1..] + v.descendants)
            && v in all - done
            && (forall u | u in queue[1..] + v.descendants :: u.repr <= all - (done + {v}))
  {
    var v := queue[0];
    var trees', next := WithChildren(trees, v), queue[1..] + v.descendants;
    forall x | x in trees ensures x in trees' && trees'[x] == trees[x] {
      if x in queue && x in v.descendants {
        var i :| 0 <= i < |queue| && queue[i] == x;
        assert x in x.repr && x in v.repr;
      }
    }
    forall x ensures x in trees' <==> x in done + {v} + set u | u in next {
      if x in queue {
        var i :| 0 <= i < |queue| && queue[i] == x;
        assert i > 0 ==> queue[1..][i - 1] == x;
      }
    }
    forall u | u in next ensures u.repr <= all - (done + {v}) {
      var i :| 0 <= i < |next| && next[i] == u;
      UntouchedAt(queue, trees, i);
    }
  }

  class Permuter<D(!new)> {
    const combinationUpperBound: int
    const originalRoot: TreeVertex<D>
    var permutations: seq<TreeVertex<D>>
    var descendantPermutations: map<TreeVertex<D>, seq<seq<TreeVertex<D>>>>

    /** `newTreePermutation`. */
    constructor (root: TreeVertex<D>, combinationUpperBound: int)
      ensures originalRoot == root && this.combinationUpperBound == combinationUpperBound
      ensures permutations == [root] && descendantPermutations == map[]
    {
      originalRoot, this.combinationUpperBound := root, combinationUpperBound;
      permutations, descendantPermutations := [root], map[];
    }

    /** Prunes the descendants of one vertex and records its choices. */
    method Treat(v: TreeVertex<D>) returns (ghost kept: seq<int>)
      requires combinationUpperBound >= 1 && v.threshold >= 0 && v !in descendantPermutations
      modifies this`descendantPermutations, v`descendants
      ensures Counts(|old(v.descendants)|, |v.descendants|, v.threshold, combinationUpperBound)
      ensures KidsBy(old(v.descendants), v.descendants, kept)
      ensures v in descendantPermutations && Recorded(v, descendantPermutations[v])
      ensures descendantPermutations == old(descendantPermutations)[v := descendantPermutations[v]]
    {
      Prune(v, combinationUpperBound);
      kept :| KidsBy(old(v.descendants), v.descendants, kept);
      var choices := Select(v);
      descendantPermutations := descendantPermutations[v := Entry(descendantPermutations, v) + choices];
      assert descendantPermutations[v] == choices;
    }

    /** Treats a vertex; leaves are skipped.  What was known of the others stays true. */
    method TreatUnlessLeaf(v: TreeVertex<D>, ghost next: seq<TreeVertex<D>>, ghost t: Tree<D>, ghost was: seq<TreeVertex<D>>,
                           ghost trees: map<TreeVertex<D>, Tree<D>>, ghost trees': map<TreeVertex<D>, Tree<D>>,
                           ghost kept: map<TreeVertex<D>, seq<int>>, ghost done: set<TreeVertex<D>>)
      returns (ghost k: seq<int>)
      requires combinationUpperBound >= 1 && was == v.descendants && (was != [] ==> v.threshold >= 0)
      requires v !in descendantPermutations && v !in done
      requires Known(v, t, was, trees') && Untouched(next, trees') && forall u | u in next :: v !in u.repr
      requires forall y | y in done :: Settled(y, trees, kept, descendantPermutations, combinationUpperBound, trees.Keys)
      modifies this`descendantPermutations, v`descendants
      ensures KidsBy(was, v.descendants, k) && (was != [] ==> Counts(|was|, |v.descendants|, v.threshold, combinationUpperBound))
      ensures RecordedAt(v, descendantPermutations)
      ensures descendantPermutations.Keys <= old(descendantPermutations).Keys + {v}
      ensures forall y | y != v :: Entry(descendantPermutations, y) == Entry(old(descendantPermutations), y)
      ensures Known(v, t, was, trees') && Untouched(next, trees')
      ensures forall y | y in done :: Settled(y, trees, kept, old(descendantPermutations), combinationUpperBound, trees.Keys)
    {
      k := Everything(|was|);
      KidsByAll(was);
      if |v.descendants| != 0 {
        k := Treat(v);
      }
    }

    /** One round of the pruning loop: take a vertex off the queue, queue its descendants, treat it. */
    method TreatNext(v: TreeVertex<D>, queue: seq<TreeVertex<D>>, ghost trees: map<TreeVertex<D>, Tree<D>>,
                     ghost kept: map<TreeVertex<D>, seq<int>>,
                     ghost done: set<TreeVertex<D>>, ghost all: set<TreeVertex<D>>)
      returns (next: seq<TreeVertex<D>>, ghost kept': map<TreeVertex<D>, seq<int>>)
      requires combinationUpperBound >= 1 && queue != [] && v == queue[0]
      requires Progress(queue, trees, kept, descendantPermutations, combinationUpperBound, done, all)
      modifies this`descendantPermutations, v`descendants
      ensures Progress(next, old(WithChildren(trees, v)), kept', descendantPermutations, combinationUpperBound, done + {v}, all)
    {
      UntouchedNext(queue, trees);
      HeadKnown(queue, trees);
      TreesKept(queue, trees, done, all);
      ghost var was, t, trees', table := v.descendants, v.View(), WithChildren(trees, v), descendantPermutations;
      next := queue[1..] + v.descendants;
      ghost var k := TreatUnlessLeaf(v, next, t, was, trees, trees', kept, done);
      kept' := kept[v := k];
      SettledNow(v, t, was, k, trees', kept', descendantPermutations, combinationUpperBound);
      forall y | y in done ensures Settled(y, trees', kept', descendantPermutations, combinationUpperBound, trees'.Keys) {
        SettledMore(y, trees, kept, table, combinationUpperBound, trees.Keys, trees', kept', descendantPermutations, trees'.Keys);
      }
    }

    /** `computeDescendantPermutations`. */
    method ComputeDescendantPermutations()
      requires combinationUpperBound >= 1 && descendantPermutations == map[]
      requires originalRoot.Valid() && originalRoot.Separate() && Sane(originalRoot.View())
      modifies this`descendantPermutations, originalRoot.repr`descendants
      ensures originalRoot.Valid() && AllRecorded(originalRoot, descendantPermutations)
      ensures PrunedTo(old(originalRoot.View()), originalRoot.View(), combinationUpperBound)
    {
      var queue := [originalRoot];
      ghost var all := originalRoot.repr;
      ghost var trees: map<TreeVertex<D>, Tree<D>> := map[originalRoot := originalRoot.View()];
      ghost var kept: map<TreeVertex<D>, seq<int>> := map[];
      ghost var done: set<TreeVertex<D>> := {};
      while queue != []
        invariant Progress(queue, trees, kept, descendantPermutations, combinationUpperBound, done, all)
        invariant originalRoot in trees && trees[originalRoot] == old(originalRoot.View())
        decreases all - done
      {
        var v := queue[0];
        ghost var trees' := WithChildren(trees, v);
        queue, kept := TreatNext(v, queue, trees, kept, done, all);
        trees, done := trees', done + {v};
      }
      RootedValid(originalRoot, done);
      RecordedBelow(originalRoot, done, descendantPermutations);
      PrunedBelow(originalRoot, done, trees, kept, combinationUpperBound);
    }

    /** One round of the expansion loop. */
    method ExpandAt(v: TreeVertex<D>, ghost t: Tree<D>, ghost done: set<string>, ghost outlines: seq<Shape<D>>,
                    ghost queue: seq<TreeVertex<D>>, ghost trees: seq<Tree<D>>)
      returns (ghost outlines': seq<Shape<D>>)
      requires Queued(queue, trees, descendantPermutations)
      requires v.Valid() && v.descendants != [] && Recorded(v, Entry(descendantPermutations, v))
      requires Sketched(permutations, outlines) && Lists(outlines, t, done) && Expandable(t, done, v.View())
      modifies this`permutations
      ensures Sketched(permutations, outlines') && Lists(outlines', t, done + {v.id})
      ensures Queued(queue, trees, descendantPermutations)
    {
      var choices := Entry(descendantPermutations, v);
      ghost var w, combinations := v.View(), CombinationsOf(|v.descendants|, v.threshold);
      ghost var kids := ChoicesDrawn(v, choices);
      CombinationsListed(|v.descendants|, v.threshold);
      OccursUnique(t, w);
      ChoicesListed(w, combinations);
      ExpandLists(outlines, t, done, w, kids);
      outlines' := Expand(outlines, v.id, kids);
      permutations := ExpandVertex(permutations, v, choices, outlines, kids, v.repr);
    }

    /**
     The loop of `permute`.  Nothing but the list of permutations changes: in particular no vertex of the
     original tree is written to.
     */
    method ExpandAll() returns (ghost outlines: seq<Shape<D>>)
      requires permutations == [originalRoot] && originalRoot.Valid() && Unique(originalRoot.View())
      requires AllRecorded(originalRoot, descendantPermutations)
      modifies this`permutations
      ensures Sketched(permutations, outlines) && NoDuplicates(outlines)
      ensures forall q :: q in outlines <==> IsSelection(old(originalRoot.View()), q)
    {
      var queue := [originalRoot];
      ghost var t := originalRoot.View();
      ghost var trees, done := [t], {};
      outlines := [Erase(t)];
      StartListed(t);
      while queue != []
        invariant Queued(queue, trees, descendantPermutations)
        invariant Pending(t, trees, done)
        invariant Sketched(permutations, outlines) && Lists(outlines, t, done)
        decreases SizeAll(trees)
      {
        var v := queue[0];
        QueuedNext(queue, trees, descendantPermutations);
        NextPending(t, trees, done);
        NextIsSmaller(trees);
        queue := queue[1..] + v.descendants;
        if |v.descendants| != 0 {
          outlines := ExpandAt(v, t, done, outlines, queue, Next(trees));
          done := done + {v.id};
        }
        trees := Next(trees);
      }
      AllSelected(outlines, t, done);
    }
  }

  lemma StartListed<D(!new)>(t: Tree<D>)
    ensures Pending(t, [t], {}) && Lists([Erase(t)], t, {})
  {
    assert InternalIdsAll([t]) == InternalIds(t) by {
      assert [t][0] == t;
    }
    forall q ensures q in [Erase(t)] <==> IsPartial(t, q, {}) {
      UntouchedIsErased(t, q, {});
    }
  }

  /**
   `Permute`: the outlines of the result are the selections of the pruned tree, each once.  They are all selections
   of the tree as it was, and all of its selections when at no vertex there were too many combinations.
   */
  method Permute<D(!new)>(root: TreeVertex<D>, combinationUpperBound: int)
    returns (permutations: seq<TreeVertex<D>>, ghost outlines: seq<Shape<D>>)
    requires combinationUpperBound >= 1
    requires root.Valid() && root.Separate() && Unique(root.View()) && Sane(root.View())
    modifies root.repr`descendants
    ensures root.Valid() && PrunedTo(old(root.View()), root.View(), combinationUpperBound)
    ensures Sketched(permutations, outlines) && NoDuplicates(outlines)
    ensures forall q :: q in outlines <==> IsSelection(root.View(), q)
    ensures forall q :: q in outlines ==> IsSelection(old(root.View()), q)
    ensures WithinBound(old(root.View()), combinationUpperBound) ==> root.View() == old(root.View())
  {
    var tp := new Permuter(root, combinationUpperBound);
    ghost var t := root.View();
    tp.ComputeDescendantPermutations();
    ghost var p := root.View();
    PrunedUnique(t, p, combinationUpperBound);
    outlines := tp.ExpandAll();
    permutations := tp.permutations;
    forall q | q in outlines ensures IsSelection(t, q) {
      PrunedSelection(t, p, combinationUpperBound, q);
    }
    if WithinBound(t, combinationUpperBound) {
      NothingPruned(t, p, combinationUpperBound);
    }
  }
}
