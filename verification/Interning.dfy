/**
 Deduplication of a list by a key, as `merge` does for principals: a table, an index from keys to
 positions, and for every merged entry the position that now stands for it.
 */
module Interning {

  datatype Interned<T, K> = Interned(table: seq<T>, index: map<K, nat>, redirect: seq<nat>)

  /** The index maps keys to positions holding them, and knows every key of the table. */
  ghost predicate Indexes<T, K>(index: map<K, nat>, table: seq<T>, key: T -> K) {
    && (forall s | s in index :: index[s] < |table| && key(table[index[s]]) == s)
    && (forall i | 0 <= i < |table| :: key(table[i]) in index)
  }

  function IndexOf<T, K>(table: seq<T>, key: T -> K): map<K, nat> {
    if table == [] then map[]
    else IndexOf(table[..|table| - 1], key)[key(table[|table| - 1]) := |table| - 1]
  }

  /** Look one entry up by its key, or append it. */
  function Push<T, K>(m: Interned<T, K>, x: T, key: T -> K): Interned<T, K> {
    if key(x) in m.index then m.(redirect := m.redirect + [m.index[key(x)]])
    else Interned(m.table + [x], m.index[key(x) := |m.table|], m.redirect + [|m.table|])
  }

  function Intern<T, K>(table: seq<T>, more: seq<T>, key: T -> K): (m: Interned<T, K>)
    ensures |m.redirect| == |more|
  {
    if more == [] then Interned(table, IndexOf(table, key), [])
    else Push(Intern(table, more[..|more| - 1], key), more[|more| - 1], key)
  }

  /** Every merged entry is represented by a table entry of its key, and no key is added twice. */
  ghost predicate Represents<T, K(!new)>(m: Interned<T, K>, table: seq<T>, more: seq<T>, key: T -> K) {
    && table <= m.table
    && Indexes(m.index, m.table, key)
    && |m.redirect| == |more|
    && (forall k | 0 <= k < |more| :: m.redirect[k] < |m.table| && key(m.table[m.redirect[k]]) == key(more[k]))
    && (forall i, j | 0 <= i < j < |m.table| && |table| <= j :: key(m.table[i]) != key(m.table[j]))
  }

  lemma {:induction false} IndexOfIndexes<T, K(!new)>(table: seq<T>, key: T -> K)
    ensures Indexes(IndexOf(table, key), table, key)
  {
    if table != [] {
      IndexOfIndexes(table[..|table| - 1], key);
    }
  }

  lemma PushRepresents<T, K(!new)>(m: Interned<T, K>, table: seq<T>, more: seq<T>, x: T, key: T -> K)
    requires Represents(m, table, more, key)
    ensures Represents(Push(m, x, key), table, more + [x], key)
  {
    var p := Push(m, x, key);
    if key(x) !in m.index {
      assert forall i | 0 <= i < |m.table| :: p.table[i] == m.table[i] && key(m.table[i]) != key(x);
      assert Indexes(p.index, p.table, key);
    }
    forall k | 0 <= k < |more + [x]|
      ensures p.redirect[k] < |p.table| && key(p.table[p.redirect[k]]) == key((more + [x])[k])
    {
      if k < |more| {
        assert p.redirect[k] == m.redirect[k];
      }
    }
  }

  lemma {:induction false} InternRepresents<T, K(!new)>(table: seq<T>, more: seq<T>, key: T -> K)
    ensures Represents(Intern(table, more, key), table, more, key)
  {
    if more == [] {
      IndexOfIndexes(table, key);
    } else {
      var init, x := more[..|more| - 1], more[|more| - 1];
      InternRepresents(table, init, key);
      PushRepresents(Intern(table, init, key), table, init, x, key);
      assert init + [x] == more;
    }
  }

  /** The two loops of `merge`. */
  method InternInto<T, K(==)>(table: seq<T>, more: seq<T>, key: T -> K) returns (m: Interned<T, K>)
    ensures m == Intern(table, more, key)
  {
    var index: map<K, nat> := map[];
    for i := 0 to |table|
      invariant index == IndexOf(table[..i], key)
    {
      assert table[..i + 1][..i] == table[..i];
      index := index[key(table[i]) := i];
    }
    assert table[..|table|] == table;

    var ids := table;
    var redirect: seq<nat> := [];
    for i := 0 to |more|
      invariant Interned(ids, index, redirect) == Intern(table, more[..i], key)
    {
      assert more[..i + 1][..i] == more[..i];
      var str := key(more[i]);
      if str in index {
        redirect := redirect + [index[str]];
      } else {
        redirect := redirect + [|ids|];
        index := index[str := |ids|];
        ids := ids + [more[i]];
      }
    }
    assert more[..|more|] == more;
    m := Interned(ids, index, redirect);
  }
}
