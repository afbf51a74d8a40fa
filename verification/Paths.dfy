/** Slash-separated paths over names that contain no slash. */
module Paths {

  const SEPARATOR := '/'

  predicate Plain(name: string) {
    SEPARATOR !in name
  }

  predicate AllPlain(path: seq<string>) {
    forall i | 0 <= i < |path| :: Plain(path[i])
  }

  /** Every name with a slash in front of it. */
  function Slashed(path: seq<string>): string {
    if path == [] then "" else [SEPARATOR] + path[0] + Slashed(path[1..])
  }

  /** `strings.Join` with the separator. */
  function Join(path: seq<string>): string {
    if path == [] then "" else if |path| == 1 then path[0] else path[0] + [SEPARATOR] + Join(path[1..])
  }

  lemma {:induction false} SlashedIsJoin(path: seq<string>)
    requires path != []
    ensures Slashed(path) == [SEPARATOR] + Join(path)
  {
    if |path| == 1 {
      assert Slashed(path[1..]) == "";
    } else {
      SlashedIsJoin(path[1..]);
    }
  }

  lemma {:induction false} SlashedAppend(p: seq<string>, q: seq<string>)
    ensures Slashed(p + q) == Slashed(p) + Slashed(q)
  {
    if p == [] {
      assert p + q == q;
    } else {
      assert (p + q)[1..] == p[1..] + q;
      SlashedAppend(p[1..], q);
    }
  }

  lemma SlashedSnoc(p: seq<string>, name: string)
    ensures Slashed(p + [name]) == Slashed(p) + [SEPARATOR] + name
  {
    SlashedAppend(p, [name]);
    assert [name][1..] == [];
  }

  /** A plain name is read back up to the next slash. */
  lemma {:induction false} NameUnique(a: string, r: string, b: string, s: string)
    requires a + r == b + s && Plain(a) && Plain(b)
    requires r == "" || r[0] == SEPARATOR
    requires s == "" || s[0] == SEPARATOR
    ensures a == b && r == s
  {
    assert r != "" ==> (a + r)[|a|] == SEPARATOR;
    assert s != "" ==> (b + s)[|b|] == SEPARATOR;
    assert forall i | 0 <= i < |a| :: (a + r)[i] == a[i] && a[i] in a;
    assert forall i | 0 <= i < |b| :: (b + s)[i] == b[i] && b[i] in b;
    assert |a| == |b|;
    assert a == (a + r)[..|a|] == (b + s)[..|b|] == b;
    assert r == (a + r)[|a|..] == (b + s)[|b|..] == s;
  }

  /** Different paths of plain names have different strings. */
  lemma {:induction false} SlashedInjective(p: seq<string>, q: seq<string>)
    requires AllPlain(p) && AllPlain(q) && Slashed(p) == Slashed(q)
    ensures p == q
  {
    if p != [] && q != [] {
      var rp, rq := Slashed(p[1..]), Slashed(q[1..]);
      assert p[0] + rp == Slashed(p)[1..] == Slashed(q)[1..] == q[0] + rq;
      NameUnique(p[0], rp, q[0], rq);
      SlashedInjective(p[1..], q[1..]);
    }
  }
}
