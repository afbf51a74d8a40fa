/** Byte strings. */
module Bytes {

  type byte = x: int | 0 <= x < 256
  type bytes = seq<byte>

  /** The longer of two first parts of one string is the shorter one and a piece of its rest. */
  lemma SplitPrefix(x: bytes, r: bytes, y: bytes, s: bytes)
    requires |x| <= |y| && x + r == y + s
    ensures y == x + y[|x|..] && r == y[|x|..] + s
  {
    assert x == (x + r)[..|x|] == (y + s)[..|x|] == y[..|x|];
    assert r == (x + r)[|x|..] == (y + s)[|x|..] == y[|x|..] + s;
  }

  /** First parts of one length are equal, and so are the rests. */
  lemma SplitEqual(x: bytes, r: bytes, y: bytes, s: bytes)
    requires |x| == |y| && x + r == y + s
    ensures x == y && r == s
  {
    assert x == (x + r)[..|x|] == (y + s)[..|y|] == y;
    assert r == (x + r)[|x|..] == (y + s)[|y|..] == s;
  }

  lemma SliceOfFirst(a: bytes, b: bytes, lo: nat, hi: nat)
    requires lo <= hi <= |a|
    ensures (a + b)[lo..hi] == a[lo..hi] && (a + b)[lo..] == a[lo..] + b
  {
  }
}
