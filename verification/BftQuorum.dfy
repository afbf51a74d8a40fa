/** The quorum arithmetic of common/policies/bft.go, and the counting that makes quorums overlap. */
module BftQuorum {

  /** The `f` of `n` consenters; Go's division truncates, so it is 0 for `n` = 0. */
  function FaultBound(n: nat): nat {
    if n == 0 then 0 else (n - 1) / 3
  }

  /** It is the largest number of faulty consenters that is less than a third of all. */
  lemma FaultBoundIs(n: nat)
    ensures FaultBound(0) == 0
    ensures n >= 1 ==> 3 * FaultBound(n) < n <= 3 * (FaultBound(n) + 1)
  {
  }

  function Ceil(r: real): int {
    -(-r).Floor
  }

  /** `ComputeBFTQuorum`. */
  function ComputeBFTQuorum(totalNodes: int, faultyNodes: int): int {
    Ceil((totalNodes + faultyNodes + 1) as real / 2.0)
  }

  function Quorum(n: nat): int {
    ComputeBFTQuorum(n, FaultBound(n))
  }

  /**
   The quorum is the least size for which any two quorums overlap in more than `f` consenters, and the
   consenters that are not faulty still form one.
   */
  lemma QuorumIsLeastSafe(n: nat)
    requires n >= 1
    ensures 2 * Quorum(n) - n >= FaultBound(n) + 1
    ensures forall q: int | 2 * q - n >= FaultBound(n) + 1 :: Quorum(n) <= q
    ensures 1 <= Quorum(n) <= n - FaultBound(n)
  {
    var m := n + FaultBound(n) + 1;
    var x := -(m as real / 2.0);
    assert x.Floor as real <= x < (x.Floor + 1) as real;
  }

  ghost function Range(n: nat): (r: set<nat>)
    ensures forall i: nat :: i in r <==> i < n
    ensures |r| == n
  {
    if n == 0 then {} else Range(n - 1) + {n - 1}
  }

  lemma SubsetSize<T>(a: set<T>, b: set<T>)
    requires a <= b
    ensures |a| <= |b|
  {
    assert b == a + (b - a);
  }

  /** Two quorums of `n` share at least `f + 1` members. */
  lemma QuorumsOverlap(n: nat, s: set<nat>, t: set<nat>)
    requires n >= 1 && s <= Range(n) && t <= Range(n)
    requires |s| >= Quorum(n) && |t| >= Quorum(n)
    ensures |s * t| >= FaultBound(n) + 1
  {
    QuorumIsLeastSafe(n);
    SubsetSize(s + t, Range(n));
    assert |s| + |t| == |s + t| + |s * t|;
  }

  /** More members than there are faulty ones include a correct one. */
  lemma CorrectMember(s: set<nat>, faulty: set<nat>) returns (j: nat)
    requires |s| > |faulty|
    ensures j in s && j !in faulty
  {
    if s <= faulty {
      SubsetSize(s, faulty);
    }
    j :| j in s && j !in faulty;
  }
}
