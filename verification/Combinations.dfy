/** Choosing k out of n indices (common/graph/choose.go). */
module Combinations {

  /** A strictly increasing list of `k` indices below `n`. */
  predicate IsCombination(s: seq<int>, n: int, k: int) {
    && |s| == k
    && (forall i | 0 <= i < |s| :: 0 <= s[i] < n)
    && (forall i, j | 0 <= i < j < |s| :: s[i] < s[j])
  }

  predicate NoDuplicates<T(==)>(s: seq<T>) {
    forall i, j | 0 <= i < j < |s| :: s[i] != s[j]
  }

  /** The list that grows during the recursion. */
  class OrderedSet {
    var elements: seq<seq<int>>

    constructor ()
      ensures elements == []
    {
      elements := [];
    }

    method Add(o: seq<int>)
      modifies this
      ensures elements == old(elements) + [o]
    {
      elements := elements + [o];
    }
  }

  /** What `choose` appends: the ways to fill `current` up to `k` indices with indices from `i` on. */
  function Chosen(n: int, k: int, i: int, current: seq<int>): seq<seq<int>>
    requires |current| <= k && i <= n
    decreases n - i
  {
    if |current| == k then [current]
    else if k - |current| > n - i then []
    else Chosen(n, k, i + 1, current + [i]) + Chosen(n, k, i + 1, current)
  }

  lemma {:induction false} ChosenStep(n: int, k: int, i: int, current: seq<int>, before: seq<seq<int>>)
    requires |current| < k && k - |current| <= n - i
    ensures before + Chosen(n, k, i, current) == before + Chosen(n, k, i + 1, current + [i]) + Chosen(n, k, i + 1, current)
  {
  }

  /** `choose`. */
  method Choose(n: int, targetAmount: int, i: int, currentSubGroup: seq<int>, subGroups: OrderedSet)
    requires |currentSubGroup| <= targetAmount && i <= n
    modifies subGroups
    ensures subGroups.elements == old(subGroups.elements) + Chosen(n, targetAmount, i, currentSubGroup)
    decreases n - i
  {
    if |currentSubGroup| == targetAmount {
      subGroups.Add(currentSubGroup);
      return;
    }
    var itemsLeftToPick := n - i;
    if targetAmount - |currentSubGroup| > itemsLeftToPick {
      return;
    }
    Choose(n, targetAmount, i + 1, currentSubGroup + [i], subGroups);
    Choose(n, targetAmount, i + 1, currentSubGroup, subGroups);
    ChosenStep(n, targetAmount, i, currentSubGroup, old(subGroups.elements));
  }

  /** `chooseKoutOfN`: every combination, each once. */
  method ChooseKoutOfN(n: nat, k: nat) returns (res: seq<seq<int>>)
    ensures res == Chosen(n, k, 0, [])
    ensures NoDuplicates(res) && (forall s | s in res :: IsCombination(s, n, k)) && (forall s | IsCombination(s, n, k) :: s in res)
    ensures |res| == Binomial(n, k)
  {
    var subGroups := new OrderedSet();
    Choose(n, k, 0, [], subGroups);
    res := subGroups.elements;
    assert res == Chosen(n, k, 0, []);
    AllCombinations(n, k);
    ChosenCount(n, k, 0, []);
  }

  /** The combination starts with `current` and goes on with indices from `i` on. */
  predicate Extends(s: seq<int>, n: int, k: int, i: int, current: seq<int>) {
    IsCombination(s, n, k) && current <= s && forall j | |current| <= j < |s| :: s[j] >= i
  }

  lemma ExtendsSplits(s: seq<int>, n: int, k: int, i: int, current: seq<int>)
    requires |current| < k
    ensures Extends(s, n, k, i, current) <==> Extends(s, n, k, i + 1, current) || Extends(s, n, k, i + 1, current + [i])
  {
    if Extends(s, n, k, i, current) && s[|current|] == i {
      assert current + [i] == s[..|current| + 1];
    }
    if Extends(s, n, k, i + 1, current + [i]) {
      assert current == (current + [i])[..|current|] == s[..|current|] && s[|current|] == (current + [i])[|current|];
    }
  }

  lemma {:induction false} TooFew(s: seq<int>, n: int, k: int, i: int, j: nat)
    requires IsCombination(s, n, k) && j < k && s[j] >= i
    ensures k - j <= n - i
    decreases k - j
  {
    if j + 1 < k {
      TooFew(s, n, k, i + 1, j + 1);
    }
  }

  /** `current` is an increasing list of indices below `i`. */
  predicate Started(current: seq<int>, i: int) {
    IsCombination(current, i, |current|)
  }

  lemma StartedMore(current: seq<int>, i: int)
    requires 0 <= i && Started(current, i)
    ensures Started(current, i + 1) && Started(current + [i], i + 1)
  {
  }

  lemma NoneExtends(s: seq<int>, n: int, k: int, i: int, current: seq<int>)
    requires |current| < k && k - |current| > n - i
    ensures !Extends(s, n, k, i, current)
  {
    if Extends(s, n, k, i, current) {
      TooFew(s, n, k, i, |current|);
    }
  }

  lemma ExtendsDone(s: seq<int>, n: int, i: int, current: seq<int>)
    requires 0 <= i <= n && Started(current, i)
    ensures Extends(s, n, |current|, i, current) <==> s == current
  {
  }

  lemma {:induction false} ChosenMembers(n: int, k: int, i: int, current: seq<int>, s: seq<int>)
    requires |current| <= k && 0 <= i <= n && Started(current, i)
    ensures s in Chosen(n, k, i, current) <==> Extends(s, n, k, i, current)
    decreases n - i
  {
    if |current| == k {
      ExtendsDone(s, n, i, current);
    } else if k - |current| > n - i {
      NoneExtends(s, n, k, i, current);
    } else {
      StartedMore(current, i);
      ChosenMembers(n, k, i + 1, current + [i], s);
      ChosenMembers(n, k, i + 1, current, s);
      ExtendsSplits(s, n, k, i, current);
    }
  }

  lemma ExtendsApart(s: seq<int>, n: int, k: int, i: int, current: seq<int>)
    requires Extends(s, n, k, i + 1, current + [i]) && |current| < k
    ensures !Extends(s, n, k, i + 1, current)
  {
    assert s[|current|] == (current + [i])[|current|] == i;
  }

  /** The ways that take the index `i` and those that do not are different. */
  lemma {:induction false} NotInBoth(n: int, k: int, i: int, current: seq<int>, s: seq<int>)
    requires |current| < k && k - |current| <= n - i && 0 <= i && Started(current, i)
    requires s in Chosen(n, k, i + 1, current + [i])
    ensures s !in Chosen(n, k, i + 1, current)
  {
    StartedMore(current, i);
    ChosenMembers(n, k, i + 1, current + [i], s);
    ChosenMembers(n, k, i + 1, current, s);
    ExtendsApart(s, n, k, i, current);
  }

  lemma NoDuplicatesAppend<T>(a: seq<T>, b: seq<T>)
    requires NoDuplicates(a) && NoDuplicates(b) && forall x | x in a :: x !in b
    ensures NoDuplicates(a + b)
  {
    forall i, j | 0 <= i < |a| <= j < |a + b| ensures (a + b)[i] != (a + b)[j] {
      assert (a + b)[i] in a && (a + b)[j] == b[j - |a|];
    }
  }

  lemma {:induction false} ChosenDistinct(n: int, k: int, i: int, current: seq<int>)
    requires |current| <= k && 0 <= i <= n && Started(current, i)
    ensures NoDuplicates(Chosen(n, k, i, current))
    decreases n - i
  {
    if |current| < k && k - |current| <= n - i {
      var with, without := Chosen(n, k, i + 1, current + [i]), Chosen(n, k, i + 1, current);
      StartedMore(current, i);
      ChosenDistinct(n, k, i + 1, current + [i]);
      ChosenDistinct(n, k, i + 1, current);
      forall s | s in with ensures s !in without {
        NotInBoth(n, k, i, current, s);
      }
      NoDuplicatesAppend(with, without);
    }
  }

  lemma AllCombinations(n: nat, k: nat)
    ensures var res := Chosen(n, k, 0, []);
            NoDuplicates(res) && (forall s | s in res :: IsCombination(s, n, k)) && (forall s | IsCombination(s, n, k) :: s in res)
  {
    var res := Chosen(n, k, 0, []);
    ChosenDistinct(n, k, 0, []);
    forall s ensures s in res <==> IsCombination(s, n, k) {
      ChosenMembers(n, k, 0, [], s);
    }
  }

  // ---------------------------------------------------------------------------
  // Counting
  // ---------------------------------------------------------------------------

  /** The binomial coefficient, by Pascal's rule. */
  function Binomial(n: nat, k: nat): nat {
    if k == 0 then 1 else if n == 0 then 0 else Binomial(n - 1, k - 1) + Binomial(n - 1, k)
  }

  function Factorial(n: nat): nat {
    if n == 0 then 1 else n * Factorial(n - 1)
  }

  lemma {:induction false} BinomialEdges(n: nat, k: nat)
    ensures n < k ==> Binomial(n, k) == 0
    ensures n == k ==> Binomial(n, k) == 1
  {
    if 0 < k && 0 < n && n <= k {
      BinomialEdges(n - 1, k - 1);
      BinomialEdges(n - 1, k);
    }
  }

  /** Pascal's rule gives n! / (k! (n-k)!). */
  lemma {:induction false} BinomialFactorial(n: nat, k: nat)
    requires k <= n
    ensures Binomial(n, k) * (Factorial(k) * Factorial(n - k)) == Factorial(n)
  {
    if k == n {
      BinomialEdges(n, k);
    } else if k > 0 {
      BinomialFactorial(n - 1, k - 1);
      BinomialFactorial(n - 1, k);
      PascalStep(n, k, Binomial(n - 1, k - 1), Binomial(n - 1, k), Factorial(k - 1), Factorial(n - k - 1), Factorial(n - 1));
    }
  }

  lemma PascalStep(n: nat, k: nat, a: nat, b: nat, f: nat, g: nat, h: nat)
    requires 0 < k < n && a * (f * ((n - k) * g)) == h && b * ((k * f) * g) == h
    ensures (a + b) * ((k * f) * ((n - k) * g)) == n * h
  {
    calc {
      (a + b) * ((k * f) * ((n - k) * g));
      a * ((k * f) * ((n - k) * g)) + b * ((k * f) * ((n - k) * g));
      { assert a * ((k * f) * ((n - k) * g)) == k * (a * (f * ((n - k) * g))); }
      k * h + b * ((k * f) * ((n - k) * g));
      { assert b * ((k * f) * ((n - k) * g)) == (n - k) * (b * ((k * f) * g)); }
      k * h + (n - k) * h;
      n * h;
    }
  }

  lemma {:induction false} ChosenCount(n: int, k: int, i: int, current: seq<int>)
    requires |current| <= k && 0 <= i <= n
    ensures |Chosen(n, k, i, current)| == Binomial(n - i, k - |current|)
    decreases n - i
  {
    if |current| < k {
      if k - |current| > n - i {
        BinomialEdges(n - i, k - |current|);
      } else {
        ChosenCount(n, k, i + 1, current + [i]);
        ChosenCount(n, k, i + 1, current);
      }
    }
  }

  /** `CombinationsExceed`. */
  predicate CombinationsExceed(n: nat, k: nat, threshold: int) {
    n >= k && Binomial(n, k) > threshold
  }

  /** There are more combinations than the bound, of those that there are. */
  lemma ExceedIff(n: nat, k: nat, threshold: int)
    ensures CombinationsExceed(n, k, threshold) <==> k <= n && |Chosen(n, k, 0, [])| > threshold
  {
    ChosenCount(n, k, 0, []);
  }

  lemma ExceedsNeedsMore(n: nat, k: nat, threshold: int)
    requires CombinationsExceed(n, k, threshold) && threshold >= 1
    ensures n > k >= 1
  {
    BinomialEdges(n, k);
  }

  /** The elements at the given indices. */
  function Pick<T>(of: seq<T>, indices: seq<int>): (r: seq<T>)
    requires forall j | 0 <= j < |indices| :: 0 <= indices[j] < |of|
    ensures |r| == |indices| && forall j | 0 <= j < |indices| :: r[j] == of[indices[j]]
  {
    seq(|indices|, j requires 0 <= j < |indices| => of[indices[j]])
  }
}
