/**
 The signature-policy evaluator of common/cauthdsl: `compile` turns a policy rule into nested
 evaluators, and an evaluator consumes identities by setting flags in a `used` array.

 `Eval` is the value-level meaning of the evaluator; `Evaluate` is the evaluator itself, working in
 place.  The principals (`P`), the identities (`I`) and `SatisfiesPrincipal` (`sat`) are parameters.
 */
module SignaturePolicies {
  import opened Wrappers

  /** A `SignaturePolicy` message: unset, of an unknown type, one signature, or an N-out-of gate. */
  datatype Rule =
    | Unset
    | Unknown
    | SignedBy(index: int)
    | NOutOf(n: int, rules: seq<Rule>)

  /** The evaluator that `compile` builds. */
  datatype Compiled<P> = Leaf(principal: P) | Gate(n: int, subs: seq<Compiled<P>>)

  /** Every element is set, of a known type, and refers to an existing principal. */
  ghost predicate Resolvable(rule: Rule, count: nat) {
    match rule
    case Unset => false
    case Unknown => false
    case SignedBy(i) => 0 <= i < count
    case NOutOf(_, rules) => forall k | 0 <= k < |rules| :: Resolvable(rules[k], count)
  }

  /** `compile`; `None` is its error return.  It succeeds exactly on the resolvable rules. */
  function Compile<P>(rule: Rule, principals: seq<P>): (c: Option<Compiled<P>>)
    ensures c.Some? <==> Resolvable(rule, |principals|)
    decreases rule
  {
    match rule
    case Unset => None
    case Unknown => None
    case SignedBy(i) => if i < 0 || i >= |principals| then None else Some(Leaf(principals[i]))
    case NOutOf(n, rules) =>
      var subs := CompileAll(rules, principals);
      if subs.None? then None else Some(Gate(n, subs.value))
  }

  function CompileAll<P>(rules: seq<Rule>, principals: seq<P>): (cs: Option<seq<Compiled<P>>>)
    ensures cs.Some? <==> forall k | 0 <= k < |rules| :: Resolvable(rules[k], |principals|)
    ensures cs.Some? ==> |cs.value| == |rules|
    ensures cs.Some? ==> forall k | 0 <= k < |rules| :: Some(cs.value[k]) == Compile(rules[k], principals)
    decreases rules
  {
    if rules == [] then Some([])
    else
      var init := CompileAll(rules[..|rules| - 1], principals);
      var last := Compile(rules[|rules| - 1], principals);
      if init.None? || last.None? then None else Some(init.value + [last.value])
  }

  datatype Outcome = Outcome(ok: bool, used: seq<bool>)
  datatype Tally = Tally(verified: nat, used: seq<bool>)

  /** The first unused identity at or after `from` that satisfies the principal, or the end. */
  function FirstUnused<I, P>(ids: seq<I>, used: seq<bool>, p: P, sat: (I, P) -> bool, from: nat): (i: nat)
    requires |used| == |ids| && from <= |ids|
    ensures from <= i <= |ids|
    ensures i < |ids| ==> !used[i] && sat(ids[i], p)
    ensures forall j | from <= j < i :: used[j] || !sat(ids[j], p)
    decreases |ids| - from
  {
    if from == |ids| || (!used[from] && sat(ids[from], p)) then from
    else FirstUnused(ids, used, p, sat, from + 1)
  }

  /** The verdict of an evaluator and the flags it leaves behind, also when it fails. */
  function Eval<I, P>(c: Compiled<P>, ids: seq<I>, used: seq<bool>, sat: (I, P) -> bool): (r: Outcome)
    requires |used| == |ids|
    ensures |r.used| == |ids|
    decreases c
  {
    match c
    case Leaf(p) =>
      var i := FirstUnused(ids, used, p, sat, 0);
      if i == |ids| then Outcome(false, used) else Outcome(true, used[i := true])
    case Gate(n, subs) =>
      var t := EvalAll(subs, ids, used, sat);
      Outcome(t.verified >= n, t.used)
  }

  /** A gate's loop: a successful sub-policy keeps its flags, a failed one is rolled back. */
  function EvalAll<I, P>(subs: seq<Compiled<P>>, ids: seq<I>, used: seq<bool>, sat: (I, P) -> bool): (t: Tally)
    requires |used| == |ids|
    ensures |t.used| == |ids|
    decreases subs
  {
    if subs == [] then Tally(0, used)
    else
      var t := EvalAll(subs[..|subs| - 1], ids, used, sat);
      var r := Eval(subs[|subs| - 1], ids, t.used, sat);
      if r.ok then Tally(t.verified + 1, r.used) else t
  }

  /** Go's `copy` between flag arrays of one length. */
  method CopyFlags(dst: array<bool>, src: array<bool>)
    requires dst.Length == src.Length && dst != src
    modifies dst
    ensures dst[..] == src[..]
  {
    for i := 0 to dst.Length
      invariant dst[..i] == src[..i]
    {
      dst[i] := src[i];
    }
  }

  /** The evaluator closure, in place over `used`. */
  method Evaluate<I, P>(c: Compiled<P>, ids: seq<I>, used: array<bool>, sat: (I, P) -> bool) returns (ok: bool)
    requires used.Length == |ids|
    modifies used
    ensures Outcome(ok, used[..]) == Eval(c, ids, old(used[..]), sat)
    decreases c
  {
    match c
    case Leaf(p) =>
      ghost var first := FirstUnused(ids, used[..], p, sat, 0);
      for i := 0 to |ids|
        invariant i <= first && used[..] == old(used[..])
      {
        if !used[i] && sat(ids[i], p) {
          used[i] := true;
          return true;
        }
      }
      ok := false;
    case Gate(n, subs) =>
      var verified := 0;
      var scratch := new bool[used.Length];
      for k := 0 to |subs|
        invariant Tally(verified, used[..]) == EvalAll(subs[..k], ids, old(used[..]), sat)
      {
        assert subs[..k + 1][..k] == subs[..k];
        CopyFlags(scratch, used);
        var met := Evaluate(subs[k], ids, scratch, sat);
        if met {
          verified := verified + 1;
          CopyFlags(used, scratch);
        }
      }
      assert subs[..|subs|] == subs;
      ok := verified >= n;
  }

  // ---------------------------------------------------------------------------
  // Soundness: an accepting run is an injective assignment of identities to leaves
  // ---------------------------------------------------------------------------

  /** Which identity stands at each leaf; a sub-policy that is not counted is `Unmet`. */
  datatype Assignment = Unmet | Signer(who: nat) | Chosen(subs: seq<Assignment>)

  /** The identities an assignment uses, with multiplicity. */
  ghost function Signers(a: Assignment): multiset<nat>
    decreases a
  {
    match a
    case Unmet => multiset{}
    case Signer(i) => multiset{i}
    case Chosen(subs) => AllSigners(subs)
  }

  ghost function AllSigners(subs: seq<Assignment>): multiset<nat>
    decreases subs
  {
    if subs == [] then multiset{}
    else AllSigners(subs[..|subs| - 1]) + Signers(subs[|subs| - 1])
  }

  ghost function CountMet(subs: seq<Assignment>): nat {
    if subs == [] then 0
    else CountMet(subs[..|subs| - 1]) + if subs[|subs| - 1].Unmet? then 0 else 1
  }

  /** The assignment puts a matching identity at every leaf it uses and meets every threshold it uses. */
  ghost predicate Meets<I, P(!new)>(c: Compiled<P>, ids: seq<I>, a: Assignment, sat: (I, P) -> bool)
    decreases c
  {
    match c
    case Leaf(p) => a.Signer? && a.who < |ids| && sat(ids[a.who], p)
    case Gate(n, subs) => a.Chosen? && MeetsEach(subs, ids, a.subs, sat) && CountMet(a.subs) >= n
  }

  ghost predicate MeetsEach<I, P(!new)>(subs: seq<Compiled<P>>, ids: seq<I>, bs: seq<Assignment>, sat: (I, P) -> bool)
    decreases subs
  {
    && |bs| == |subs|
    && forall k | 0 <= k < |subs| :: bs[k].Unmet? || Meets(subs[k], ids, bs[k], sat)
  }

  /**
   The signers are exactly the flags that went from clear to set, each counted once.  In particular
   no identity stands at two leaves and none that was used before stands anywhere.
   */
  ghost predicate Consumes(before: seq<bool>, after: seq<bool>, signers: multiset<nat>) {
    && |after| == |before|
    && (forall i | 0 <= i < |before| :: before[i] ==> after[i])
    && (forall i: nat :: signers[i] == if i < |before| && !before[i] && after[i] then 1 else 0)
  }

  /** Acceptance gives an injective assignment of unused identities, and exactly its image is consumed. */
  lemma {:induction false} EvaluatorSound<I, P(!new)>(c: Compiled<P>, ids: seq<I>, used: seq<bool>, sat: (I, P) -> bool)
    returns (a: Assignment)
    requires |used| == |ids|
    requires Eval(c, ids, used, sat).ok
    ensures Meets(c, ids, a, sat)
    ensures Consumes(used, Eval(c, ids, used, sat).used, Signers(a))
    decreases c
  {
    match c
    case Leaf(p) =>
      a := Signer(FirstUnused(ids, used, p, sat, 0));
    case Gate(n, subs) =>
      var bs := GateSound(subs, ids, used, sat);
      a := Chosen(bs);
  }

  /** A gate counts what it met and consumes what those sub-policies consume, failed ones nothing. */
  lemma {:induction false} GateSound<I, P(!new)>(subs: seq<Compiled<P>>, ids: seq<I>, used: seq<bool>, sat: (I, P) -> bool)
    returns (bs: seq<Assignment>)
    requires |used| == |ids|
    ensures MeetsEach(subs, ids, bs, sat)
    ensures CountMet(bs) == EvalAll(subs, ids, used, sat).verified
    ensures Consumes(used, EvalAll(subs, ids, used, sat).used, AllSigners(bs))
    decreases subs
  {
    if subs == [] {
      bs := [];
    } else {
      var k := |subs| - 1;
      var t := EvalAll(subs[..k], ids, used, sat);
      var init := GateSound(subs[..k], ids, used, sat);
      var last := Unmet;
      if Eval(subs[k], ids, t.used, sat).ok {
        last := EvaluatorSound(subs[k], ids, t.used, sat);
        assert !last.Unmet?;
      }
      bs := init + [last];
      assert bs[..k] == init;
      forall j | 0 <= j < |subs| ensures bs[j].Unmet? || Meets(subs[j], ids, bs[j], sat) {
        if j < k {
          assert subs[..k][j] == subs[j];
        }
      }
    }
  }

  // ---------------------------------------------------------------------------
  // Locality: an evaluator sees and touches only the identities that match one of its leaves
  // ---------------------------------------------------------------------------

  /** The identity satisfies the principal of some leaf. */
  ghost predicate Relevant<I, P(!new)>(c: Compiled<P>, id: I, sat: (I, P) -> bool)
    decreases c
  {
    match c
    case Leaf(p) => sat(id, p)
    case Gate(_, subs) => exists k | 0 <= k < |subs| :: Relevant(subs[k], id, sat)
  }

  ghost predicate AgreeOn(region: set<nat>, u: seq<bool>, v: seq<bool>) {
    |u| == |v| && forall i | 0 <= i < |u| && i in region :: u[i] == v[i]
  }

  /** Evaluation changes no flag of an identity that matches none of the leaves. */
  lemma {:induction false} LeavesOthersAlone<I, P(!new)>(c: Compiled<P>, ids: seq<I>, used: seq<bool>, sat: (I, P) -> bool, i: nat)
    requires |used| == |ids| && i < |ids|
    requires !Relevant(c, ids[i], sat)
    ensures Eval(c, ids, used, sat).used[i] == used[i]
    decreases c
  {
    match c
    case Leaf(_) =>
    case Gate(_, subs) => GateLeavesOthersAlone(subs, ids, used, sat, i);
  }

  lemma {:induction false} GateLeavesOthersAlone<I, P(!new)>(subs: seq<Compiled<P>>, ids: seq<I>, used: seq<bool>, sat: (I, P) -> bool, i: nat)
    requires |used| == |ids| && i < |ids|
    requires forall k | 0 <= k < |subs| :: !Relevant(subs[k], ids[i], sat)
    ensures EvalAll(subs, ids, used, sat).used[i] == used[i]
    decreases subs
  {
    if subs != [] {
      var k := |subs| - 1;
      GateLeavesOthersAlone(subs[..k], ids, used, sat, i);
      LeavesOthersAlone(subs[k], ids, EvalAll(subs[..k], ids, used, sat).used, sat, i);
    }
  }

  /** Flags that agree wherever an identity matches give the same verdict and keep agreeing. */
  lemma {:induction false} DependsOnlyOnRelevant<I, P(!new)>(c: Compiled<P>, ids: seq<I>, u: seq<bool>, v: seq<bool>,
                                                             sat: (I, P) -> bool, region: set<nat>)
    requires |u| == |v| == |ids| && AgreeOn(region, u, v)
    requires forall i: nat | i < |ids| && Relevant(c, ids[i], sat) :: i in region
    ensures Eval(c, ids, u, sat).ok == Eval(c, ids, v, sat).ok
    ensures AgreeOn(region, Eval(c, ids, u, sat).used, Eval(c, ids, v, sat).used)
    decreases c
  {
    match c
    case Leaf(p) =>
      assert FirstUnused(ids, u, p, sat, 0) == FirstUnused(ids, v, p, sat, 0);
    case Gate(_, subs) =>
      GateDependsOnlyOnRelevant(subs, ids, u, v, sat, region);
  }

  lemma {:induction false} GateDependsOnlyOnRelevant<I, P(!new)>(subs: seq<Compiled<P>>, ids: seq<I>, u: seq<bool>, v: seq<bool>,
                                                                 sat: (I, P) -> bool, region: set<nat>)
    requires |u| == |v| == |ids| && AgreeOn(region, u, v)
    requires forall i: nat, k | i < |ids| && 0 <= k < |subs| && Relevant(subs[k], ids[i], sat) :: i in region
    ensures EvalAll(subs, ids, u, sat).verified == EvalAll(subs, ids, v, sat).verified
    ensures AgreeOn(region, EvalAll(subs, ids, u, sat).used, EvalAll(subs, ids, v, sat).used)
    decreases subs
  {
    if subs != [] {
      var k := |subs| - 1;
      GateDependsOnlyOnRelevant(subs[..k], ids, u, v, sat, region);
      DependsOnlyOnRelevant(subs[k], ids, EvalAll(subs[..k], ids, u, sat).used, EvalAll(subs[..k], ids, v, sat).used, sat, region);
    }
  }

  // ---------------------------------------------------------------------------
  // Independent sub-policies: the greedy loop counts each one as if it ran alone
  // ---------------------------------------------------------------------------

  /** No identity matches two of the sub-policies. */
  ghost predicate Independent<I, P(!new)>(subs: seq<Compiled<P>>, ids: seq<I>, sat: (I, P) -> bool) {
    forall i, j, k | 0 <= i < |ids| && 0 <= j < k < |subs| ::
      !(Relevant(subs[j], ids[i], sat) && Relevant(subs[k], ids[i], sat))
  }

  /** How many sub-policies accept when each one starts from the same flags. */
  ghost function CountAlone<I, P(!new)>(subs: seq<Compiled<P>>, ids: seq<I>, used: seq<bool>, sat: (I, P) -> bool): (n: nat)
    requires |used| == |ids|
    ensures n <= |subs|
  {
    if subs == [] then 0
    else CountAlone(subs[..|subs| - 1], ids, used, sat) + if Eval(subs[|subs| - 1], ids, used, sat).ok then 1 else 0
  }

  lemma {:induction false} IndependentGate<I, P(!new)>(subs: seq<Compiled<P>>, ids: seq<I>, used: seq<bool>, sat: (I, P) -> bool)
    requires |used| == |ids|
    requires Independent(subs, ids, sat)
    ensures EvalAll(subs, ids, used, sat).verified == CountAlone(subs, ids, used, sat)
  {
    if subs != [] {
      var k := |subs| - 1;
      IndependentGate(subs[..k], ids, used, sat);
      var t := EvalAll(subs[..k], ids, used, sat);
      var region := set i: nat | i < |ids| && Relevant(subs[k], ids[i], sat);
      forall i | 0 <= i < |ids| && i in region ensures used[i] == t.used[i] {
        GateLeavesOthersAlone(subs[..k], ids, used, sat, i);
      }
      DependsOnlyOnRelevant(subs[k], ids, used, t.used, sat, region);
    }
  }

  // ---------------------------------------------------------------------------
  // Completeness, and where it fails
  // ---------------------------------------------------------------------------

  /** No identity matches two leaves anywhere in the policy. */
  ghost predicate Unambiguous<I, P(!new)>(c: Compiled<P>, ids: seq<I>, sat: (I, P) -> bool)
    decreases c
  {
    match c
    case Leaf(_) => true
    case Gate(_, subs) =>
      && Independent(subs, ids, sat)
      && forall k | 0 <= k < |subs| :: Unambiguous(subs[k], ids, sat)
  }

  ghost predicate Avoids(a: Assignment, used: seq<bool>) {
    forall i | 0 <= i < |used| && used[i] :: i !in Signers(a)
  }

  /** When no identity matches two leaves, any assignment of unused identities is found. */
  lemma {:induction false} EvaluatorComplete<I, P(!new)>(c: Compiled<P>, ids: seq<I>, used: seq<bool>, sat: (I, P) -> bool, a: Assignment)
    requires |used| == |ids|
    requires Unambiguous(c, ids, sat)
    requires Meets(c, ids, a, sat) && Avoids(a, used)
    ensures Eval(c, ids, used, sat).ok
    decreases c
  {
    match c
    case Leaf(p) =>
      assert a.who in Signers(a);
    case Gate(n, subs) =>
      IndependentGate(subs, ids, used, sat);
      MetAreCounted(subs, ids, used, sat, a.subs);
  }

  lemma {:induction false} MetAreCounted<I, P(!new)>(subs: seq<Compiled<P>>, ids: seq<I>, used: seq<bool>, sat: (I, P) -> bool, bs: seq<Assignment>)
    requires |used| == |ids|
    requires MeetsEach(subs, ids, bs, sat)
    requires forall k | 0 <= k < |subs| :: Unambiguous(subs[k], ids, sat)
    requires forall i | 0 <= i < |used| && used[i] :: i !in AllSigners(bs)
    ensures CountMet(bs) <= CountAlone(subs, ids, used, sat)
    decreases subs
  {
    if subs != [] {
      var k := |subs| - 1;
      MetAreCounted(subs[..k], ids, used, sat, bs[..k]);
      if !bs[k].Unmet? {
        EvaluatorComplete(subs[k], ids, used, sat, bs[k]);
      }
    }
  }

  /** For an unambiguous policy the greedy evaluator decides exactly whether an assignment exists. */
  lemma AcceptsIffAssignable<I, P(!new)>(c: Compiled<P>, ids: seq<I>, used: seq<bool>, sat: (I, P) -> bool)
    requires |used| == |ids|
    requires Unambiguous(c, ids, sat)
    ensures Eval(c, ids, used, sat).ok <==> exists a :: Meets(c, ids, a, sat) && Avoids(a, used)
  {
    if Eval(c, ids, used, sat).ok {
      var a := EvaluatorSound(c, ids, used, sat);
      assert Meets(c, ids, a, sat) && Avoids(a, used);
    }
    if a :| Meets(c, ids, a, sat) && Avoids(a, used) {
      EvaluatorComplete(c, ids, used, sat, a);
    }
  }

  /** One iteration of a gate's loop. */
  ghost function Absorb<I, P>(t: Tally, c: Compiled<P>, ids: seq<I>, sat: (I, P) -> bool): (t': Tally)
    requires |t.used| == |ids|
    ensures |t'.used| == |ids|
  {
    var r := Eval(c, ids, t.used, sat);
    if r.ok then Tally(t.verified + 1, r.used) else t
  }

  lemma GateStep<I, P>(subs: seq<Compiled<P>>, c: Compiled<P>, ids: seq<I>, used: seq<bool>, sat: (I, P) -> bool)
    requires |used| == |ids|
    ensures EvalAll(subs + [c], ids, used, sat) == Absorb(EvalAll(subs, ids, used, sat), c, ids, sat)
  {
    assert (subs + [c])[..|subs|] == subs;
  }

  lemma TwoSteps<I, P>(x: Compiled<P>, y: Compiled<P>, ids: seq<I>, used: seq<bool>, sat: (I, P) -> bool)
    requires |used| == |ids|
    ensures EvalAll([x, y], ids, used, sat) == Absorb(Absorb(Tally(0, used), x, ids, sat), y, ids, sat)
  {
    GateStep([], x, ids, used, sat);
    GateStep([x], y, ids, used, sat);
    assert [] + [x] == [x] && [x] + [y] == [x, y];
  }

  lemma ThreeSteps<I, P>(x: Compiled<P>, y: Compiled<P>, z: Compiled<P>, ids: seq<I>, used: seq<bool>, sat: (I, P) -> bool)
    requires |used| == |ids|
    ensures EvalAll([x, y, z], ids, used, sat) == Absorb(Absorb(Absorb(Tally(0, used), x, ids, sat), y, ids, sat), z, ids, sat)
  {
    TwoSteps(x, y, ids, used, sat);
    GateStep([x, y], z, ids, used, sat);
    assert [x, y] + [z] == [x, y, z];
  }

  function AllThree<P>(a: P, b: P, c: P): Compiled<P> {
    Gate(3, [Leaf(a), Leaf(b), Leaf(c)])
  }

  /** 2-of(AND(A, B, C), A, B). */
  function Trap<P>(a: P, b: P, c: P): Compiled<P> {
    Gate(2, [AllThree(a, b, c), Leaf(a), Leaf(b)])
  }

  /** The identities 0, 1 and 2 satisfy one of the principals each. */
  ghost predicate OneEach<P>(a: P, b: P, c: P, sat: (int, P) -> bool) {
    && sat(0, a) && !sat(1, a) && !sat(2, a)
    && !sat(0, b) && sat(1, b) && !sat(2, b)
    && !sat(0, c) && !sat(1, c) && sat(2, c)
  }

  /**
   Without that condition the evaluator is not complete, and one more signer can turn acceptance into rejection
   (Monotonicity says when it cannot): the trap accepts a and b ...
   */
  lemma TrapAcceptsTwo<P(!new)>(a: P, b: P, c: P, sat: (int, P) -> bool)
    requires OneEach(a, b, c, sat)
    ensures Eval(Trap(a, b, c), [0, 1], [false, false], sat).ok
  {
    ThreeSteps(Leaf(a), Leaf(b), Leaf(c), [0, 1], [false, false], sat);
    assert !Eval(AllThree(a, b, c), [0, 1], [false, false], sat).ok;
    ThreeSteps(AllThree(a, b, c), Leaf(a), Leaf(b), [0, 1], [false, false], sat);
  }

  lemma AllThreeTakesAll<P(!new)>(a: P, b: P, c: P, sat: (int, P) -> bool)
    requires OneEach(a, b, c, sat)
    ensures Eval(AllThree(a, b, c), [0, 1, 2], [false, false, false], sat) == Outcome(true, [true, true, true])
  {
    ThreeSteps(Leaf(a), Leaf(b), Leaf(c), [0, 1, 2], [false, false, false], sat);
  }

  /** ... and rejects a, b and c ... */
  lemma TrapRejectsThree<P(!new)>(a: P, b: P, c: P, sat: (int, P) -> bool)
    requires OneEach(a, b, c, sat)
    ensures !Eval(Trap(a, b, c), [0, 1, 2], [false, false, false], sat).ok
  {
    AllThreeTakesAll(a, b, c, sat);
    ThreeSteps(AllThree(a, b, c), Leaf(a), Leaf(b), [0, 1, 2], [false, false, false], sat);
  }

  lemma AllThreeMissesOne<P(!new)>(a: P, b: P, c: P, sat: (int, P) -> bool)
    requires OneEach(a, b, c, sat)
    ensures !Eval(AllThree(a, b, c), [0, 1, 2], [false, false, true], sat).ok
  {
    ThreeSteps(Leaf(a), Leaf(b), Leaf(c), [0, 1, 2], [false, false, true], sat);
  }

  /** ... but accepts them when c is already used ... */
  lemma TrapAcceptsUsed<P(!new)>(a: P, b: P, c: P, sat: (int, P) -> bool)
    requires OneEach(a, b, c, sat)
    ensures Eval(Trap(a, b, c), [0, 1, 2], [false, false, true], sat).ok
  {
    AllThreeMissesOne(a, b, c, sat);
    ThreeSteps(AllThree(a, b, c), Leaf(a), Leaf(b), [0, 1, 2], [false, false, true], sat);
  }

  /** ... although a and b form an assignment all along. */
  lemma TrapStaysAssignable<P(!new)>(a: P, b: P, c: P, sat: (int, P) -> bool)
    requires OneEach(a, b, c, sat)
    ensures exists x :: Meets(Trap(a, b, c), [0, 1, 2], x, sat) && Avoids(x, [false, false, false])
  {
    var bs := [Unmet, Signer(0), Signer(1)];
    assert CountMet(bs) == 2 by {
      assert bs[..2] == [Unmet, Signer(0)] && bs[..2][..1] == [Unmet] && bs[..2][..1][..0] == [];
      assert CountMet([Unmet]) == 0;
      assert CountMet(bs[..2]) == 1;
    }
    assert Meets(Trap(a, b, c), [0, 1, 2], Chosen(bs), sat) && Avoids(Chosen(bs), [false, false, false]);
  }

  predicate Same(id: int, principal: int) {
    id == principal
  }

  /** One more signer can turn acceptance into rejection: principals that are the identities themselves. */
  lemma NotMonotone()
    ensures Eval(Trap(0, 1, 2), [0, 1], [false, false], Same).ok
    ensures !Eval(Trap(0, 1, 2), [0, 1, 2], [false, false, false], Same).ok
  {
    TrapAcceptsTwo(0, 1, 2, Same);
    TrapRejectsThree(0, 1, 2, Same);
  }
}
