/**
 When more signers keep a signature policy satisfied (common/cauthdsl/cauthdsl.go).  In general they do not; they do
 when no identity matches two leaves, and they do for policies of a simple shape whatever the identities match.
 */
module Monotonicity {
  import opened PolicyConversion
  import opened SignaturePolicies
  import opened Wrappers

  /** The signers are among those of the other list, each at the position given. */
  ghost predicate Placed<I>(ids: seq<I>, others: seq<I>, at: seq<nat>) {
    |at| == |ids| && forall i | 0 <= i < |ids| :: at[i] < |others| && others[at[i]] == ids[i]
  }

  /** No signer is used in the other list that is unused in the first. */
  ghost predicate StayUnused(used: seq<bool>, used': seq<bool>, at: seq<nat>) {
    |at| == |used| && forall i | 0 <= i < |used| :: at[i] < |used'| && (used'[at[i]] ==> used[i])
  }

  // ---------------------------------------------------------------------------
  // Unambiguous policies
  // ---------------------------------------------------------------------------

  /** The assignment with the signers at their new positions. */
  ghost function Moved(a: Assignment, at: seq<nat>): Assignment {
    match a
    case Unmet => Unmet
    case Signer(i) => Signer(if i < |at| then at[i] else i)
    case Chosen(subs) => Chosen(seq(|subs|, k requires 0 <= k < |subs| => Moved(subs[k], at)))
  }

  ghost function MovedAll(bs: seq<Assignment>, at: seq<nat>): (ms: seq<Assignment>)
    ensures |ms| == |bs| && forall k | 0 <= k < |bs| :: ms[k] == Moved(bs[k], at)
  {
    seq(|bs|, k requires 0 <= k < |bs| => Moved(bs[k], at))
  }

  lemma {:induction false} CountMetMoved(bs: seq<Assignment>, at: seq<nat>)
    ensures CountMet(MovedAll(bs, at)) == CountMet(bs)
  {
    if bs != [] {
      var k := |bs| - 1;
      CountMetMoved(bs[..k], at);
      assert MovedAll(bs, at)[..k] == MovedAll(bs[..k], at);
    }
  }

  lemma {:induction false} MovedMeets<I, P(!new)>(c: Compiled<P>, ids: seq<I>, a: Assignment, others: seq<I>, at: seq<nat>, sat: (I, P) -> bool)
    requires Placed(ids, others, at) && Meets(c, ids, a, sat)
    ensures Meets(c, others, Moved(a, at), sat)
    decreases c
  {
    if c.Gate? {
      assert Moved(a, at) == Chosen(MovedAll(a.subs, at));
      CountMetMoved(a.subs, at);
      forall k | 0 <= k < |c.subs| && !a.subs[k].Unmet? ensures Meets(c.subs[k], others, Moved(a.subs[k], at), sat) {
        MovedMeets(c.subs[k], ids, a.subs[k], others, at, sat);
      }
    }
  }

  /** Every signer of the moved assignment stands where some signer of the assignment went. */
  lemma {:induction false} MovedSigner<I, P(!new)>(c: Compiled<P>, ids: seq<I>, a: Assignment, at: seq<nat>, sat: (I, P) -> bool, j: nat) returns (i: nat)
    requires Meets(c, ids, a, sat) && |at| == |ids| && j in Signers(Moved(a, at))
    ensures i in Signers(a) && i < |at| && j == at[i]
    decreases c, 0
  {
    if c.Leaf? {
      i := a.who;
    } else {
      assert Moved(a, at) == Chosen(MovedAll(a.subs, at));
      i := MovedSignerAll(c.subs, ids, a.subs, at, sat, j);
    }
  }

  lemma {:induction false} MovedSignerAll<I, P(!new)>(subs: seq<Compiled<P>>, ids: seq<I>, bs: seq<Assignment>, at: seq<nat>, sat: (I, P) -> bool, j: nat)
    returns (i: nat)
    requires MeetsEach(subs, ids, bs, sat) && |at| == |ids| && j in AllSigners(MovedAll(bs, at))
    ensures i in AllSigners(bs) && i < |at| && j == at[i]
    decreases subs
  {
    var k := |bs| - 1;
    assert MovedAll(bs, at)[..k] == MovedAll(bs[..k], at);
    if j in AllSigners(MovedAll(bs[..k], at)) {
      i := MovedSignerAll(subs[..k], ids, bs[..k], at, sat, j);
    } else {
      i := MovedSigner(subs[k], ids, bs[k], at, sat, j);
    }
  }

  /**
   When no identity matches two leaves, what some signers satisfy every list that holds them satisfies, in whatever
   order and with whatever other signers.
   */
  lemma MonotoneWhenUnambiguous<I, P(!new)>(c: Compiled<P>, ids: seq<I>, used: seq<bool>, others: seq<I>, used': seq<bool>, at: seq<nat>,
                                                sat: (I, P) -> bool)
    requires |used| == |ids| && |used'| == |others| && Placed(ids, others, at) && StayUnused(used, used', at)
    requires Unambiguous(c, others, sat) && Eval(c, ids, used, sat).ok
    ensures Eval(c, others, used', sat).ok
  {
    var a := EvaluatorSound(c, ids, used, sat);
    MovedMeets(c, ids, a, others, at, sat);
    forall j: nat | j < |used'| && j in Signers(Moved(a, at)) ensures !used'[j] {
      var i := MovedSigner(c, ids, a, at, sat, j);
      assert Signers(a)[i] == 1;
    }
    EvaluatorComplete(c, others, used', sat, Moved(a, at));
  }

  // ---------------------------------------------------------------------------
  // Simple shapes: one more unused identity
  // ---------------------------------------------------------------------------

  /** At most one identity that is used in `u` is unused in `v`; otherwise the flags agree. */
  ghost predicate FreesOne(u: seq<bool>, v: seq<bool>) {
    v == u || (|v| == |u| && exists e | 0 <= e < |u| :: u[e] && v == u[e := false])
  }

  /** A threshold over leaves, or all of several such policies. */
  predicate Steady<P>(c: Compiled<P>)
    decreases c
  {
    match c
    case Leaf(_) => true
    case Gate(n, subs) =>
      || (forall k | 0 <= k < |subs| :: subs[k].Leaf?)
      || (n >= |subs| && forall k | 0 <= k < |subs| :: Steady(subs[k]))
  }

  /** A steady policy, or one of several such policies, to any depth. */
  predicate Shallow<P>(c: Compiled<P>)
    decreases c
  {
    Steady(c) || (c.Gate? && c.n <= 1 && forall k | 0 <= k < |c.subs| :: Shallow(c.subs[k]))
  }

  /** Any threshold over leaves, all of several steady policies, and one of several shallow ones are of these shapes. */
  lemma Shapes<P>(n: int, subs: seq<Compiled<P>>)
    ensures (forall k | 0 <= k < |subs| :: subs[k].Leaf?) ==> Steady(Gate(n, subs))
    ensures (forall k | 0 <= k < |subs| :: Steady(subs[k])) ==> Steady(Gate(|subs|, subs))
    ensures (forall k | 0 <= k < |subs| :: Shallow(subs[k])) ==> Shallow(Gate(1, subs))
  {
  }

  /** A leaf takes the freed identity or leaves it, and if it takes it, frees the one it took before. */
  lemma LeafFrees<I, P>(p: P, ids: seq<I>, u: seq<bool>, v: seq<bool>, sat: (I, P) -> bool)
    requires |u| == |v| == |ids| && FreesOne(u, v)
    ensures var r, r' := Eval(Leaf(p), ids, u, sat), Eval(Leaf(p), ids, v, sat);
            if r.ok == r'.ok then FreesOne(r.used, r'.used) else r'.ok && r'.used == r.used
  {
    if v != u {
      var e :| 0 <= e < |u| && u[e] && v == u[e := false];
      var i, j := FirstUnused(ids, u, p, sat, 0), FirstUnused(ids, v, p, sat, 0);
      if j == e {
        assert v[e := true] == u;
        if i < |ids| {
          assert u[i := true][i := false] == u;
        }
      } else {
        assert j == i;
        if i < |ids| {
          assert u[e := false][i := true] == u[i := true][e := false];
        }
      }
    }
  }

  /** Either the tallies agree up to one freed identity, or the second is one ahead with the same flags. */
  ghost predicate Ahead(t: Tally, t': Tally) {
    || (t'.verified == t.verified && FreesOne(t.used, t'.used))
    || (t'.verified == t.verified + 1 && t'.used == t.used)
  }

  lemma {:induction false} LeavesFree<I, P(!new)>(subs: seq<Compiled<P>>, ids: seq<I>, u: seq<bool>, v: seq<bool>, sat: (I, P) -> bool)
    requires |u| == |v| == |ids| && FreesOne(u, v) && forall k | 0 <= k < |subs| :: subs[k].Leaf?
    ensures Ahead(EvalAll(subs, ids, u, sat), EvalAll(subs, ids, v, sat))
  {
    if subs != [] {
      var k := |subs| - 1;
      LeavesFree(subs[..k], ids, u, v, sat);
      var t, t' := EvalAll(subs[..k], ids, u, sat), EvalAll(subs[..k], ids, v, sat);
      if FreesOne(t.used, t'.used) {
        LeafFrees(subs[k].principal, ids, t.used, t'.used, sat);
      }
    }
  }

  /** Freeing an identity keeps a steady policy satisfied, and leaves at most one more identity unused. */
  lemma {:induction false} SteadyFrees<I, P(!new)>(c: Compiled<P>, ids: seq<I>, u: seq<bool>, v: seq<bool>, sat: (I, P) -> bool)
    requires |u| == |v| == |ids| && FreesOne(u, v) && Steady(c) && Eval(c, ids, u, sat).ok
    ensures Eval(c, ids, v, sat).ok && FreesOne(Eval(c, ids, u, sat).used, Eval(c, ids, v, sat).used)
    decreases c
  {
    match c
    case Leaf(p) =>
      LeafFrees(p, ids, u, v, sat);
    case Gate(n, subs) =>
      if forall k | 0 <= k < |subs| :: subs[k].Leaf? {
        LeavesFree(subs, ids, u, v, sat);
      } else {
        VerifiedAtMost(subs, ids, u, sat);
        AllFree(subs, ids, u, v, sat);
      }
  }

  lemma {:induction false} VerifiedAtMost<I, P>(subs: seq<Compiled<P>>, ids: seq<I>, used: seq<bool>, sat: (I, P) -> bool)
    requires |used| == |ids|
    ensures EvalAll(subs, ids, used, sat).verified <= |subs|
  {
    if subs != [] {
      VerifiedAtMost(subs[..|subs| - 1], ids, used, sat);
    }
  }

  lemma {:induction false} AllFree<I, P(!new)>(subs: seq<Compiled<P>>, ids: seq<I>, u: seq<bool>, v: seq<bool>, sat: (I, P) -> bool)
    requires |u| == |v| == |ids| && FreesOne(u, v) && forall k | 0 <= k < |subs| :: Steady(subs[k])
    requires EvalAll(subs, ids, u, sat).verified == |subs|
    ensures EvalAll(subs, ids, v, sat).verified == |subs|
    ensures FreesOne(EvalAll(subs, ids, u, sat).used, EvalAll(subs, ids, v, sat).used)
    decreases subs
  {
    if subs != [] {
      var k := |subs| - 1;
      VerifiedAtMost(subs[..k], ids, u, sat);
      AllFree(subs[..k], ids, u, v, sat);
      SteadyFrees(subs[k], ids, EvalAll(subs[..k], ids, u, sat).used, EvalAll(subs[..k], ids, v, sat).used, sat);
    }
  }

  lemma {:induction false} ShallowFrees<I, P(!new)>(c: Compiled<P>, ids: seq<I>, u: seq<bool>, v: seq<bool>, sat: (I, P) -> bool)
    requires |u| == |v| == |ids| && FreesOne(u, v) && Shallow(c) && Eval(c, ids, u, sat).ok
    ensures Eval(c, ids, v, sat).ok
    decreases c
  {
    if Steady(c) {
      SteadyFrees(c, ids, u, v, sat);
    } else {
      AnyFrees(c.subs, ids, u, v, sat);
    }
  }

  /** Before the first sub-policy is satisfied nothing is used. */
  lemma {:induction false} AnyFrees<I, P(!new)>(subs: seq<Compiled<P>>, ids: seq<I>, u: seq<bool>, v: seq<bool>, sat: (I, P) -> bool)
    requires |u| == |v| == |ids| && FreesOne(u, v) && forall k | 0 <= k < |subs| :: Shallow(subs[k])
    ensures EvalAll(subs, ids, v, sat).verified >= 1 || (EvalAll(subs, ids, u, sat) == Tally(0, u) && EvalAll(subs, ids, v, sat) == Tally(0, v))
    decreases subs
  {
    if subs != [] {
      var k := |subs| - 1;
      AnyFrees(subs[..k], ids, u, v, sat);
      if EvalAll(subs[..k], ids, v, sat).verified == 0 && Eval(subs[k], ids, u, sat).ok {
        ShallowFrees(subs[k], ids, u, v, sat);
      }
    }
  }

  // ---------------------------------------------------------------------------
  // Simple shapes: any further signers
  // ---------------------------------------------------------------------------

  /** The identities that are used in `u` and not in `v`. */
  ghost function Freed(u: seq<bool>, v: seq<bool>): set<nat>
    requires |u| == |v|
  {
    set i: nat | i < |u| && u[i] && !v[i]
  }

  lemma {:induction false} FewerUsed<I, P(!new)>(c: Compiled<P>, ids: seq<I>, u: seq<bool>, v: seq<bool>, sat: (I, P) -> bool)
    requires |u| == |v| == |ids| && (forall i | 0 <= i < |u| :: v[i] ==> u[i]) && Shallow(c) && Eval(c, ids, u, sat).ok
    ensures Eval(c, ids, v, sat).ok
    decreases |Freed(u, v)|
  {
    if v != u {
      var e :| 0 <= e < |u| && u[e] && !v[e];
      var w := u[e := false];
      ShallowFrees(c, ids, u, w, sat);
      assert e in Freed(u, v) && Freed(w, v) == Freed(u, v) - {e};
      FewerUsed(c, ids, w, v, sat);
    }
  }

  ghost predicate Increasing(at: seq<nat>) {
    forall i, j | 0 <= i < j < |at| :: at[i] < at[j]
  }

  /** In the longer list exactly the other identities, and those used before, are used. */
  ghost predicate Spread(used: seq<bool>, wide: seq<bool>, at: seq<nat>) {
    && |at| == |used|
    && (forall i | 0 <= i < |at| :: at[i] < |wide| && wide[at[i]] == used[i])
    && (forall j: nat | j < |wide| && j !in at :: wide[j])
  }

  lemma FirstIs<I, P>(ids: seq<I>, used: seq<bool>, p: P, sat: (I, P) -> bool, i: nat)
    requires |used| == |ids| && i <= |ids| && (i < |ids| ==> !used[i] && sat(ids[i], p))
    requires forall j | 0 <= j < i :: used[j] || !sat(ids[j], p)
    ensures FirstUnused(ids, used, p, sat, 0) == i
  {
  }

  lemma SkippedBefore<I, P>(ids: seq<I>, used: seq<bool>, longer: seq<I>, wide: seq<bool>, at: seq<nat>, p: P, sat: (I, P) -> bool, i: nat, j: nat)
    requires |used| == |ids| && |wide| == |longer| && Placed(ids, longer, at) && Increasing(at) && Spread(used, wide, at)
    requires i <= |ids| && forall k | 0 <= k < i :: used[k] || !sat(ids[k], p)
    requires j < |longer| && (i < |ids| ==> j < at[i])
    ensures wide[j] || !sat(longer[j], p)
  {
    if j in at {
      var k :| 0 <= k < |at| && at[k] == j;
      assert k < i;
      assert used[k] || !sat(ids[k], p);
    }
  }

  lemma FirstSpread<I, P>(ids: seq<I>, used: seq<bool>, longer: seq<I>, wide: seq<bool>, at: seq<nat>, p: P, sat: (I, P) -> bool)
    requires |used| == |ids| && |wide| == |longer| && Placed(ids, longer, at) && Increasing(at) && Spread(used, wide, at)
    ensures var i := FirstUnused(ids, used, p, sat, 0);
            FirstUnused(longer, wide, p, sat, 0) == if i < |ids| then at[i] else |longer|
  {
    var i := FirstUnused(ids, used, p, sat, 0);
    var x := if i < |ids| then at[i] else |longer|;
    forall j: nat | j < x ensures wide[j] || !sat(longer[j], p) {
      SkippedBefore(ids, used, longer, wide, at, p, sat, i, j);
    }
    FirstIs(longer, wide, p, sat, x);
  }

  lemma SpreadTaken(used: seq<bool>, wide: seq<bool>, at: seq<nat>, i: nat)
    requires Spread(used, wide, at) && Increasing(at) && i < |used|
    ensures Spread(used[i := true], wide[at[i] := true], at)
  {
  }

  /** Identities that are used from the start might as well not be there. */
  lemma {:induction false} SpreadRuns<I, P(!new)>(c: Compiled<P>, ids: seq<I>, used: seq<bool>, longer: seq<I>, wide: seq<bool>, at: seq<nat>,
                                                      sat: (I, P) -> bool)
    requires |used| == |ids| && |wide| == |longer| && Placed(ids, longer, at) && Increasing(at) && Spread(used, wide, at)
    ensures Eval(c, longer, wide, sat).ok == Eval(c, ids, used, sat).ok
    ensures Spread(Eval(c, ids, used, sat).used, Eval(c, longer, wide, sat).used, at)
    decreases c
  {
    match c
    case Leaf(p) =>
      FirstSpread(ids, used, longer, wide, at, p, sat);
      var i := FirstUnused(ids, used, p, sat, 0);
      if i < |ids| {
        SpreadTaken(used, wide, at, i);
      }
    case Gate(_, subs) =>
      SpreadRunsAll(subs, ids, used, longer, wide, at, sat);
  }

  lemma {:induction false} SpreadRunsAll<I, P(!new)>(subs: seq<Compiled<P>>, ids: seq<I>, used: seq<bool>, longer: seq<I>, wide: seq<bool>,
                                                         at: seq<nat>, sat: (I, P) -> bool)
    requires |used| == |ids| && |wide| == |longer| && Placed(ids, longer, at) && Increasing(at) && Spread(used, wide, at)
    ensures EvalAll(subs, longer, wide, sat).verified == EvalAll(subs, ids, used, sat).verified
    ensures Spread(EvalAll(subs, ids, used, sat).used, EvalAll(subs, longer, wide, sat).used, at)
    decreases subs
  {
    if subs != [] {
      var k := |subs| - 1;
      SpreadRunsAll(subs[..k], ids, used, longer, wide, at, sat);
      SpreadRuns(subs[k], ids, EvalAll(subs[..k], ids, used, sat).used, longer, EvalAll(subs[..k], longer, wide, sat).used, at, sat);
    }
  }

  ghost function Widened(used: seq<bool>, at: seq<nat>, n: nat): (wide: seq<bool>)
    requires |at| == |used| && Increasing(at) && forall i | 0 <= i < |at| :: at[i] < n
    ensures |wide| == n && Spread(used, wide, at)
  {
    seq(n, j => forall i | 0 <= i < |at| && at[i] == j :: used[i])
  }

  /**
   Whatever the identities match, signers put anywhere between those that satisfy a shallow policy keep it satisfied.
   */
  lemma MonotoneWhenShallow<I, P(!new)>(c: Compiled<P>, ids: seq<I>, used: seq<bool>, longer: seq<I>, used': seq<bool>, at: seq<nat>,
                                            sat: (I, P) -> bool)
    requires |used| == |ids| && |used'| == |longer| && Placed(ids, longer, at) && StayUnused(used, used', at) && Increasing(at)
    requires Shallow(c) && Eval(c, ids, used, sat).ok
    ensures Eval(c, longer, used', sat).ok
  {
    var wide := Widened(used, at, |longer|);
    SpreadRuns(c, ids, used, longer, wide, at, sat);
    forall j | 0 <= j < |longer| && used'[j] ensures wide[j] {
      if j in at {
        var i :| 0 <= i < |at| && at[i] == j;
      }
    }
    FewerUsed(c, longer, wide, used', sat);
  }

  /** Their order can matter: of x, who satisfies A and B, and y, who satisfies A, AND(A, B) accepts y before x only. */
  lemma OrderMatters()
    ensures var both := Gate(2, [Leaf(0), Leaf(1)]);
            var sat := (id: int, p: int) => p <= id;
            Shallow(both) && Eval(both, [0, 1], [false, false], sat).ok && !Eval(both, [1, 0], [false, false], sat).ok
  {
    var sat := (id: int, p: int) => p <= id;
    TwoSteps(Leaf(0), Leaf(1), [0, 1], [false, false], sat);
    TwoSteps(Leaf(0), Leaf(1), [1, 0], [false, false], sat);
  }

  // ---------------------------------------------------------------------------
  // Whole policies
  // ---------------------------------------------------------------------------

  /** Every signature policy inside is shallow or unambiguous, and no meta policy with sub-policies asks for none of them. */
  ghost predicate Robust<I>(p: Policy, ids: seq<I>, sat: (I, Principal) -> bool)
    decreases p
  {
    match p
    case Signature(e) => NewPolicy(e).Some? ==> Shallow(NewPolicy(e).value) || Unambiguous(NewPolicy(e).value, ids, sat)
    case ImplicitMeta(t, subs) => (t != 0 || subs == []) && forall k | 0 <= k < |subs| :: Robust(subs[k], ids, sat)
    case Reject => true
  }

  /** Signers put anywhere between those that satisfy a robust policy, implicit meta policies included, keep it satisfied. */
  lemma {:induction false} PolicyMonotone<I>(p: Policy, ids: seq<I>, longer: seq<I>, at: seq<nat>, sat: (I, Principal) -> bool)
    requires Placed(ids, longer, at) && Increasing(at) && Robust(p, longer, sat) && Accepts(p, ids, sat)
    ensures Accepts(p, longer, sat)
    decreases p
  {
    if p.Signature? {
      var c := NewPolicy(p.envelope).value;
      if Shallow(c) {
        MonotoneWhenShallow(c, ids, Unused(|ids|), longer, Unused(|longer|), at, sat);
      } else {
        MonotoneWhenUnambiguous(c, ids, Unused(|ids|), longer, Unused(|longer|), at, sat);
      }
    } else {
      CountGrows(p.subs, ids, longer, at, sat);
    }
  }

  lemma {:induction false} CountGrows<I>(subs: seq<Policy>, ids: seq<I>, longer: seq<I>, at: seq<nat>, sat: (I, Principal) -> bool)
    requires Placed(ids, longer, at) && Increasing(at) && forall k | 0 <= k < |subs| :: Robust(subs[k], longer, sat)
    ensures CountAccepting(subs, ids, sat) <= CountAccepting(subs, longer, sat)
    decreases subs
  {
    if subs != [] {
      var k := |subs| - 1;
      CountGrows(subs[..k], ids, longer, at, sat);
      if Accepts(subs[k], ids, sat) {
        PolicyMonotone(subs[k], ids, longer, at, sat);
      }
    }
  }

  /** A meta policy that asks for none of its sub-policies is satisfied without signers, and no longer with one who satisfies a sub-policy. */
  lemma NoneAskedFor(q: Principal, sat: (int, Principal) -> bool)
    requires sat(7, q)
    ensures var none := ImplicitMeta(0, [Signature(Envelope(0, SignedBy(0), [q]))]);
            Accepts(none, [], sat) && !Accepts(none, [7], sat)
  {
    var sub := Signature(Envelope(0, SignedBy(0), [q]));
    assert [sub][..0] == [];
    assert CountAccepting([sub], [], sat) == 0 && CountAccepting([sub], [7], sat) == 1;
  }
}
