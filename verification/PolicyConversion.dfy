/**
 Conversion of an implicit meta policy into one signature policy (common/policies/convert.go), against
 the evaluation of implicit meta policies (common/policies/implicitmeta.go).
 */
module PolicyConversion {
  import opened Bytes
  import opened Interning
  import opened SignaturePolicies
  import opened Wrappers

  /** An `MSPPrincipal`: a classification number and its bytes. */
  datatype Principal = Principal(classification: int, content: bytes)

  /** A `SignaturePolicyEnvelope`. */
  datatype Envelope = Envelope(version: int, rule: Rule, identities: seq<Principal>)

  /** A policy of the manager: a signature policy, an implicit meta policy, or the reject-all placeholder. */
  datatype Policy = Signature(envelope: Envelope) | ImplicitMeta(threshold: int, subs: seq<Policy>) | Reject

  // ---------------------------------------------------------------------------
  // The deduplication key of a principal
  // ---------------------------------------------------------------------------

  predicate Known(classification: int) {
    0 <= classification <= 4
  }

  function Digits(n: nat): (d: bytes)
    ensures |d| > 0 && 48 <= d[0] <= 57
  {
    if n < 10 then [48 + n] else Digits(n / 10) + [48 + n % 10]
  }

  /** The enum's name, or its decimal number when the number has no name. */
  function ClassName(classification: int): bytes {
    if classification == 0 then [82, 79, 76, 69]  // ROLE
    else if classification == 1 then [79, 82, 71, 65, 78, 73, 90, 65, 84, 73, 79, 78, 95, 85, 78, 73, 84]  // ORGANIZATION_UNIT
    else if classification == 2 then [73, 68, 69, 78, 84, 73, 84, 89]  // IDENTITY
    else if classification == 3 then [65, 78, 79, 78, 89, 77, 73, 84, 89]  // ANONYMITY
    else if classification == 4 then [67, 79, 77, 66, 73, 78, 69, 68]  // COMBINED
    else if classification < 0 then [45] + Digits(-classification)
    else Digits(classification)
  }

  /** The codes of the characters. */
  ghost function Ascii(s: string): bytes {
    seq(|s|, i requires 0 <= i < |s| => s[i] as int % 256)
  }

  ghost function FromDigits(d: bytes): int {
    if d == [] then 0 else 10 * FromDigits(d[..|d| - 1]) + d[|d| - 1] - 48
  }

  /** The decimal digits read back as the number. */
  lemma {:induction false} DigitsRead(n: nat)
    ensures FromDigits(Digits(n)) == n && forall i | 0 <= i < |Digits(n)| :: 48 <= Digits(n)[i] <= 57
  {
    var d := Digits(n);
    if n < 10 {
      assert d[..0] == [];
    } else {
      DigitsRead(n / 10);
      assert d[..|d| - 1] == Digits(n / 10);
    }
  }

  lemma ClassNames(classification: int)
    ensures ClassName(0) == Ascii("ROLE") && ClassName(2) == Ascii("IDENTITY")
    ensures ClassName(3) == Ascii("ANONYMITY") && ClassName(4) == Ascii("COMBINED")
    ensures classification > 4 ==> ClassName(classification) == Digits(classification)
    ensures classification < 0 ==> ClassName(classification) == Ascii("-") + Digits(-classification)
    ensures Known(classification) <==> classification in {0, 1, 2, 3, 4}
  {
  }

  lemma OrganizationUnit()
    ensures ClassName(1) == Ascii("ORGANIZATION_UNIT")
  {
  }

  function Key(p: Principal): bytes {
    ClassName(p.classification) + p.content
  }

  /** Equal keys mean equal principals, except that principals of unnamed classifications may clash. */
  lemma KeyClash(p: Principal, q: Principal)
    requires Key(p) == Key(q)
    ensures p == q || (!Known(p.classification) && !Known(q.classification))
  {
    var cp, cq := ClassName(p.classification), ClassName(q.classification);
    assert cp[0] == Key(p)[0] == Key(q)[0] == cq[0];
    if Known(p.classification) || Known(q.classification) {
      assert p.classification == q.classification;
      assert p.content == Key(p)[|cp|..] == Key(q)[|cq|..] == q.content;
    }
  }

  /** An MSP accepts no identity for a principal whose classification it does not know. */
  ghost predicate RejectsUnknown<I(!new)>(sat: (I, Principal) -> bool) {
    forall id: I, p: Principal | !Known(p.classification) :: !sat(id, p)
  }

  // ---------------------------------------------------------------------------
  // Evaluation
  // ---------------------------------------------------------------------------

  /** `NewPolicy`: the evaluator of an envelope of version 0. */
  function NewPolicy(e: Envelope): (c: Option<Compiled<Principal>>) {
    if e.version != 0 then None else Compile(e.rule, e.identities)
  }

  /** A signature policy is built exactly from an envelope of version 0 whose rule refers to existing principals. */
  lemma NewPolicyIff(e: Envelope)
    ensures NewPolicy(e).Some? <==> e.version == 0 && Resolvable(e.rule, |e.identities|)
  {
  }

  function Unused(n: nat): (u: seq<bool>)
    ensures |u| == n && forall i | 0 <= i < n :: !u[i]
  {
    seq(n, _ => false)
  }

  /** Every signature policy compiled when it was created. */
  predicate WellFormed(p: Policy) {
    match p
    case Signature(e) => NewPolicy(e).Some?
    case ImplicitMeta(_, subs) => forall k | 0 <= k < |subs| :: WellFormed(subs[k])
    case Reject => true
  }

  /** What the count-down of `remaining` decides: exactly the threshold, or zero with nothing satisfied. */
  predicate MetaVerdict(threshold: int, satisfied: nat) {
    if threshold >= 1 then satisfied >= threshold else threshold == 0 && satisfied == 0
  }

  predicate Accepts<I>(p: Policy, ids: seq<I>, sat: (I, Principal) -> bool)
    decreases p
  {
    match p
    case Signature(e) => NewPolicy(e).Some? && Eval(NewPolicy(e).value, ids, Unused(|ids|), sat).ok
    case ImplicitMeta(t, subs) => MetaVerdict(t, CountAccepting(subs, ids, sat))
    case Reject => false
  }

  function CountAccepting<I>(subs: seq<Policy>, ids: seq<I>, sat: (I, Principal) -> bool): (n: nat)
    ensures n <= |subs|
    decreases subs
  {
    if subs == [] then 0
    else CountAccepting(subs[..|subs| - 1], ids, sat) + if Accepts(subs[|subs| - 1], ids, sat) then 1 else 0
  }

  lemma {:induction false} CountGrows<I>(subs: seq<Policy>, k: nat, ids: seq<I>, sat: (I, Principal) -> bool)
    requires k <= |subs|
    ensures CountAccepting(subs[..k], ids, sat) <= CountAccepting(subs, ids, sat)
  {
    if k == |subs| {
      assert subs[..k] == subs;
    } else {
      assert subs[..|subs| - 1][..k] == subs[..k];
      CountGrows(subs[..|subs| - 1], k, ids, sat);
    }
  }

  /** `EvaluateIdentities` of each kind of policy. */
  method EvaluateIdentities<I>(p: Policy, ids: seq<I>, sat: (I, Principal) -> bool) returns (ok: bool)
    ensures ok == Accepts(p, ids, sat)
    decreases p
  {
    match p
    case Reject =>
      ok := false;
    case Signature(e) =>
      var c := NewPolicy(e);
      if c.None? {
        return false;
      }
      var used := new bool[|ids|](_ => false);
      assert used[..] == Unused(|ids|);
      ok := Evaluate(c.value, ids, used, sat);
    case ImplicitMeta(threshold, subs) =>
      var remaining := threshold;
      for k := 0 to |subs|
        invariant remaining == threshold - CountAccepting(subs[..k], ids, sat)
        invariant threshold >= 1 ==> remaining >= 1
      {
        assert subs[..k + 1][..k] == subs[..k];
        var met := EvaluateIdentities(subs[k], ids, sat);
        if met {
          remaining := remaining - 1;
          if remaining == 0 {
            CountGrows(subs, k + 1, ids, sat);
            return true;
          }
        }
      }
      assert subs[..|subs|] == subs;
      ok := remaining == 0;
  }

  datatype MetaRule = ANY | ALL | MAJORITY | Other

  /** The threshold that `NewImplicitMetaPolicy` picks for `n` sub-policies. */
  function Threshold(rule: MetaRule, n: nat): int {
    if n == 0 then 0
    else match rule
      case ANY => 1
      case ALL => n
      case MAJORITY => n / 2 + 1
      case Other => 0
  }

  /**
   The count-down agrees with "at least `threshold` sub-policies accept", whatever they answer,
   exactly when the rule is one of the three defined ones or there are no sub-policies.
   */
  lemma CountdownIsThreshold(rule: MetaRule, n: nat)
    ensures (forall k: nat | k <= n :: MetaVerdict(Threshold(rule, n), k) <==> k >= Threshold(rule, n))
       <==> (rule != Other || n == 0)
  {
    if rule == Other && n > 0 {
      assert !MetaVerdict(Threshold(rule, n), 1);
    }
  }

  // ---------------------------------------------------------------------------
  // remap, merge and Convert
  // ---------------------------------------------------------------------------

  /** `remap`: redirect every "signed by" index. */
  function Remap(rule: Rule, redirect: seq<nat>): (r: Rule)
    requires Resolvable(rule, |redirect|)
    decreases rule
  {
    match rule
    case SignedBy(i) => SignedBy(redirect[i])
    case NOutOf(n, rules) => NOutOf(n, RemapAll(rules, redirect))
  }

  function RemapAll(rules: seq<Rule>, redirect: seq<nat>): (rs: seq<Rule>)
    requires forall k | 0 <= k < |rules| :: Resolvable(rules[k], |redirect|)
    ensures |rs| == |rules|
    ensures forall k | 0 <= k < |rules| :: rs[k] == Remap(rules[k], redirect)
    decreases rules
  {
    if rules == [] then []
    else RemapAll(rules[..|rules| - 1], redirect) + [Remap(rules[|rules| - 1], redirect)]
  }

  /** The envelope after `merge(target, that)`; `key` is the deduplication key. */
  function Merged(target: Envelope, that: Envelope, key: Principal -> bytes): Envelope
    requires target.rule.NOutOf? && Resolvable(that.rule, |that.identities|)
  {
    var m := Intern(target.identities, that.identities, key);
    Envelope(target.version, NOutOf(target.rule.n, target.rule.rules + [Remap(that.rule, m.redirect)]), m.table)
  }

  /** An envelope under construction: an N-out-of rule that grows by one entry per merge. */
  class MergeTarget {
    const n: int
    var rules: seq<Rule>
    var identities: seq<Principal>

    constructor (n: int)
      ensures this.n == n && rules == [] && identities == []
    {
      this.n := n;
      rules, identities := [], [];
    }

    function Contents(): Envelope
      reads this
    {
      Envelope(0, NOutOf(n, rules), identities)
    }

    /** `merge`: intern the principals of `that`, then append its remapped rule. */
    method Merge(that: Envelope, key: Principal -> bytes)
      requires Resolvable(that.rule, |that.identities|)
      modifies this
      ensures Contents() == Merged(old(Contents()), that, key)
    {
      var m := InternInto(identities, that.identities, key);
      identities := m.table;
      rules := rules + [Remap(that.rule, m.redirect)];
    }
  }

  /** `Convert`; `None` when some sub-policy is not convertible. */
  function Converted(p: Policy, key: Principal -> bytes): (e: Option<Envelope>)
    requires WellFormed(p)
    ensures e.Some? ==> NewPolicy(e.value).Some?
    decreases p
  {
    match p
    case Signature(e) => Some(e)
    case ImplicitMeta(t, subs) => ConvertedAll(t, subs, key)
    case Reject => None
  }

  function ConvertedAll(t: int, subs: seq<Policy>, key: Principal -> bytes): (e: Option<Envelope>)
    requires forall k | 0 <= k < |subs| :: WellFormed(subs[k])
    ensures e.Some? ==> NewPolicy(e.value).Some?
    ensures e.Some? ==> e.value.rule.NOutOf? && e.value.rule.n == t && |e.value.rule.rules| == |subs|
    decreases subs
  {
    if subs == [] then Some(Envelope(0, NOutOf(t, []), []))
    else
      var init := ConvertedAll(t, subs[..|subs| - 1], key);
      var last := Converted(subs[|subs| - 1], key);
      if init.None? || last.None? then None
      else
        MergeKeepsResolvable(init.value, last.value, key);
        Some(Merged(init.value, last.value, key))
  }

  /** The loop of `Convert` over the sub-policies. */
  method Convert(p: Policy, key: Principal -> bytes) returns (e: Option<Envelope>)
    requires WellFormed(p)
    ensures e == Converted(p, key)
    decreases p
  {
    match p
    case Signature(env) =>
      e := Some(env);
    case Reject =>
      e := None;
    case ImplicitMeta(t, subs) =>
      var converted := new MergeTarget(t);
      for k := 0 to |subs|
        invariant ConvertedAll(t, subs[..k], key) == Some(converted.Contents())
      {
        var spe := Convert(subs[k], key);
        if spe.None? {
          NotConvertible(t, subs, k, key);
          return None;
        }
        ConvertedStep(t, subs, k, key);
        converted.Merge(spe.value, key);
      }
      assert subs[..|subs|] == subs;
      e := Some(converted.Contents());
  }

  lemma ConvertedStep(t: int, subs: seq<Policy>, k: nat, key: Principal -> bytes)
    requires k < |subs|
    requires forall j | 0 <= j < |subs| :: WellFormed(subs[j])
    requires ConvertedAll(t, subs[..k], key).Some? && Converted(subs[k], key).Some?
    ensures ConvertedAll(t, subs[..k + 1], key) == Some(Merged(ConvertedAll(t, subs[..k], key).value, Converted(subs[k], key).value, key))
  {
    assert subs[..k + 1][..k] == subs[..k];
  }

  lemma {:induction false} NotConvertible(t: int, subs: seq<Policy>, k: nat, key: Principal -> bytes)
    requires k < |subs|
    requires forall j | 0 <= j < |subs| :: WellFormed(subs[j])
    requires Converted(subs[k], key).None?
    ensures ConvertedAll(t, subs, key).None?
    decreases subs
  {
    if k < |subs| - 1 {
      NotConvertible(t, subs[..|subs| - 1], k, key);
    }
  }

  lemma {:induction false} RemapResolvable(rule: Rule, redirect: seq<nat>, count: nat)
    requires Resolvable(rule, |redirect|)
    requires forall k | 0 <= k < |redirect| :: redirect[k] < count
    ensures Resolvable(Remap(rule, redirect), count)
    decreases rule
  {
    if rule.NOutOf? {
      forall k | 0 <= k < |rule.rules| ensures Resolvable(RemapAll(rule.rules, redirect)[k], count) {
        RemapResolvable(rule.rules[k], redirect, count);
      }
    }
  }

  /** A rule that resolves in a table compiles to the same evaluator in any extension of it. */
  lemma {:induction false} LargerTableSameEvaluator(rule: Rule, small: seq<Principal>, large: seq<Principal>)
    requires small <= large && Resolvable(rule, |small|)
    ensures Resolvable(rule, |large|) && Compile(rule, large) == Compile(rule, small)
    decreases rule
  {
    if rule.NOutOf? {
      forall k | 0 <= k < |rule.rules|
        ensures Resolvable(rule.rules[k], |large|) && Compile(rule.rules[k], large) == Compile(rule.rules[k], small)
      {
        LargerTableSameEvaluator(rule.rules[k], small, large);
      }
      assert CompileAll(rule.rules, large).value == CompileAll(rule.rules, small).value;
    }
  }

  lemma MergeKeepsResolvable(target: Envelope, that: Envelope, key: Principal -> bytes)
    requires target.rule.NOutOf? && Resolvable(target.rule, |target.identities|)
    requires Resolvable(that.rule, |that.identities|)
    ensures Resolvable(Merged(target, that, key).rule, |Merged(target, that, key).identities|)
  {
    var m := Intern(target.identities, that.identities, key);
    InternRepresents(target.identities, that.identities, key);
    RemapResolvable(that.rule, m.redirect, |m.table|);
    forall k | 0 <= k < |target.rule.rules| ensures Resolvable(target.rule.rules[k], |m.table|) {
      LargerTableSameEvaluator(target.rule.rules[k], target.identities, m.table);
    }
  }

  // ---------------------------------------------------------------------------
  // Remapping preserves verdicts and flags
  // ---------------------------------------------------------------------------

  /** The key separates principals that some identity can tell apart. */
  ghost predicate KeyRespects<I(!new)>(key: Principal -> bytes, sat: (I, Principal) -> bool) {
    forall id: I, p, q | key(p) == key(q) :: sat(id, p) == sat(id, q)
  }

  lemma KeySeparatesPrincipals<I(!new)>(sat: (I, Principal) -> bool)
    requires RejectsUnknown(sat)
    ensures KeyRespects(Key, sat)
  {
    forall id: I, p, q | Key(p) == Key(q) ensures sat(id, p) == sat(id, q) {
      KeyClash(p, q);
    }
  }

  /** The same gates over leaves that accept the same identities. */
  ghost predicate SameMeaning<I(!new)>(c: Compiled<Principal>, d: Compiled<Principal>, sat: (I, Principal) -> bool)
    decreases c
  {
    match c
    case Leaf(p) => d.Leaf? && forall id: I :: sat(id, p) == sat(id, d.principal)
    case Gate(n, subs) => d.Gate? && n == d.n && SameMeanings(subs, d.subs, sat)
  }

  ghost predicate SameMeanings<I(!new)>(cs: seq<Compiled<Principal>>, ds: seq<Compiled<Principal>>, sat: (I, Principal) -> bool)
    decreases cs
  {
    |cs| == |ds| && forall k | 0 <= k < |cs| :: SameMeaning(cs[k], ds[k], sat)
  }

  lemma {:induction false} SameMeaningSameRun<I(!new)>(c: Compiled<Principal>, d: Compiled<Principal>, ids: seq<I>, used: seq<bool>,
                                                       sat: (I, Principal) -> bool)
    requires |used| == |ids| && SameMeaning(c, d, sat)
    ensures Eval(c, ids, used, sat) == Eval(d, ids, used, sat)
    decreases c
  {
    match c
    case Leaf(p) =>
      assert FirstUnused(ids, used, p, sat, 0) == FirstUnused(ids, used, d.principal, sat, 0);
    case Gate(_, subs) =>
      SameMeaningsSameRun(subs, d.subs, ids, used, sat);
  }

  lemma {:induction false} SameMeaningsSameRun<I(!new)>(cs: seq<Compiled<Principal>>, ds: seq<Compiled<Principal>>, ids: seq<I>,
                                                        used: seq<bool>, sat: (I, Principal) -> bool)
    requires |used| == |ids| && SameMeanings(cs, ds, sat)
    ensures EvalAll(cs, ids, used, sat) == EvalAll(ds, ids, used, sat)
    decreases cs
  {
    if cs != [] {
      var k := |cs| - 1;
      SameMeaningsSameRun(cs[..k], ds[..k], ids, used, sat);
      SameMeaningSameRun(cs[k], ds[k], ids, EvalAll(cs[..k], ids, used, sat).used, sat);
    }
  }

  lemma {:induction false} SameMeaningSameRelevance<I(!new)>(c: Compiled<Principal>, d: Compiled<Principal>, sat: (I, Principal) -> bool, id: I)
    requires SameMeaning(c, d, sat)
    ensures Relevant(c, id, sat) == Relevant(d, id, sat)
    decreases c
  {
    if c.Gate? {
      forall k | 0 <= k < |c.subs| ensures Relevant(c.subs[k], id, sat) == Relevant(d.subs[k], id, sat) {
        SameMeaningSameRelevance(c.subs[k], d.subs[k], sat, id);
      }
    }
  }

  lemma {:induction false} RemapSameMeaning<I(!new)>(rule: Rule, own: seq<Principal>, table: seq<Principal>, redirect: seq<nat>,
                                                     sat: (I, Principal) -> bool)
    requires |redirect| == |own| && Resolvable(rule, |own|)
    requires forall k | 0 <= k < |own| :: redirect[k] < |table| && forall id: I :: sat(id, table[redirect[k]]) == sat(id, own[k])
    ensures Resolvable(Remap(rule, redirect), |table|)
    ensures SameMeaning(Compile(Remap(rule, redirect), table).value, Compile(rule, own).value, sat)
    decreases rule
  {
    if rule.NOutOf? {
      var rs := RemapAll(rule.rules, redirect);
      forall k | 0 <= k < |rs|
        ensures Resolvable(rs[k], |table|)
        ensures SameMeaning(Compile(rs[k], table).value, Compile(rule.rules[k], own).value, sat)
      {
        RemapSameMeaning(rule.rules[k], own, table, redirect, sat);
      }
    }
  }

  /**
   The rule that `merge` appends, against the merged table, gives the verdict and the flags that the
   original rule gives against its own table, for all identities and all initial flags.
   */
  lemma MergedRuleSameRun<I(!new)>(target: Envelope, that: Envelope, key: Principal -> bytes, ids: seq<I>, used: seq<bool>,
                                   sat: (I, Principal) -> bool)
    requires target.rule.NOutOf? && Resolvable(that.rule, |that.identities|)
    requires |used| == |ids| && KeyRespects(key, sat)
    ensures var m := Merged(target, that, key);
            var rule := m.rule.rules[|m.rule.rules| - 1];
            && Resolvable(rule, |m.identities|)
            && Eval(Compile(rule, m.identities).value, ids, used, sat) == Eval(Compile(that.rule, that.identities).value, ids, used, sat)
  {
    var m := Intern(target.identities, that.identities, key);
    InternRepresents(target.identities, that.identities, key);
    RemapSameMeaning(that.rule, that.identities, m.table, m.redirect, sat);
    SameMeaningSameRun(Compile(Remap(that.rule, m.redirect), m.table).value, Compile(that.rule, that.identities).value, ids, used, sat);
  }

  // ---------------------------------------------------------------------------
  // Convert preserves meaning
  // ---------------------------------------------------------------------------

  /** Entry `k` of a converted meta policy means what sub-policy `k` converts to. */
  lemma {:induction false} EntriesKeepMeaning<I(!new)>(t: int, subs: seq<Policy>, key: Principal -> bytes, sat: (I, Principal) -> bool, k: nat)
    requires forall j | 0 <= j < |subs| :: WellFormed(subs[j])
    requires ConvertedAll(t, subs, key).Some? && KeyRespects(key, sat) && k < |subs|
    ensures Converted(subs[k], key).Some?
    ensures var e := ConvertedAll(t, subs, key).value;
            && Resolvable(e.rule.rules[k], |e.identities|)
            && SameMeaning(Compile(e.rule.rules[k], e.identities).value, NewPolicy(Converted(subs[k], key).value).value, sat)
    decreases subs
  {
    var last := |subs| - 1;
    var target, that := ConvertedAll(t, subs[..last], key).value, Converted(subs[last], key).value;
    var m := Intern(target.identities, that.identities, key);
    InternRepresents(target.identities, that.identities, key);
    if k == last {
      RemapSameMeaning(that.rule, that.identities, m.table, m.redirect, sat);
    } else {
      EntriesKeepMeaning(t, subs[..last], key, sat, k);
      LargerTableSameEvaluator(target.rule.rules[k], target.identities, m.table);
    }
  }

  /** The identity satisfies a principal of some signature policy inside. */
  ghost predicate Touches<I>(p: Policy, id: I, sat: (I, Principal) -> bool)
    decreases p
  {
    match p
    case Signature(e) => NewPolicy(e).Some? && Relevant(NewPolicy(e).value, id, sat)
    case ImplicitMeta(_, subs) => exists k | 0 <= k < |subs| :: Touches(subs[k], id, sat)
    case Reject => false
  }

  /** No identity satisfies principals of two different signature policies. */
  ghost predicate Separate<I>(p: Policy, ids: seq<I>, sat: (I, Principal) -> bool)
    decreases p
  {
    p.ImplicitMeta? ==>
      && (forall i, j, k | 0 <= i < |ids| && 0 <= j < k < |p.subs| ::
            !(Touches(p.subs[j], ids[i], sat) && Touches(p.subs[k], ids[i], sat)))
      && (forall k | 0 <= k < |p.subs| :: Separate(p.subs[k], ids, sat))
  }

  /** Every threshold was picked for one of the three defined rules. */
  ghost predicate ProperThresholds(p: Policy)
    decreases p
  {
    p.ImplicitMeta? ==>
      && (p.threshold >= 1 || (p.threshold == 0 && p.subs == []))
      && (forall k | 0 <= k < |p.subs| :: ProperThresholds(p.subs[k]))
  }

  /** The evaluator of the converted policy. */
  ghost function Evaluator(p: Policy, key: Principal -> bytes): Compiled<Principal>
    requires WellFormed(p) && Converted(p, key).Some?
  {
    NewPolicy(Converted(p, key).value).value
  }

  /** Inside a converted meta policy, sub-policy `k` runs as its own conversion does. */
  lemma EntryRuns<I(!new)>(p: Policy, key: Principal -> bytes, sat: (I, Principal) -> bool, k: nat)
    requires p.ImplicitMeta? && WellFormed(p) && Converted(p, key).Some? && KeyRespects(key, sat) && k < |p.subs|
    ensures Converted(p.subs[k], key).Some?
    ensures Evaluator(p, key).Gate? && Evaluator(p, key).n == p.threshold && |Evaluator(p, key).subs| == |p.subs|
    ensures SameMeaning(Evaluator(p, key).subs[k], Evaluator(p.subs[k], key), sat)
  {
    EntriesKeepMeaning(p.threshold, p.subs, key, sat, k);
    var e := Converted(p, key).value;
    assert Some(Evaluator(p, key).subs[k]) == Compile(e.rule.rules[k], e.identities);
  }

  lemma {:induction false} ConvertedRelevance<I(!new)>(p: Policy, key: Principal -> bytes, sat: (I, Principal) -> bool, id: I)
    requires WellFormed(p) && Converted(p, key).Some? && KeyRespects(key, sat)
    ensures Relevant(Evaluator(p, key), id, sat) <==> Touches(p, id, sat)
    decreases p
  {
    if p.ImplicitMeta? {
      forall k | 0 <= k < |p.subs| ensures Relevant(Evaluator(p, key).subs[k], id, sat) == Touches(p.subs[k], id, sat) {
        EntryRelevance(p, key, sat, k, id);
      }
    }
  }

  lemma {:induction false} EntryRelevance<I(!new)>(p: Policy, key: Principal -> bytes, sat: (I, Principal) -> bool, k: nat, id: I)
    requires p.ImplicitMeta? && WellFormed(p) && Converted(p, key).Some? && KeyRespects(key, sat) && k < |p.subs|
    ensures Relevant(Evaluator(p, key).subs[k], id, sat) <==> Touches(p.subs[k], id, sat)
    decreases p, 0
  {
    EntryRuns(p, key, sat, k);
    SameMeaningSameRelevance(Evaluator(p, key).subs[k], Evaluator(p.subs[k], key), sat, id);
    ConvertedRelevance(p.subs[k], key, sat, id);
  }

  /** The flags of identities that the policy could use are clear. */
  ghost predicate ClearFor<I>(p: Policy, ids: seq<I>, used: seq<bool>, sat: (I, Principal) -> bool)
    requires |used| == |ids|
  {
    forall i | 0 <= i < |ids| && Touches(p, ids[i], sat) :: !used[i]
  }

  ghost predicate Aligned<I(!new)>(p: Policy, key: Principal -> bytes, ids: seq<I>, used: seq<bool>, sat: (I, Principal) -> bool) {
    && WellFormed(p) && Converted(p, key).Some? && KeyRespects(key, sat)
    && ProperThresholds(p) && Separate(p, ids, sat)
    && |used| == |ids| && ClearFor(p, ids, used, sat)
  }

  lemma {:induction false} ConvertedVerdict<I(!new)>(p: Policy, key: Principal -> bytes, ids: seq<I>, used: seq<bool>, sat: (I, Principal) -> bool)
    requires Aligned(p, key, ids, used, sat)
    ensures Eval(Evaluator(p, key), ids, used, sat).ok <==> Accepts(p, ids, sat)
    decreases p, 1
  {
    if p.Signature? {
      var c := Evaluator(p, key);
      DependsOnlyOnRelevant(c, ids, used, Unused(|ids|), sat, set i: nat | i < |ids| && Relevant(c, ids[i], sat));
    } else {
      ConvertedGate(p, key, ids, used, sat);
      ConvertedCount(p, key, ids, used, sat, |p.subs|);
      assert Evaluator(p, key).subs[..|p.subs|] == Evaluator(p, key).subs && p.subs[..|p.subs|] == p.subs;
    }
  }

  lemma EntriesIndependent<I(!new)>(p: Policy, key: Principal -> bytes, ids: seq<I>, used: seq<bool>, sat: (I, Principal) -> bool)
    requires p.ImplicitMeta? && Aligned(p, key, ids, used, sat)
    ensures Evaluator(p, key).Gate? && Evaluator(p, key).n == p.threshold && |Evaluator(p, key).subs| == |p.subs|
    ensures Independent(Evaluator(p, key).subs, ids, sat)
  {
    var cs := Evaluator(p, key).subs;
    forall i, j, k | 0 <= i < |ids| && 0 <= j < k < |cs| ensures !(Relevant(cs[j], ids[i], sat) && Relevant(cs[k], ids[i], sat)) {
      EntryRelevance(p, key, sat, j, ids[i]);
      EntryRelevance(p, key, sat, k, ids[i]);
    }
  }

  /** The converted gate counts its entries as if each ran alone. */
  lemma ConvertedGate<I(!new)>(p: Policy, key: Principal -> bytes, ids: seq<I>, used: seq<bool>, sat: (I, Principal) -> bool)
    requires p.ImplicitMeta? && Aligned(p, key, ids, used, sat)
    ensures Evaluator(p, key).Gate? && |Evaluator(p, key).subs| == |p.subs|
    ensures Eval(Evaluator(p, key), ids, used, sat).ok <==> CountAlone(Evaluator(p, key).subs, ids, used, sat) >= p.threshold
  {
    EntriesIndependent(p, key, ids, used, sat);
    IndependentGate(Evaluator(p, key).subs, ids, used, sat);
  }

  lemma {:induction false} ConvertedCount<I(!new)>(p: Policy, key: Principal -> bytes, ids: seq<I>, used: seq<bool>, sat: (I, Principal) -> bool, n: nat)
    requires p.ImplicitMeta? && Aligned(p, key, ids, used, sat) && n <= |p.subs|
    ensures Evaluator(p, key).Gate? && |Evaluator(p, key).subs| == |p.subs|
    ensures CountAlone(Evaluator(p, key).subs[..n], ids, used, sat) == CountAccepting(p.subs[..n], ids, sat)
    decreases p, 0, n
  {
    if n > 0 {
      ConvertedCount(p, key, ids, used, sat, n - 1);
      EntryVerdict(p, key, ids, used, sat, n - 1);
      var cs := Evaluator(p, key).subs;
      assert cs[..n][..n - 1] == cs[..n - 1] && p.subs[..n][..n - 1] == p.subs[..n - 1];
    }
  }

  lemma {:induction false} EntryVerdict<I(!new)>(p: Policy, key: Principal -> bytes, ids: seq<I>, used: seq<bool>, sat: (I, Principal) -> bool, k: nat)
    requires p.ImplicitMeta? && Aligned(p, key, ids, used, sat) && k < |p.subs|
    ensures Eval(Evaluator(p, key).subs[k], ids, used, sat).ok <==> Accepts(p.subs[k], ids, sat)
    decreases p, 0, 0
  {
    EntryRuns(p, key, sat, k);
    SameMeaningSameRun(Evaluator(p, key).subs[k], Evaluator(p.subs[k], key), ids, used, sat);
    ConvertedVerdict(p.subs[k], key, ids, used, sat);
  }

  /**
   When no identity satisfies principals of two different signature policies, the converted policy
   accepts exactly the identities that the implicit meta policy accepts.
   */
  lemma ConvertPreservesMeaning<I(!new)>(p: Policy, ids: seq<I>, sat: (I, Principal) -> bool)
    requires WellFormed(p) && Converted(p, Key).Some?
    requires RejectsUnknown(sat)
    requires ProperThresholds(p) && Separate(p, ids, sat)
    ensures Accepts(Signature(Converted(p, Key).value), ids, sat) <==> Accepts(p, ids, sat)
  {
    KeySeparatesPrincipals(sat);
    ConvertedVerdict(p, Key, ids, Unused(|ids|), sat);
  }

  // ---------------------------------------------------------------------------
  // One direction without separation
  // ---------------------------------------------------------------------------

  /** In no signature policy inside does an identity match two leaves. */
  ghost predicate PartsUnambiguous<I>(p: Policy, ids: seq<I>, sat: (I, Principal) -> bool)
    decreases p
  {
    match p
    case Signature(e) => NewPolicy(e).Some? ==> Unambiguous(NewPolicy(e).value, ids, sat)
    case ImplicitMeta(_, subs) => forall k | 0 <= k < |subs| :: PartsUnambiguous(subs[k], ids, sat)
    case Reject => true
  }

  ghost predicate Implied<I(!new)>(p: Policy, key: Principal -> bytes, ids: seq<I>, sat: (I, Principal) -> bool) {
    WellFormed(p) && Converted(p, key).Some? && KeyRespects(key, sat) && ProperThresholds(p) && PartsUnambiguous(p, ids, sat)
  }

  /** An unambiguous policy that accepts from some flags accepts from clear ones. */
  lemma AcceptsFromClear<I, P(!new)>(c: Compiled<P>, ids: seq<I>, used: seq<bool>, sat: (I, P) -> bool)
    requires |used| == |ids| && Unambiguous(c, ids, sat) && Eval(c, ids, used, sat).ok
    ensures Eval(c, ids, Unused(|ids|), sat).ok
  {
    var a := EvaluatorSound(c, ids, used, sat);
    EvaluatorComplete(c, ids, Unused(|ids|), sat, a);
  }

  lemma {:induction false} ConvertedImplies<I(!new)>(p: Policy, key: Principal -> bytes, ids: seq<I>, used: seq<bool>, sat: (I, Principal) -> bool)
    requires Implied(p, key, ids, sat) && |used| == |ids| && Eval(Evaluator(p, key), ids, used, sat).ok
    ensures Accepts(p, ids, sat)
    decreases p, 1
  {
    if p.Signature? {
      AcceptsFromClear(Evaluator(p, key), ids, used, sat);
    } else {
      GateImplies(p, key, ids, used, sat, |p.subs|);
      assert Evaluator(p, key).subs[..|p.subs|] == Evaluator(p, key).subs && p.subs[..|p.subs|] == p.subs;
    }
  }

  /** What the converted gate counts, the meta policy counts too. */
  lemma {:induction false} GateImplies<I(!new)>(p: Policy, key: Principal -> bytes, ids: seq<I>, used: seq<bool>, sat: (I, Principal) -> bool, n: nat)
    requires p.ImplicitMeta? && Implied(p, key, ids, sat) && |used| == |ids| && n <= |p.subs|
    ensures Evaluator(p, key).Gate? && Evaluator(p, key).n == p.threshold && |Evaluator(p, key).subs| == |p.subs|
    ensures EvalAll(Evaluator(p, key).subs[..n], ids, used, sat).verified <= CountAccepting(p.subs[..n], ids, sat)
    decreases p, 0, n
  {
    if n > 0 {
      GateImplies(p, key, ids, used, sat, n - 1);
      var cs := Evaluator(p, key).subs;
      assert cs[..n][..n - 1] == cs[..n - 1] && p.subs[..n][..n - 1] == p.subs[..n - 1];
      EntryImplies(p, key, ids, EvalAll(cs[..n - 1], ids, used, sat).used, sat, n - 1);
    }
  }

  lemma {:induction false} EntryImplies<I(!new)>(p: Policy, key: Principal -> bytes, ids: seq<I>, used: seq<bool>, sat: (I, Principal) -> bool, k: nat)
    requires p.ImplicitMeta? && Implied(p, key, ids, sat) && |used| == |ids| && k < |p.subs|
    ensures Evaluator(p, key).Gate? && |Evaluator(p, key).subs| == |p.subs|
    ensures Eval(Evaluator(p, key).subs[k], ids, used, sat).ok ==> Accepts(p.subs[k], ids, sat)
    decreases p, 0, 0
  {
    EntryRuns(p, key, sat, k);
    SameMeaningSameRun(Evaluator(p, key).subs[k], Evaluator(p.subs[k], key), ids, used, sat);
    if Eval(Evaluator(p, key).subs[k], ids, used, sat).ok {
      ConvertedImplies(p.subs[k], key, ids, used, sat);
    }
  }

  /**
   Whoever signs for whichever sub-policies: as long as in no signature policy an identity matches two leaves, what the
   converted policy accepts the implicit meta policy accepts.
   */
  lemma ConvertedAcceptsLess<I(!new)>(p: Policy, ids: seq<I>, sat: (I, Principal) -> bool)
    requires WellFormed(p) && Converted(p, Key).Some?
    requires RejectsUnknown(sat)
    requires ProperThresholds(p) && PartsUnambiguous(p, ids, sat)
    ensures Accepts(Signature(Converted(p, Key).value), ids, sat) ==> Accepts(p, ids, sat)
  {
    KeySeparatesPrincipals(sat);
    if Accepts(Signature(Converted(p, Key).value), ids, sat) {
      ConvertedImplies(p, Key, ids, Unused(|ids|), sat);
    }
  }

  /** The signature policy 2-of(AND(A, B, C), A, B). */
  function TrapEnvelope(a: Principal, b: Principal, c: Principal): Envelope {
    Envelope(0, NOutOf(2, [NOutOf(3, [SignedBy(0), SignedBy(1), SignedBy(2)]), SignedBy(0), SignedBy(1)]), [a, b, c])
  }

  lemma TrapCompiles(a: Principal, b: Principal, c: Principal)
    ensures NewPolicy(TrapEnvelope(a, b, c)) == Some(Trap(a, b, c))
  {
    var ids := [a, b, c];
    var leaves := [SignedBy(0), SignedBy(1), SignedBy(2)];
    assert CompileAll(leaves, ids).value == [Leaf(a), Leaf(b), Leaf(c)];
    assert Compile(NOutOf(3, leaves), ids) == Some(AllThree(a, b, c));
    var rules := [NOutOf(3, leaves), SignedBy(0), SignedBy(1)];
    assert CompileAll(rules, ids).value == [AllThree(a, b, c), Leaf(a), Leaf(b)];
  }

  lemma OneCompiles(c: Principal)
    ensures NewPolicy(Envelope(0, SignedBy(0), [c])) == Some(Leaf(c))
  {
  }

  /** ALL of [C, 2-of(AND(A, B, C), A, B)]. */
  function TrappedMeta(a: Principal, b: Principal, c: Principal): Policy {
    ImplicitMeta(2, [Signature(Envelope(0, SignedBy(0), [c])), Signature(TrapEnvelope(a, b, c))])
  }

  lemma TrappedMetaRejects(a: Principal, b: Principal, c: Principal, sat: (int, Principal) -> bool)
    requires OneEach(a, b, c, sat)
    ensures WellFormed(TrappedMeta(a, b, c)) && !Accepts(TrappedMeta(a, b, c), [0, 1, 2], sat)
  {
    var one, trap := Signature(Envelope(0, SignedBy(0), [c])), Signature(TrapEnvelope(a, b, c));
    OneCompiles(c);
    TrapCompiles(a, b, c);
    TrapRejectsThree(a, b, c, sat);
    assert Unused(3) == [false, false, false];
    assert !Accepts(trap, [0, 1, 2], sat);
    assert CountAccepting([one, trap], [0, 1, 2], sat) <= 1 by {
      assert [one, trap][..1] == [one] && [one][..0] == [];
    }
  }

  lemma LastTaken(c: Principal, sat: (int, Principal) -> bool)
    requires !sat(0, c) && !sat(1, c) && sat(2, c)
    ensures Eval(Leaf(c), [0, 1, 2], [false, false, false], sat) == Outcome(true, [false, false, true])
  {
  }

  lemma {:induction false} BothAccept(x: Compiled<Principal>, y: Compiled<Principal>, ids: seq<int>, used: seq<bool>, after: seq<bool>, sat: (int, Principal) -> bool)
    requires |used| == |ids| == |after| && Eval(x, ids, used, sat) == Outcome(true, after) && Eval(y, ids, after, sat).ok
    ensures Eval(Gate(2, [x, y]), ids, used, sat).ok
  {
    TwoSteps(x, y, ids, used, sat);
  }

  /** The converted policy evaluates C first, and c is then out of the greedy gate's reach. */
  lemma TrappedGateAccepts(x: Compiled<Principal>, y: Compiled<Principal>, a: Principal, b: Principal, c: Principal, sat: (int, Principal) -> bool)
    requires OneEach(a, b, c, sat) && SameMeaning(x, Leaf(c), sat) && SameMeaning(y, Trap(a, b, c), sat)
    ensures Eval(Gate(2, [x, y]), [0, 1, 2], [false, false, false], sat).ok
  {
    LastTaken(c, sat);
    SameMeaningSameRun(x, Leaf(c), [0, 1, 2], [false, false, false], sat);
    TrapAcceptsUsed(a, b, c, sat);
    SameMeaningSameRun(y, Trap(a, b, c), [0, 1, 2], [false, false, true], sat);
    BothAccept(x, y, [0, 1, 2], [false, false, false], [false, false, true], sat);
  }

  /** With an ambiguous sub-policy the converted policy can accept what the implicit meta policy rejects. */
  lemma {:induction false} TrappedMetaDiverges(a: Principal, b: Principal, c: Principal, sat: (int, Principal) -> bool)
    requires OneEach(a, b, c, sat) && RejectsUnknown(sat)
    ensures var p := TrappedMeta(a, b, c);
            && WellFormed(p) && Converted(p, Key).Some?
            && !Accepts(p, [0, 1, 2], sat)
            && Accepts(Signature(Converted(p, Key).value), [0, 1, 2], sat)
  {
    var p := TrappedMeta(a, b, c);
    TrappedMetaRejects(a, b, c, sat);
    ConvertSucceedsIff(p, Key);
    KeySeparatesPrincipals(sat);
    OneCompiles(c);
    TrapCompiles(a, b, c);
    EntryRuns(p, Key, sat, 0);
    EntryRuns(p, Key, sat, 1);
    var gate := Evaluator(p, Key);
    assert gate.subs == [gate.subs[0], gate.subs[1]];
    TrappedGateAccepts(gate.subs[0], gate.subs[1], a, b, c, sat);
    assert Unused(3) == [false, false, false];
  }

  /** The principal of one identity, by its number. */
  function Named(id: byte): Principal {
    Principal(0, [id])
  }

  predicate IsNamed(id: int, q: Principal) {
    q.classification == 0 && |q.content| == 1 && q.content[0] == id
  }

  /** An input on which it does. */
  lemma ConversionAcceptsMore()
    ensures var p := TrappedMeta(Named(0), Named(1), Named(2));
            && Converted(p, Key).Some?
            && !Accepts(p, [0, 1, 2], IsNamed)
            && Accepts(Signature(Converted(p, Key).value), [0, 1, 2], IsNamed)
  {
    TrappedMetaDiverges(Named(0), Named(1), Named(2), IsNamed);
  }

  lemma InternOne(q: Principal, key: Principal -> bytes)
    ensures Intern([], [q], key) == Interned([q], map[key(q) := 0], [0])
    ensures Intern([q], [q], key) == Interned([q], map[key(q) := 0], [0])
  {
    assert [q][..0] == [];
  }

  lemma MergeTwin(q: Principal, key: Principal -> bytes)
    ensures var e := Envelope(0, SignedBy(0), [q]);
            && Merged(Envelope(0, NOutOf(2, []), []), e, key) == Envelope(0, NOutOf(2, [SignedBy(0)]), [q])
            && Merged(Envelope(0, NOutOf(2, [SignedBy(0)]), [q]), e, key) == Envelope(0, NOutOf(2, [SignedBy(0), SignedBy(0)]), [q])
  {
    InternOne(q, key);
    assert Remap(SignedBy(0), [0]) == SignedBy(0);
    assert [] + [SignedBy(0)] == [SignedBy(0)] && [SignedBy(0)] + [SignedBy(0)] == [SignedBy(0), SignedBy(0)];
  }

  /** Two equal one-signature policies share one table entry. */
  lemma ConvertedTwin(q: Principal, key: Principal -> bytes)
    ensures var sub := Signature(Envelope(0, SignedBy(0), [q]));
            ConvertedAll(2, [sub, sub], key) == Some(Envelope(0, NOutOf(2, [SignedBy(0), SignedBy(0)]), [q]))
  {
    var sub := Signature(Envelope(0, SignedBy(0), [q]));
    MergeTwin(q, key);
    assert ConvertedAll(2, [sub], key) == Some(Envelope(0, NOutOf(2, [SignedBy(0)]), [q])) by {
      assert [sub][..0] == [];
    }
    assert [sub, sub][..1] == [sub];
  }

  lemma {:induction false} TwinCompiles(q: Principal)
    ensures NewPolicy(Envelope(0, NOutOf(2, [SignedBy(0), SignedBy(0)]), [q])) == Some(Gate(2, [Leaf(q), Leaf(q)]))
  {
    assert CompileAll([SignedBy(0), SignedBy(0)], [q]).value == [Leaf(q), Leaf(q)];
  }

  lemma {:induction false} TwinRuns(q: Principal, sat: (int, Principal) -> bool)
    requires sat(7, q)
    ensures EvalAll([Leaf(q), Leaf(q)], [7], [false], sat) == Tally(1, [true])
  {
    TwoSteps(Leaf(q), Leaf(q), [7], [false], sat);
    assert Eval(Leaf(q), [7], [true], sat) == Outcome(false, [true]);
  }

  lemma {:induction false} TwinEvaluation(q: Principal, sat: (int, Principal) -> bool)
    requires sat(7, q)
    ensures !Accepts(Signature(Envelope(0, NOutOf(2, [SignedBy(0), SignedBy(0)]), [q])), [7], sat)
  {
    TwinCompiles(q);
    TwinRuns(q, sat);
    assert Unused(1) == [false];
  }

  /**
   One identity that satisfies both sub-policies of ALL is counted twice by the meta policy and once by
   its conversion, so the separation is needed for acceptance to be kept.
   */
  lemma SharedIdentityDiverges(q: Principal, sat: (int, Principal) -> bool)
    requires sat(7, q)
    ensures var sub := Signature(Envelope(0, SignedBy(0), [q]));
            var all := ImplicitMeta(2, [sub, sub]);
            && Accepts(all, [7], sat)
            && Converted(all, Key).Some?
            && !Accepts(Signature(Converted(all, Key).value), [7], sat)
  {
    var sub := Signature(Envelope(0, SignedBy(0), [q]));
    assert Accepts(sub, [7], sat);
    assert CountAccepting([sub, sub], [7], sat) == 2 by {
      assert [sub, sub][..1] == [sub] && [sub][..0] == [];
    }
    ConvertedTwin(q, Key);
    TwinEvaluation(q, sat);
  }

  /** No reject-all placeholder occurs inside. */
  predicate Convertible(p: Policy)
    decreases p
  {
    match p
    case Signature(_) => true
    case ImplicitMeta(_, subs) => forall k | 0 <= k < |subs| :: Convertible(subs[k])
    case Reject => false
  }

  lemma {:induction false} ConvertSucceedsIff(p: Policy, key: Principal -> bytes)
    requires WellFormed(p)
    ensures Converted(p, key).Some? <==> Convertible(p)
    decreases p
  {
    if p.ImplicitMeta? {
      forall k | 0 <= k < |p.subs| ensures Converted(p.subs[k], key).Some? <==> Convertible(p.subs[k]) {
        ConvertSucceedsIff(p.subs[k], key);
      }
      if Convertible(p) {
        AllConvert(p.threshold, p.subs, key);
      } else {
        var k :| 0 <= k < |p.subs| && !Convertible(p.subs[k]);
        NotConvertible(p.threshold, p.subs, k, key);
      }
    }
  }

  lemma {:induction false} AllConvert(t: int, subs: seq<Policy>, key: Principal -> bytes)
    requires forall k | 0 <= k < |subs| :: WellFormed(subs[k]) && Converted(subs[k], key).Some?
    ensures ConvertedAll(t, subs, key).Some?
    decreases subs
  {
    if subs != [] {
      AllConvert(t, subs[..|subs| - 1], key);
    }
  }
}
