/**
 What the policies of a configuration tree mean, said of the tree alone, and that the policy manager built for the tree
 decides exactly that (common/policies/policy.go and implicitmeta.go, common/configtx/update.go).
 */
module PolicyMeaning {
  import opened ConfigMaps
  import opened ConfigTree
  import opened ConfigUpdates
  import opened ModificationPolicies
  import opened Paths
  import opened PolicyConversion
  import opened Wrappers
  import PolicyManager

  // ---------------------------------------------------------------------------
  // The rules
  // ---------------------------------------------------------------------------

  /** Some, all, or more than half of the sub-groups; a group without sub-groups asks for nothing. */
  ghost predicate RuleMet(rule: MetaRule, good: set<string>, all: set<string>) {
    || all == {}
    || match rule
       case ANY => good != {}
       case ALL => good == all
       case MAJORITY => 2 * |good| > |all|
       case Other => good == {}
  }

  /** The threshold and its count-down decide exactly the rule. */
  lemma RuleMetIff(rule: MetaRule, good: set<string>, all: set<string>)
    requires good <= all
    ensures MetaVerdict(Threshold(rule, |all|), |good|) <==> RuleMet(rule, good, all)
  {
    assert all == good + (all - good) && |all| == |good| + |all - good|;
    if |good| == |all| {
      assert all - good == {};
    }
  }

  // ---------------------------------------------------------------------------
  // Policies of a tree
  // ---------------------------------------------------------------------------

  /** Where a sub-policy name points below a sub-group with the path. */
  ghost function PointsTo(path: string, subPolicy: string): Option<seq<string>> {
    if subPolicy == "" then None
    else if subPolicy[0] != SEPARATOR then Some(Split(subPolicy))
    else if [SEPARATOR] + path <= subPolicy && |subPolicy| > 1 + |path| then Some(Split(subPolicy[2 + |path|..]))
    else None
  }

  /** The signatures satisfy the policy at a place of the tree. */
  ghost predicate Holds<P, S>(pr: PolicyManager.Providers<P>, path: string, g: Group, rel: seq<string>, signed: S, check: (P, S) -> bool)
    decreases g, 2
  {
    && rel != []
    && if |rel| > 1 then rel[0] in g.groups && Holds(pr, path + [SEPARATOR] + rel[0], g.groups[rel[0]], rel[1..], signed, check)
       else rel[0] in g.policies && HoldsHere(pr, path, g, g.policies[rel[0]], signed, check)
  }

  /**
   An ordinary policy is satisfied when the one its provider builds is; an implicit meta policy when its rule is met by
   the sub-groups in which the policy that its sub-policy name points to is satisfied.
   */
  ghost predicate HoldsHere<P, S>(pr: PolicyManager.Providers<P>, path: string, g: Group, p: ConfigTree.Policy, signed: S, check: (P, S) -> bool)
    decreases g, 1
  {
    && p.content.Some?
    && if p.policyType != 3 then
         && p.policyType in pr.types && pr.newPolicy(p.policyType, p.content.value).Some?
         && check(pr.newPolicy(p.policyType, p.content.value).value, signed)
       else
         && pr.definition(p.content.value).Some?
         && var d := pr.definition(p.content.value).value;
            var good := set name | name in g.groups && HoldsBelow(pr, path, g, name, d.subPolicy, signed, check);
            RuleMet(d.rule, good, g.groups.Keys)
  }

  /** The policy that a sub-policy name points to below a sub-group is satisfied. */
  ghost predicate HoldsBelow<P, S>(pr: PolicyManager.Providers<P>, path: string, g: Group, group: string, subPolicy: string, signed: S, check: (P, S) -> bool)
    requires group in g.groups
    decreases g, 0
  {
    var to := PointsTo(path + [SEPARATOR] + group, subPolicy);
    to.Some? && Holds(pr, path + [SEPARATOR] + group, g.groups[group], to.value, signed, check)
  }

  /** An ordinary policy of the group is looked up and evaluated as its provider built it. */
  lemma ProvidedMeans<P, S>(m: PolicyManager.Manager<P>, pr: PolicyManager.Providers<P>, path: string, g: Group, name: string,
                            signed: S, check: (P, S) -> bool)
    requires PolicyManager.Mirrors(m, pr, path, g) && PolicyManager.PlainNames(g) && PolicyManager.Buildable(pr, path, g)
    requires Plain(name) && name in g.policies && g.policies[name].policyType != 3
    ensures FoundSatisfied(PolicyManager.Indexed(m, name), signed, check) <==> HoldsHere(pr, path, g, g.policies[name], signed, check)
  {
    OwnEntry(m, pr, path, g, name);
    assert PolicyManager.Compiles(pr, path, g.groups.Keys, g.policies[name]);
  }

  /** The entry of the manager's own index that a sub-policy name stands for is the one where it points. */
  lemma SubEntryPoints<P>(m: PolicyManager.Manager<P>, path: string, group: string, subPolicy: string)
    ensures var to := PointsTo(path + [SEPARATOR] + group, subPolicy);
            && (to.None? ==> SubEntry(m, path, group, subPolicy) == PolicyManager.Missing)
            && (to.Some? ==> AllPlain(to.value) && to.value != [] && SubEntry(m, path, group, subPolicy) == PolicyManager.Indexed(m, PolicyManager.Key(group, Join(to.value))))
  {
    var sub := path + [SEPARATOR] + group;
    assert PolicyManager.Key(path, group) == sub;
    if PointsTo(sub, subPolicy).Some? {
      var name := if subPolicy[0] != SEPARATOR then subPolicy else subPolicy[2 + |sub|..];
      JoinSplit(name);
      SplitPlain(name);
    }
  }

  /** What a meta policy asks of one sub-group. */
  lemma {:induction false} SubPolicyMeans<P, S>(m: PolicyManager.Manager<P>, pr: PolicyManager.Providers<P>, path: string, g: Group, group: string,
                                                subPolicy: string, signed: S, check: (P, S) -> bool)
    requires PolicyManager.Mirrors(m, pr, path, g) && PolicyManager.PlainNames(g) && PolicyManager.Buildable(pr, path, g) && group in g.groups
    ensures FoundSatisfied(SubEntry(m, path, group, subPolicy), signed, check) <==> HoldsBelow(pr, path, g, group, subPolicy, signed, check)
    decreases g, 1
  {
    SubEntryPoints(m, path, group, subPolicy);
    var to := PointsTo(path + [SEPARATOR] + group, subPolicy);
    if to.Some? {
      BelowMeans(m, pr, path, g, group, to.value, signed, check);
    }
  }

  /** A place in a sub-group is one of the sub-manager. */
  lemma {:induction false} BelowMeans<P, S>(m: PolicyManager.Manager<P>, pr: PolicyManager.Providers<P>, path: string, g: Group, group: string,
                                            rel: seq<string>, signed: S, check: (P, S) -> bool)
    requires PolicyManager.Mirrors(m, pr, path, g) && PolicyManager.PlainNames(g) && PolicyManager.Buildable(pr, path, g) && group in g.groups
    requires AllPlain(rel) && rel != []
    ensures FoundSatisfied(PolicyManager.Indexed(m, PolicyManager.Key(group, Join(rel))), signed, check)
       <==> Holds(pr, path + [SEPARATOR] + group, g.groups[group], rel, signed, check)
    decreases g, 0
  {
    PolicyManager.EntryBelow(m, pr, path, g, group, Join(rel));
    PolicyMeans(m.managers[group], pr, path + [SEPARATOR] + group, g.groups[group], rel, signed, check);
  }

  lemma {:induction false} MetaMeans<P, S>(m: PolicyManager.Manager<P>, pr: PolicyManager.Providers<P>, path: string, g: Group, name: string,
                                           signed: S, check: (P, S) -> bool)
    requires PolicyManager.Mirrors(m, pr, path, g) && PolicyManager.PlainNames(g) && PolicyManager.Buildable(pr, path, g)
    requires Plain(name) && name in g.policies && g.policies[name].policyType == 3
    ensures FoundSatisfied(PolicyManager.Indexed(m, name), signed, check) <==> HoldsHere(pr, path, g, g.policies[name], signed, check)
    decreases g, 2
  {
    assert PolicyManager.Compiles(pr, path, g.groups.Keys, g.policies[name]);
    var d := pr.definition(g.policies[name].content.value).value;
    ImplicitMetaCounts(m, pr, path, g, name, signed, check);
    var good := set group | group in g.groups && FoundSatisfied(SubEntry(m, path, group, d.subPolicy), signed, check);
    assert good == set group | group in g.groups && HoldsBelow(pr, path, g, group, d.subPolicy, signed, check) by {
      forall group | group in g.groups
        ensures FoundSatisfied(SubEntry(m, path, group, d.subPolicy), signed, check) <==> HoldsBelow(pr, path, g, group, d.subPolicy, signed, check)
      {
        SubPolicyMeans(m, pr, path, g, group, d.subPolicy, signed, check);
      }
    }
    assert |g.groups| == |g.groups.Keys|;
    RuleMetIff(d.rule, good, g.groups.Keys);
  }

  /** The manager's index finds, at every place, a policy that is satisfied exactly when the policy of the tree at that place is. */
  lemma {:induction false} PolicyMeans<P, S>(m: PolicyManager.Manager<P>, pr: PolicyManager.Providers<P>, path: string, g: Group, rel: seq<string>,
                                             signed: S, check: (P, S) -> bool)
    requires PolicyManager.Mirrors(m, pr, path, g) && PolicyManager.PlainNames(g) && PolicyManager.Buildable(pr, path, g)
    requires AllPlain(rel) && rel != []
    ensures FoundSatisfied(PolicyManager.Indexed(m, Join(rel)), signed, check) <==> Holds(pr, path, g, rel, signed, check)
    decreases g, 3
  {
    if |rel| > 1 {
      PolicyManager.EntryBelow(m, pr, path, g, rel[0], Join(rel[1..]));
      if rel[0] in g.groups {
        BelowMeans(m, pr, path, g, rel[0], rel[1..], signed, check);
      }
    } else {
      assert Join(rel) == rel[0];
      OwnEntry(m, pr, path, g, rel[0]);
      if rel[0] in g.policies {
        if g.policies[rel[0]].policyType == 3 {
          MetaMeans(m, pr, path, g, rel[0], signed, check);
        } else {
          ProvidedMeans(m, pr, path, g, rel[0], signed, check);
        }
      }
    }
  }

  // ---------------------------------------------------------------------------
  // Configuration updates
  // ---------------------------------------------------------------------------

  /** The policy check of an update on an existing element is the satisfaction of the policy of the tree that guards it. */
  lemma AuthorizedIff<P, S>(m: PolicyManager.Manager<P>, pr: PolicyManager.Providers<P>, g: Group, item: Comparable, signed: S, check: (P, S) -> bool)
    requires PolicyManager.Mirrors(m, pr, m.path, g) && PolicyManager.PlainNames(g) && PolicyManager.Buildable(pr, m.path, g)
    requires AllPlain(item.path) && Plain(item.key)
    ensures Authorized(m, item, signed, check) <==>
      GuardPath(m.path, item).Some? && Holds(pr, m.path, g, GuardPath(m.path, item).value, signed, check)
  {
    ItemPolicyIndexed(m, pr, g, item);
    GuardPathPlain(m.path, item);
    if GuardPath(m.path, item).Some? {
      PolicyMeans(m, pr, m.path, g, GuardPath(m.path, item).value, signed, check);
    }
  }

  /** An accepted update carries, for each existing element it writes, signatures that satisfy the policy of the old tree that guards it. */
  lemma WrittenIsGuarded<P, S(!new)>(v: Validator<S>, m: PolicyManager.Manager<P>, pr: PolicyManager.Providers<P>, check: (P, S) -> bool,
                                     g: Group, env: UpdateEnvelope<S>, rel: seq<string>, kind: Kind)
    requires Built(v, g) && AuthorizeUpdate(v, env).Some? && PolicyManager.Mirrors(m, pr, v.namespace, g) && PolicyManager.Buildable(pr, v.namespace, g)
    requires forall item, signed :: v.authorizes(item, signed) == Authorized(m, item, signed, check)
    requires Lookup(g, rel, kind).Some? && Fq(kind, Location(v, rel)) in Changes(v, env)
    ensures var at := GuardPath(v.namespace, Place(Location(v, rel), Lookup(g, rel, kind).value));
            at.Some? && Holds(pr, v.namespace, g, at.value, env.signed.value, check)
  {
    var item := Place(Location(v, rel), Lookup(g, rel, kind).value);
    NamesPlainHere(v, g, rel, kind);
    OldEntry(v, g, rel, kind);
    ChangeChecked(v, env, Fq(kind, Location(v, rel)));
    PolicyManager.ValidNamesArePlain(g);
    AuthorizedIff(m, pr, g, item, env.signed.value, check);
  }

  // ---------------------------------------------------------------------------
  // Construction
  // ---------------------------------------------------------------------------

  /**
   An ordinary policy has a type with a provider that builds it; an implicit meta policy decodes, and its sub-policy name
   is not the path of a sub-group.
   */
  ghost predicate PolicyOk<P>(pr: PolicyManager.Providers<P>, path: string, g: Group, p: ConfigTree.Policy) {
    && p.content.Some?
    && (p.policyType != 3 ==> p.policyType in pr.types && pr.newPolicy(p.policyType, p.content.value).Some?)
    && (p.policyType == 3 ==>
          && pr.definition(p.content.value).Some?
          && forall name | name in g.groups :: pr.definition(p.content.value).value.subPolicy != [SEPARATOR] + (path + [SEPARATOR] + name))
  }

  ghost predicate PoliciesOk<P>(pr: PolicyManager.Providers<P>, path: string, g: Group)
    decreases g
  {
    && (forall name | name in g.policies :: PolicyOk(pr, path, g, g.policies[name]))
    && (forall name | name in g.groups :: PoliciesOk(pr, path + [SEPARATOR] + name, g.groups[name]))
  }

  /** A manager can be built exactly for a tree whose policies are all of this kind, unless a provider claims implicit meta policies. */
  lemma {:induction false} BuiltIff<P>(pr: PolicyManager.Providers<P>, path: string, g: Group)
    ensures PolicyManager.Buildable(pr, path, g) <==> 3 !in pr.types && PoliciesOk(pr, path, g)
    decreases g
  {
    forall name | name in g.groups
      ensures PolicyManager.Buildable(pr, path + [SEPARATOR] + name, g.groups[name]) <==>
              3 !in pr.types && PoliciesOk(pr, path + [SEPARATOR] + name, g.groups[name])
    {
      BuiltIff(pr, path + [SEPARATOR] + name, g.groups[name]);
    }
    forall name | name in g.policies
      ensures PolicyManager.Compiles(pr, path, g.groups.Keys, g.policies[name]) <==> PolicyOk(pr, path, g, g.policies[name])
    {
    }
  }
}
