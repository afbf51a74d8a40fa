/**
 Which policy guards a configuration element: `policyForItem` (common/configtx/update.go) on the manager
 that mirrors the configuration tree, and what an implicit meta policy found there asks for.
 */
module ModificationPolicies {
  import opened ConfigMaps
  import opened ConfigTree
  import opened ConfigUpdates
  import opened Paths
  import opened PolicyManager
  import opened Words
  import opened Wrappers
  import PolicyConversion

  // ---------------------------------------------------------------------------
  // The manager against the configuration tree
  // ---------------------------------------------------------------------------

  lemma LookupFirst(g: Group, rel: seq<string>, kind: Kind)
    requires rel != [] && (|rel| > 1 || kind == GROUP)
    ensures Lookup(g, rel, kind) == if rel[0] in g.groups then Lookup(g.groups[rel[0]], rel[1..], kind) else None
  {
    assert rel == [rel[0]] + rel[1..];
    if rel[0] in g.groups {
      LookupBelow(g, rel[0], rel[1..], kind);
    } else if |rel| > 1 && Lookup(g, rel, kind).Some? {
      FirstStepExists(g, rel, kind);
    } else {
      LookupMember(g, rel[0], kind);
    }
  }

  lemma PathBelow(path: string, rel: seq<string>)
    requires rel != []
    ensures Key(path, rel[0]) + Slashed(rel[1..]) == path + Slashed(rel)
  {
    assert path + ([SEPARATOR] + rel[0]) + Slashed(rel[1..]) == path + ([SEPARATOR] + rel[0] + Slashed(rel[1..]));
    assert path + [SEPARATOR] + rel[0] == path + ([SEPARATOR] + rel[0]);
  }

  /** There is a manager exactly where there is a group, and it mirrors that group. */
  lemma {:induction false} ManagerPerGroup<P>(m: Manager<P>, pr: Providers<P>, path: string, g: Group, rel: seq<string>)
    requires Mirrors(m, pr, path, g) && PlainNames(g)
    ensures SubManager(m, rel).Some? <==> Lookup(g, rel, GROUP).Some?
    ensures SubManager(m, rel).Some? ==>
      var h := Lookup(g, rel, GROUP).value.group;
      Mirrors(SubManager(m, rel).value, pr, path + Slashed(rel), h) && PlainNames(h)
    decreases |rel|
  {
    if rel == [] {
      assert path + Slashed(rel) == path;
    } else {
      LookupFirst(g, rel, GROUP);
      if rel[0] in g.groups {
        ManagerPerGroup(m.managers[rel[0]], pr, Key(path, rel[0]), g.groups[rel[0]], rel[1..]);
        PathBelow(path, rel);
      }
    }
  }

  /** A group's own policy stands in the index under its name. */
  lemma OwnEntry<P>(m: Manager<P>, pr: Providers<P>, path: string, g: Group, name: string)
    requires Mirrors(m, pr, path, g) && PlainNames(g) && Plain(name)
    ensures Indexed(m, name) == if name in g.policies then Found(Build(pr, m.managers, g.policies[name])) else Missing
  {
    if name in m.policies {
      InheritedNotPlain(m.managers, name, m.policies[name]);
    }
  }

  /** The policy that the configuration tree holds at a path, as its manager built it. */
  function TreePolicy<P>(m: Manager<P>, pr: Providers<P>, g: Group, rel: seq<string>): Found<P>
    requires rel != []
  {
    var sub, p := SubManager(m, rel[..|rel| - 1]), Lookup(g, rel, POLICY);
    if sub.None? || p.None? then Missing else Found(Build(pr, sub.value.managers, p.value.policy))
  }

  lemma WalkIsTreePolicy<P>(m: Manager<P>, pr: Providers<P>, path: string, g: Group, rel: seq<string>)
    requires Mirrors(m, pr, path, g) && PlainNames(g) && AllPlain(rel) && rel != []
    ensures Walk(m, rel) == TreePolicy(m, pr, g, rel)
  {
    var init, name := rel[..|rel| - 1], rel[|rel| - 1];
    ManagerPerGroup(m, pr, path, g, init);
    if SubManager(m, init).Some? {
      var h := Lookup(g, init, GROUP).value.group;
      assert Lookup(g, rel, POLICY) == Member(h, name, POLICY);
      OwnEntry(SubManager(m, init).value, pr, path + Slashed(init), h, name);
    }
  }

  /** What the index finds at a path is the policy that the configuration tree holds there, and it finds every one. */
  lemma PolicyFromTree<P>(m: Manager<P>, pr: Providers<P>, path: string, g: Group, rel: seq<string>)
    requires Mirrors(m, pr, path, g) && PlainNames(g) && AllPlain(rel) && rel != []
    ensures Indexed(m, Join(rel)) == TreePolicy(m, pr, g, rel)
    ensures Indexed(m, Join(rel)).Found? <==> Lookup(g, rel, POLICY).Some?
  {
    IndexIsWalk(m, pr, path, g, rel);
    WalkIsTreePolicy(m, pr, path, g, rel);
    ManagerPerGroup(m, pr, path, g, rel[..|rel| - 1]);
  }

  // ---------------------------------------------------------------------------
  // policyForItem
  // ---------------------------------------------------------------------------

  /** `policyForItem`. */
  function PolicyForItem<P>(m: Manager<P>, item: Comparable): Found<P> {
    var modPolicy := ModPolicy(item.element);
    if modPolicy != "" && modPolicy[0] != SEPARATOR && item.path != [] then
      var manager := SubManager(m, item.path[1..]);
      if manager.None? then Missing
      else if item.element.GroupElement? then
        var own := SubManager(manager.value, [item.key]);
        if own.None? then Missing else GetPolicy(own.value, modPolicy)
      else GetPolicy(manager.value, modPolicy)
    else GetPolicy(m, modPolicy)
  }

  /** The group in whose context an element's relative policy is read: itself, or the group it belongs to. */
  function Context(item: Comparable): seq<string> {
    if item.path == [] then []
    else item.path[1..] + if item.element.GroupElement? then [item.key] else []
  }

  lemma {:induction false} SplitPlain(s: string)
    ensures AllPlain(Split(s))
  {
    if s != "" {
      SplitPlain(s[1..]);
    }
  }

  lemma Regroup(a: string, b: string, c: string)
    ensures a + b + c == a + (b + c)
  {
  }

  /** Joining the parts gives the string back. */
  lemma {:induction false} SplitSlashed(s: string)
    ensures Slashed(Split(s)) == [SEPARATOR] + s
  {
    if s == "" {
      assert [""][1..] == [];
    } else {
      SplitSlashed(s[1..]);
      var rest := Split(s[1..]);
      assert s == [s[0]] + s[1..];
      if s[0] == SEPARATOR {
        assert Split(s)[1..] == rest;
      } else {
        assert Split(s)[1..] == rest[1..];
        Regroup([SEPARATOR], rest[0], Slashed(rest[1..]));
        assert rest[0] + Slashed(rest[1..]) == ([SEPARATOR] + s[1..])[1..] == s[1..];
        Regroup([SEPARATOR], [s[0]] + rest[0], Slashed(rest[1..]));
        Regroup([s[0]], rest[0], Slashed(rest[1..]));
      }
    }
  }

  lemma JoinSplit(s: string)
    ensures Join(Split(s)) == s
  {
    SplitSlashed(s);
    SlashedIsJoin(Split(s));
    assert Join(Split(s)) == ([SEPARATOR] + Join(Split(s)))[1..] == ([SEPARATOR] + s)[1..] == s;
  }

  lemma {:induction false} SubManagerAppend<P>(m: Manager<P>, p: seq<string>, q: seq<string>)
    ensures SubManager(m, p + q) == if SubManager(m, p).Some? then SubManager(SubManager(m, p).value, q) else None
    decreases |p|
  {
    if p == [] {
      assert p + q == q;
    } else {
      assert (p + q)[0] == p[0] && (p + q)[1..] == p[1..] + q;
      if p[0] in m.managers {
        SubManagerAppend(m.managers[p[0]], p[1..], q);
      }
    }
  }

  lemma WalkAppend<P>(m: Manager<P>, p: seq<string>, q: seq<string>)
    requires q != []
    ensures Walk(m, p + q) == if SubManager(m, p).Some? then Walk(SubManager(m, p).value, q) else Missing
  {
    assert (p + q)[..|p + q| - 1] == p + q[..|q| - 1];
    SubManagerAppend(m, p, q[..|q| - 1]);
  }

  /** `policyForItem` of a relative policy asks the manager of the element's context. */
  lemma ItemAsksContext<P>(m: Manager<P>, item: Comparable)
    requires ModPolicy(item.element) != "" && ModPolicy(item.element)[0] != SEPARATOR
    ensures PolicyForItem(m, item) ==
      if SubManager(m, Context(item)).Some? then Indexed(SubManager(m, Context(item)).value, ModPolicy(item.element)) else Missing
  {
    if item.path != [] {
      if item.element.GroupElement? {
        SubManagerAppend(m, item.path[1..], [item.key]);
      } else {
        assert item.path[1..] + [] == item.path[1..];
      }
    }
  }

  /** An identifier below the manager's path. */
  function Absolute<P>(m: Manager<P>, context: seq<string>, modPolicy: string): string {
    [SEPARATOR] + m.path + Slashed(context) + [SEPARATOR] + modPolicy
  }

  lemma AbsoluteIndexed<P>(m: Manager<P>, context: seq<string>, modPolicy: string)
    ensures GetPolicy(m, Absolute(m, context, modPolicy)) == Indexed(m, Join(context + Split(modPolicy)))
  {
    var rel := context + Split(modPolicy);
    SplitSlashed(modPolicy);
    SlashedAppend(context, Split(modPolicy));
    SlashedIsJoin(rel);
    PrefixStripped(m, Join(rel));
    AbsoluteRegroup([SEPARATOR] + m.path, Slashed(context), modPolicy, Join(rel));
  }

  lemma AbsoluteRegroup(prefix: string, context: string, modPolicy: string, joined: string)
    requires context + ([SEPARATOR] + modPolicy) == [SEPARATOR] + joined
    ensures prefix + context + [SEPARATOR] + modPolicy == prefix + [SEPARATOR] + joined
  {
    assert prefix + context + [SEPARATOR] + modPolicy == prefix + (context + ([SEPARATOR] + modPolicy));
    assert prefix + [SEPARATOR] + joined == prefix + ([SEPARATOR] + joined);
  }

  lemma PrefixStripped<P>(m: Manager<P>, relpath: string)
    ensures GetPolicy(m, [SEPARATOR] + m.path + [SEPARATOR] + relpath) == Indexed(m, relpath)
  {
    var id := [SEPARATOR] + m.path + [SEPARATOR] + relpath;
    assert id[1 + |m.path| + 1..] == relpath;
  }

  /** A relative modification policy resolves exactly as the absolute path through the element's context does at the root. */
  lemma RelativeIsAbsolute<P>(m: Manager<P>, pr: Providers<P>, g: Group, item: Comparable)
    requires Mirrors(m, pr, m.path, g) && PlainNames(g) && AllPlain(item.path) && Plain(item.key)
    requires ModPolicy(item.element) != "" && ModPolicy(item.element)[0] != SEPARATOR
    ensures PolicyForItem(m, item) == GetPolicy(m, Absolute(m, Context(item), ModPolicy(item.element)))
  {
    var context, modPolicy := Context(item), ModPolicy(item.element);
    ItemAsksContext(m, item);
    AbsoluteIndexed(m, context, modPolicy);
    JoinSplit(modPolicy);
    PolicyPathPlain(item);
    SplitPlain(modPolicy);
    IndexedBelow(m, pr, m.path, g, context, Split(modPolicy));
  }

  /** The index at a path of two parts is the index of the manager that the first part leads to. */
  lemma IndexedBelow<P>(m: Manager<P>, pr: Providers<P>, path: string, g: Group, context: seq<string>, parts: seq<string>)
    requires Mirrors(m, pr, path, g) && PlainNames(g) && AllPlain(context + parts) && AllPlain(parts) && parts != []
    ensures Indexed(m, Join(context + parts)) ==
      if SubManager(m, context).Some? then Indexed(SubManager(m, context).value, Join(parts)) else Missing
  {
    IndexIsWalk(m, pr, path, g, context + parts);
    WalkAppend(m, context, parts);
    ManagerPerGroup(m, pr, path, g, context);
    if SubManager(m, context).Some? {
      IndexIsWalk(SubManager(m, context).value, pr, path + Slashed(context), Lookup(g, context, GROUP).value.group, parts);
    }
  }

  // ---------------------------------------------------------------------------
  // What the policies ask for
  // ---------------------------------------------------------------------------

  /** `EvaluateSignedData` of a policy of the manager; `check` evaluates the providers' policies. */
  predicate Satisfied<P, S>(p: PolicyManager.Policy<P>, signed: S, check: (P, S) -> bool)
    decreases p
  {
    match p
    case Provided(q) => check(q, signed)
    case Implicit(threshold, subs) => PolicyConversion.MetaVerdict(threshold, |set name | name in subs && Satisfied(subs[name], signed, check)|)
    case RejectAll => false
  }

  predicate FoundSatisfied<P, S>(f: Found<P>, signed: S, check: (P, S) -> bool) {
    f.Found? && Satisfied(f.policy, signed, check)
  }

  /**
   The entry of the manager's own index that a sub-policy name stands for below one of its groups: a relative name
   below the group, an absolute one below the group's path.
   */
  function SubEntry<P>(m: Manager<P>, path: string, group: string, subPolicy: string): Found<P> {
    var prefix := [SEPARATOR] + Key(path, group);
    if subPolicy == "" then Missing
    else if subPolicy[0] != SEPARATOR then Indexed(m, Key(group, subPolicy))
    else if prefix <= subPolicy && |subPolicy| > |prefix| then Indexed(m, Key(group, subPolicy[|prefix| + 1..]))
    else Missing
  }

  /** What an implicit meta policy takes from a sub-manager is an entry of the same manager. */
  lemma GatheredIsIndexed<P, S>(m: Manager<P>, pr: Providers<P>, path: string, g: Group, group: string, subPolicy: string,
                                signed: S, check: (P, S) -> bool)
    requires Mirrors(m, pr, path, g) && PlainNames(g) && group in g.groups
    requires subPolicy != [SEPARATOR] + Key(path, group)
    ensures Satisfied(Gathered(m.managers[group], subPolicy), signed, check)
       <==> FoundSatisfied(SubEntry(m, path, group, subPolicy), signed, check)
  {
    SubPath(m, pr, path, g, group);
    var name := Below(m.managers[group], subPolicy);
    if name.Some? {
      EntryBelow(m, pr, path, g, group, name.value);
    }
    SubEntryGathered(m, m.managers[group], path, group, subPolicy, signed, check);
  }

  lemma SubEntryGathered<P, S>(m: Manager<P>, sub: Manager<P>, path: string, group: string, subPolicy: string, signed: S, check: (P, S) -> bool)
    requires sub.path == Key(path, group) && subPolicy != [SEPARATOR] + sub.path
    requires Below(sub, subPolicy).Some? ==> Indexed(m, Key(group, Below(sub, subPolicy).value)) == Indexed(sub, Below(sub, subPolicy).value)
    ensures Satisfied(Gathered(sub, subPolicy), signed, check) <==> FoundSatisfied(SubEntry(m, path, group, subPolicy), signed, check)
  {
    NameBelow(sub, subPolicy);
  }

  lemma SubPath<P>(m: Manager<P>, pr: Providers<P>, path: string, g: Group, group: string)
    requires Mirrors(m, pr, path, g) && group in g.groups
    ensures m.managers[group].path == Key(path, group)
  {
  }

  /** The name in the manager's index that an identifier stands for. */
  function Below<P>(m: Manager<P>, id: string): Option<string> {
    var prefix := [SEPARATOR] + m.path;
    if id == "" then None
    else if id[0] != SEPARATOR then Some(id)
    else if prefix <= id && |id| > |prefix| then Some(id[|prefix| + 1..])
    else None
  }

  lemma NameBelow<P>(m: Manager<P>, id: string)
    requires id != [SEPARATOR] + m.path
    ensures GetPolicy(m, id) == if Below(m, id).Some? then Indexed(m, Below(m, id).value) else Missing
  {
  }

  /**
   An implicit meta policy is satisfied exactly when enough of the group's sub-groups have, in the same manager,
   a satisfied policy where the sub-policy name points below them.
   */
  lemma ImplicitMetaCounts<P, S>(m: Manager<P>, pr: Providers<P>, path: string, g: Group, name: string, signed: S, check: (P, S) -> bool)
    requires Mirrors(m, pr, path, g) && PlainNames(g) && name in g.policies
    requires Compiles(pr, path, g.groups.Keys, g.policies[name]) && g.policies[name].policyType == IMPLICIT_META
    ensures var d := pr.definition(g.policies[name].content.value).value;
            FoundSatisfied(Indexed(m, name), signed, check) <==>
            PolicyConversion.MetaVerdict(
              PolicyConversion.Threshold(d.rule, |g.groups|),
              |set group | group in g.groups && FoundSatisfied(SubEntry(m, path, group, d.subPolicy), signed, check)|)
  {
    var d := pr.definition(g.policies[name].content.value).value;
    OwnEntry(m, pr, path, g, name);
    var policy := NewImplicitMeta(d, m.managers);
    var good := set group | group in g.groups && FoundSatisfied(SubEntry(m, path, group, d.subPolicy), signed, check);
    forall group | group in g.groups
      ensures Satisfied(policy.subPolicies[group], signed, check) <==> group in good
    {
      GatheredIsIndexed(m, pr, path, g, group, d.subPolicy, signed, check);
    }
    SatisfiedBySubs(policy, good, signed, check);
    assert |m.managers| == |m.managers.Keys| == |g.groups.Keys| == |g.groups|;
  }

  lemma SatisfiedBySubs<P, S>(policy: PolicyManager.Policy<P>, good: set<string>, signed: S, check: (P, S) -> bool)
    requires policy.Implicit? && good <= policy.subPolicies.Keys
    requires forall name | name in policy.subPolicies :: Satisfied(policy.subPolicies[name], signed, check) <==> name in good
    ensures Satisfied(policy, signed, check) <==> PolicyConversion.MetaVerdict(policy.threshold, |good|)
  {
    var subs := policy.subPolicies;
    assert (set name | name in subs && Satisfied(subs[name], signed, check)) == good;
  }

  // ---------------------------------------------------------------------------
  // Accepted updates
  // ---------------------------------------------------------------------------

  /** The policy check of `verifyDeltaSet` on one existing element. */
  predicate Authorized<P, S>(m: Manager<P>, item: Comparable, signed: S, check: (P, S) -> bool) {
    FoundSatisfied(PolicyForItem(m, item), signed, check)
  }

  /** Where an element's relative modification policy stands in the tree. */
  function PolicyPath(item: Comparable): (path: seq<string>)
    ensures path != []
  {
    Context(item) + Split(ModPolicy(item.element))
  }

  lemma PolicyPathPlain(item: Comparable)
    requires AllPlain(item.path) && Plain(item.key)
    ensures AllPlain(PolicyPath(item))
  {
    SplitPlain(ModPolicy(item.element));
    assert AllPlain(Context(item));
  }

  /**
   Where an element's modification policy stands in the tree: a relative one below the element's context, an absolute
   one below the root, whose path and one more character it starts with.  An empty one stands nowhere.
   */
  function GuardPath(root: string, item: Comparable): (path: Option<seq<string>>)
    ensures path.Some? ==> path.value != []
  {
    var p := ModPolicy(item.element);
    if p == "" then None
    else if p[0] != SEPARATOR then Some(PolicyPath(item))
    else if [SEPARATOR] + root <= p && |p| >= 2 + |root| then Some(Split(p[2 + |root|..]))
    else None
  }

  lemma GuardPathPlain(root: string, item: Comparable)
    requires AllPlain(item.path) && Plain(item.key)
    ensures GuardPath(root, item).Some? ==> AllPlain(GuardPath(root, item).value)
  {
    PolicyPathPlain(item);
    var p := ModPolicy(item.element);
    if |p| >= 2 + |root| {
      SplitPlain(p[2 + |root|..]);
    }
  }

  /** `policyForItem` at the place the modification policy names, wherever that is. */
  lemma ItemPolicyIndexed<P>(m: Manager<P>, pr: Providers<P>, g: Group, item: Comparable)
    requires Mirrors(m, pr, m.path, g) && PlainNames(g) && AllPlain(item.path) && Plain(item.key)
    ensures var at := GuardPath(m.path, item);
            if at.Some? then PolicyForItem(m, item) == Indexed(m, Join(at.value)) else !PolicyForItem(m, item).Found?
  {
    var p := ModPolicy(item.element);
    if p != "" && p[0] != SEPARATOR {
      RelativeIsAbsolute(m, pr, g, item);
      AbsoluteIndexed(m, Context(item), p);
    } else if p != "" && |p| >= 2 + |m.path| {
      JoinSplit(p[2 + |m.path|..]);
    }
  }

  /** The lookup slices out of range, which is a panic, exactly for the root's own path. */
  predicate LookupPanics<P>(m: Manager<P>, item: Comparable) {
    PolicyForItem(m, item).OutOfRange?
  }

  lemma LookupPanicsIff<P>(m: Manager<P>, item: Comparable)
    ensures LookupPanics(m, item) <==> ModPolicy(item.element) == [SEPARATOR] + m.path
  {
  }

  /**
   `policyForItem` finds exactly the policy that the configuration tree holds where the modification policy points,
   and panics exactly where that is the root's own path.
   */
  lemma ItemPolicyFromTree<P>(m: Manager<P>, pr: Providers<P>, g: Group, item: Comparable)
    requires Mirrors(m, pr, m.path, g) && PlainNames(g) && AllPlain(item.path) && Plain(item.key)
    ensures var at := GuardPath(m.path, item);
            && (PolicyForItem(m, item).Found? <==> at.Some? && Lookup(g, at.value, POLICY).Some?)
            && (PolicyForItem(m, item).OutOfRange? <==> ModPolicy(item.element) == [SEPARATOR] + m.path)
            && (at.Some? ==> PolicyForItem(m, item) == TreePolicy(m, pr, g, at.value))
  {
    ItemPolicyIndexed(m, pr, g, item);
    LookupPanicsIff(m, item);
    GuardPathPlain(m.path, item);
    if GuardPath(m.path, item).Some? {
      PolicyFromTree(m, pr, m.path, g, GuardPath(m.path, item).value);
    }
  }

  /**
   An update that writes an existing element at a new version carries signatures that satisfy the policy which the old
   configuration tree holds where the element's modification policy points.  In particular an element whose
   modification policy is empty or points nowhere cannot be written; it can still be taken out with its group.
   */
  lemma ChangeNeedsTreePolicy<P, S(!new)>(v: Validator<S>, m: Manager<P>, pr: Providers<P>, check: (P, S) -> bool,
                                          g: Group, env: UpdateEnvelope<S>, rel: seq<string>, kind: Kind)
    requires Built(v, g) && AuthorizeUpdate(v, env).Some? && Mirrors(m, pr, v.namespace, g)
    requires forall item, signed :: v.authorizes(item, signed) == Authorized(m, item, signed, check)
    requires Lookup(g, rel, kind).Some? && Fq(kind, Location(v, rel)) in Changes(v, env)
    ensures var at := GuardPath(v.namespace, Place(Location(v, rel), Lookup(g, rel, kind).value));
            && at.Some? && Lookup(g, at.value, POLICY).Some?
            && FoundSatisfied(TreePolicy(m, pr, g, at.value), env.signed.value, check)
  {
    var item := Place(Location(v, rel), Lookup(g, rel, kind).value);
    NamesPlainHere(v, g, rel, kind);
    OldEntry(v, g, rel, kind);
    ChangeChecked(v, env, Fq(kind, Location(v, rel)));
    assert Authorized(m, item, env.signed.value, check);
    ValidNamesArePlain(g);
    ItemPolicyFromTree(m, pr, g, item);
  }

  /**
   An update that adds or takes out an element writes a group above it, which stays, and carries signatures that
   satisfy the policy which the old configuration tree holds where that group's modification policy points.
   */
  lemma MembershipNeedsTreePolicy<P, S(!new)>(v: Validator<S>, m: Manager<P>, pr: Providers<P>, check: (P, S) -> bool,
                                              g: Group, env: UpdateEnvelope<S>, t: Group, rel: seq<string>, kind: Kind)
    returns (n: nat)
    requires Applies(v, g, env, t) && Mirrors(m, pr, v.namespace, g)
    requires forall item, signed :: v.authorizes(item, signed) == Authorized(m, item, signed, check)
    requires FaceAt(g, rel, kind).Some? <==> FaceAt(t, rel, kind).None?
    ensures n < |rel| && Bumped(v, env, g, t, rel[..n], GROUP)
    ensures var at := GuardPath(v.namespace, Place(Location(v, rel[..n]), Lookup(g, rel[..n], GROUP).value));
            && at.Some? && Lookup(g, at.value, POLICY).Some?
            && FoundSatisfied(TreePolicy(m, pr, g, at.value), env.signed.value, check)
  {
    n := MembershipAuthorised(v, g, env, t, rel, kind);
    ChangeNeedsTreePolicy(v, m, pr, check, g, env, rel[..n], GROUP);
  }

  // ---------------------------------------------------------------------------
  // A lookup that panics
  // ---------------------------------------------------------------------------

  lemma {:induction false} SplitOne(s: string)
    requires Plain(s)
    ensures Split(s) == [s]
  {
    if s != "" {
      assert s[0] in s && s == [s[0]] + s[1..];
      SplitOne(s[1..]);
    }
  }

  /** Where the lookup panics nothing is authorised. */
  lemma PanicsUnauthorised<P, S(!new)>(v: Validator<S>, m: Manager<P>, check: (P, S) -> bool, signed: S)
    requires forall item, signed :: v.authorizes(item, signed) == Authorized(m, item, signed, check)
    ensures NoneAuthorised(v, (item: Comparable) => LookupPanics(m, item), signed)
  {
  }

  /** The path of the root is a modification policy that `validateModPolicy` accepts. */
  lemma RootPathValid(root: string)
    requires ValidID(root)
    ensures ValidModPolicy([SEPARATOR] + root)
  {
    ValidIDPlain(root);
    SplitOne(root);
    assert ([SEPARATOR] + root)[1..] == root;
  }

  /**
   So whoever satisfies the root group's modification policy can install a configuration, of the root group only, with
   that path as its modification policy ...
   */
  lemma PanicInstalled<S>(v: Validator<S>, g: Group, signed: S)
    requires Built(v, g)
    ensures var p := [SEPARATOR] + v.namespace;
            Applies(v, g, Clearing(v, g, p, signed), Lone(Increment(g.version), p)) <==> v.authorizes(Place([v.namespace], GroupElement(g)), signed)
  {
    RootPathValid(v.namespace);
    ClearingUpdate(v, g, [SEPARATOR] + v.namespace, signed);
  }

  /** ... and on it the next update of the root group panics, whoever signed it. */
  lemma NextUpdatePanics<P, S>(v: Validator<S>, m: Manager<P>, version: uint64, modPolicy: string, signed: S)
    requires Built(v, Lone(version, [SEPARATOR] + v.namespace)) && m.path == v.namespace && ValidModPolicy(modPolicy)
    ensures MustPanic(v, (item: Comparable) => LookupPanics(m, item), Clearing(v, Lone(version, [SEPARATOR] + v.namespace), modPolicy, signed))
  {
    var g := Lone(version, [SEPARATOR] + v.namespace);
    var env := Clearing(v, g, modPolicy, signed);
    ClearingDelta(v, g, modPolicy, signed);
    LookupPanicsIff(m, Place([v.namespace], GroupElement(g)));
    var panics := (item: Comparable) => LookupPanics(m, item);
    var delta := MapConfig(env.update.value.writeSet, v.namespace).value;
    assert Delta(map[], delta) == delta && Fq(GROUP, [v.namespace]) in delta;
    assert ChangePanics(v, panics, Fq(GROUP, [v.namespace]), delta[Fq(GROUP, [v.namespace])]);
  }
}
