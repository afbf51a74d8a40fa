/**
 The policy manager of a channel (common/policies/policy.go): a tree of managers that mirrors the
 configuration groups, each with a flattened index of the policies at and below it.
 */
module PolicyManager {
  import opened Bytes
  import opened ConfigMaps
  import opened Outcomes
  import opened Paths
  import opened Wrappers
  import ConfigTree
  import PolicyConversion

  const IMPLICIT_META := 3

  /** A policy of the manager: one from a provider, an implicit meta policy over the sub-managers, or reject-all. */
  datatype Policy<P> = Provided(policy: P) | Implicit(threshold: int, subPolicies: map<string, Policy<P>>) | RejectAll

  datatype Manager<P> = Manager(path: string, policies: map<string, Policy<P>>, managers: map<string, Manager<P>>)

  /** What an `ImplicitMetaPolicy` message says. */
  datatype Definition = Definition(rule: PolicyConversion.MetaRule, subPolicy: string)

  /** The policy types with a provider, what the providers build, and the decoding of implicit meta policies. */
  datatype Providers<!P> = Providers(
    types: set<int>,
    newPolicy: (int, bytes) -> Option<P>,
    definition: bytes -> Option<Definition>)

  /** A lookup finds a policy, falls back to reject-all, or slices past the end of the identifier. */
  datatype Found<P> = Found(policy: Policy<P>) | Missing | OutOfRange

  // ---------------------------------------------------------------------------
  // Lookup
  // ---------------------------------------------------------------------------

  function Indexed<P>(m: Manager<P>, relpath: string): Found<P> {
    if relpath in m.policies then Found(m.policies[relpath]) else Missing
  }

  /** `GetPolicy`. */
  function GetPolicy<P>(m: Manager<P>, id: string): Found<P> {
    if id == "" then Missing
    else if id[0] != SEPARATOR then Indexed(m, id)
    else if !([SEPARATOR] + m.path <= id) then Missing
    else if |id| < 1 + |m.path| + 1 then OutOfRange
    else Indexed(m, id[1 + |m.path| + 1..])
  }

  /** `Manager`: the manager at a path below. */
  function SubManager<P>(m: Manager<P>, path: seq<string>): Option<Manager<P>>
    decreases |path|
  {
    if path == [] then Some(m)
    else if path[0] !in m.managers then None
    else SubManager(m.managers[path[0]], path[1..])
  }

  /** Walk the sub-managers and look the last name up there. */
  function Walk<P>(m: Manager<P>, rel: seq<string>): Found<P>
    requires rel != []
  {
    var sub := SubManager(m, rel[..|rel| - 1]);
    if sub.None? then Missing else Indexed(sub.value, rel[|rel| - 1])
  }

  /** An absolute identifier read as documented: the manager's path, a separator, and the rest. */
  function Documented<P>(m: Manager<P>, id: string): Found<P> {
    var prefix := [SEPARATOR] + m.path + [SEPARATOR];
    if prefix <= id then Indexed(m, id[|prefix|..]) else Missing
  }

  /**
   An absolute lookup does what is documented unless the identifier is the manager's own path, or some other
   character stands where the separator after that path belongs and the rest is the name of a policy.
   */
  lemma AbsoluteLookupIff<P>(m: Manager<P>, id: string)
    requires id != "" && id[0] == SEPARATOR
    ensures GetPolicy(m, id) == Documented(m, id) <==>
      !([SEPARATOR] + m.path <= id &&
        (|id| == 1 + |m.path| || (id[1 + |m.path|] != SEPARATOR && id[2 + |m.path|..] in m.policies)))
  {
    var prefix := [SEPARATOR] + m.path + [SEPARATOR];
    if [SEPARATOR] + m.path <= id && |id| > 1 + |m.path| {
      assert id[..|prefix|] == [SEPARATOR] + m.path + [id[1 + |m.path|]];
    }
  }

  /** For example, the name of a sibling that starts with the manager's path is taken for the manager itself. */
  lemma SiblingMistaken<P>(m: Manager<P>, sibling: char, name: string)
    requires name in m.policies && sibling != SEPARATOR
    ensures GetPolicy(m, [SEPARATOR] + m.path + [sibling] + name) == Found(m.policies[name])
  {
    var id := [SEPARATOR] + m.path + [sibling] + name;
    assert id[2 + |m.path|..] == name;
  }

  // ---------------------------------------------------------------------------
  // Construction
  // ---------------------------------------------------------------------------

  function Key(group: string, name: string): string {
    group + [SEPARATOR] + name
  }

  /** The sub-policy an implicit meta policy takes from one sub-manager. */
  function Gathered<P>(m: Manager<P>, subPolicy: string): Policy<P> {
    match GetPolicy(m, subPolicy)
    case Found(p) => p
    case Missing => RejectAll
    case OutOfRange => RejectAll
  }

  /** `NewImplicitMetaPolicy`. */
  function NewImplicitMeta<P>(d: Definition, managers: map<string, Manager<P>>): Policy<P> {
    Implicit(
      PolicyConversion.Threshold(d.rule, |managers|),
      map name | name in managers :: Gathered(managers[name], d.subPolicy))
  }

  /** The policy compiles in a group at `path` with these sub-groups. */
  predicate Compiles<P>(pr: Providers<P>, path: string, groups: set<string>, p: ConfigTree.Policy) {
    && p.content.Some?
    && if p.policyType == IMPLICIT_META then
         && pr.definition(p.content.value).Some?
         && forall name | name in groups :: pr.definition(p.content.value).value.subPolicy != [SEPARATOR] + Key(path, name)
       else p.policyType in pr.types && pr.newPolicy(p.policyType, p.content.value).Some?
  }

  /** Compiling the policy returns an error. */
  predicate Fails<P>(pr: Providers<P>, p: ConfigTree.Policy) {
    || p.content.None?
    || if p.policyType == IMPLICIT_META then pr.definition(p.content.value).None?
       else p.policyType !in pr.types || pr.newPolicy(p.policyType, p.content.value).None?
  }

  /** Compiling the policy slices past the end of its sub-policy name, which is the path of one of the sub-groups. */
  predicate Panics<P>(pr: Providers<P>, path: string, groups: set<string>, p: ConfigTree.Policy) {
    && p.content.Some? && p.policyType == IMPLICIT_META && pr.definition(p.content.value).Some?
    && exists name | name in groups :: pr.definition(p.content.value).value.subPolicy == [SEPARATOR] + Key(path, name)
  }

  lemma CompilesIff<P>(pr: Providers<P>, path: string, groups: set<string>, p: ConfigTree.Policy)
    ensures Compiles(pr, path, groups, p) <==> !Fails(pr, p) && !Panics(pr, path, groups, p)
  {
  }

  /** The policy built from a configuration policy. */
  function Build<P>(pr: Providers<P>, managers: map<string, Manager<P>>, p: ConfigTree.Policy): Policy<P> {
    if p.content.None? then RejectAll
    else if p.policyType == IMPLICIT_META then
      var d := pr.definition(p.content.value);
      if d.None? then RejectAll else NewImplicitMeta(d.value, managers)
    else
      var q := pr.newPolicy(p.policyType, p.content.value);
      if q.None? then RejectAll else Provided(q.value)
  }

  /** A manager can be built for the group. */
  predicate Buildable<P>(pr: Providers<P>, path: string, g: ConfigTree.Group)
    decreases g
  {
    && IMPLICIT_META !in pr.types
    && (forall name | name in g.groups :: Buildable(pr, Key(path, name), g.groups[name]))
    && (forall name | name in g.policies :: Compiles(pr, path, g.groups.Keys, g.policies[name]))
  }

  /** Some policy at or below the group returns an error. */
  predicate HasError<P>(pr: Providers<P>, g: ConfigTree.Group)
    decreases g
  {
    || (exists name | name in g.groups :: HasError(pr, g.groups[name]))
    || (exists name | name in g.policies :: Fails(pr, g.policies[name]))
  }

  /** A provider claims implicit meta policies, or some policy at or below the group slices out of range. */
  predicate HasPanic<P>(pr: Providers<P>, path: string, g: ConfigTree.Group)
    decreases g
  {
    || IMPLICIT_META in pr.types
    || (exists name | name in g.groups :: HasPanic(pr, Key(path, name), g.groups[name]))
    || (exists name | name in g.policies :: Panics(pr, path, g.groups.Keys, g.policies[name]))
  }

  /** A manager can be built exactly when nothing at or below the group fails or panics. */
  lemma {:induction false} BuildableIff<P>(pr: Providers<P>, path: string, g: ConfigTree.Group)
    ensures Buildable(pr, path, g) <==> !HasError(pr, g) && !HasPanic(pr, path, g)
    decreases g
  {
    forall name | name in g.groups
      ensures Buildable(pr, Key(path, name), g.groups[name]) <==>
        !HasError(pr, g.groups[name]) && !HasPanic(pr, Key(path, name), g.groups[name])
    {
      BuildableIff(pr, Key(path, name), g.groups[name]);
    }
    forall name | name in g.policies
      ensures Compiles(pr, path, g.groups.Keys, g.policies[name]) <==>
        !Fails(pr, g.policies[name]) && !Panics(pr, path, g.groups.Keys, g.policies[name])
    {
      CompilesIff(pr, path, g.groups.Keys, g.policies[name]);
    }
  }

  /** The entry is one that some sub-manager indexes, under the sub-group's name. */
  ghost predicate Inherited<P>(managers: map<string, Manager<P>>, key: string, p: Policy<P>) {
    exists group, name ::
      && group in managers && name in managers[group].policies
      && key == Key(group, name) && p == managers[group].policies[name]
  }

  /** The index holds the group's own policies and those of every sub-manager, and nothing else. */
  ghost predicate Flattened<P>(
    pr: Providers<P>, managers: map<string, Manager<P>>, own: map<string, ConfigTree.Policy>, policies: map<string, Policy<P>>)
  {
    && (forall key | key in policies ::
          Inherited(managers, key, policies[key]) || (key in own && policies[key] == Build(pr, managers, own[key])))
    && own.Keys <= policies.Keys
    && (forall group, name | group in managers && name in managers[group].policies ::
          Key(group, name) in policies && Inherited(managers, Key(group, name), policies[Key(group, name)]))
  }

  /** The manager mirrors the group. */
  ghost predicate Mirrors<P>(m: Manager<P>, pr: Providers<P>, path: string, g: ConfigTree.Group)
    decreases g
  {
    && m.path == path
    && m.managers.Keys == g.groups.Keys
    && (forall name | name in g.groups :: Mirrors(m.managers[name], pr, Key(path, name), g.groups[name]))
    && Flattened(pr, m.managers, g.policies, m.policies)
  }

  /** Every sub-manager mirrors its sub-group. */
  ghost predicate AllMirror<P>(managers: map<string, Manager<P>>, pr: Providers<P>, path: string, g: ConfigTree.Group) {
    && managers.Keys == g.groups.Keys
    && (forall name | name in managers :: managers[name].path == Key(path, name))
    && (forall name | name in g.groups :: Mirrors(managers[name], pr, Key(path, name), g.groups[name]))
  }

  lemma Assembled<P>(managers: map<string, Manager<P>>, policies: map<string, Policy<P>>, pr: Providers<P>, path: string, g: ConfigTree.Group)
    requires AllMirror(managers, pr, path, g) && Flattened(pr, managers, g.policies, policies)
    ensures Mirrors(Manager(path, policies, managers), pr, path, g)
  {
  }

  /** The sub-managers, one per sub-group. */
  method NewManagers<P>(pr: Providers<P>, path: string, g: ConfigTree.Group) returns (managers: Outcome<map<string, Manager<P>>>)
    requires IMPLICIT_META !in pr.types
    ensures managers.Done? <==> forall name | name in g.groups :: Buildable(pr, Key(path, name), g.groups[name])
    ensures managers.Done? ==> AllMirror(managers.value, pr, path, g)
    ensures managers.Failed? ==> HasError(pr, g)
    ensures managers.Panicked? ==> HasPanic(pr, path, g)
    decreases g, 0
  {
    var todo, built := g.groups.Keys, map[];
    while todo != {}
      invariant todo <= g.groups.Keys && built.Keys == g.groups.Keys - todo
      invariant forall name | name in built ::
        Buildable(pr, Key(path, name), g.groups[name]) && Mirrors(built[name], pr, Key(path, name), g.groups[name])
      decreases todo
    {
      var name :| name in todo;
      var sub := NewManagerImpl(pr, Key(path, name), g.groups[name]);
      if sub.Failed? {
        return Failed;
      }
      if sub.Panicked? {
        return Panicked;
      }
      built := built[name := sub.value];
      todo := todo - {name};
    }
    managers := Done(built);
    assert AllMirror(built, pr, path, g);
  }

  /** One of the group's own policies. */
  method NewPolicy<P>(pr: Providers<P>, path: string, managers: map<string, Manager<P>>, p: ConfigTree.Policy) returns (policy: Outcome<Policy<P>>)
    requires forall name | name in managers :: managers[name].path == Key(path, name)
    ensures policy.Done? <==> Compiles(pr, path, managers.Keys, p)
    ensures policy.Done? ==> policy.value == Build(pr, managers, p)
    ensures policy.Failed? ==> Fails(pr, p)
    ensures policy.Panicked? ==> Panics(pr, path, managers.Keys, p)
  {
    if p.content.None? {
      return Failed;
    }
    if p.policyType == IMPLICIT_META {
      var d := pr.definition(p.content.value);
      if d.None? {
        return Failed;
      }
      var subPolicies := GatherSubPolicies(path, managers, d.value.subPolicy);
      if subPolicies.None? {
        return Panicked;
      }
      return Done(Implicit(PolicyConversion.Threshold(d.value.rule, |managers|), subPolicies.value));
    }
    if p.policyType !in pr.types {
      return Failed;
    }
    var q := pr.newPolicy(p.policyType, p.content.value);
    if q.None? {
      return Failed;
    }
    policy := Done(Provided(q.value));
  }

  /** The group's own policies. */
  method NewPolicies<P>(pr: Providers<P>, path: string, managers: map<string, Manager<P>>, own: map<string, ConfigTree.Policy>)
    returns (policies: Outcome<map<string, Policy<P>>>)
    requires forall name | name in managers :: managers[name].path == Key(path, name)
    ensures policies.Done? <==> forall name | name in own :: Compiles(pr, path, managers.Keys, own[name])
    ensures policies.Done? ==>
      policies.value.Keys == own.Keys && forall name | name in own :: policies.value[name] == Build(pr, managers, own[name])
    ensures policies.Failed? ==> exists name | name in own :: Fails(pr, own[name])
    ensures policies.Panicked? ==> exists name | name in own :: Panics(pr, path, managers.Keys, own[name])
  {
    var todo, built := own.Keys, map[];
    while todo != {}
      invariant todo <= own.Keys && built.Keys == own.Keys - todo
      invariant forall name | name in built ::
        Compiles(pr, path, managers.Keys, own[name]) && built[name] == Build(pr, managers, own[name])
      decreases todo
    {
      var name :| name in todo;
      var p := NewPolicy(pr, path, managers, own[name]);
      if p.Failed? {
        return Failed;
      }
      if p.Panicked? {
        return Panicked;
      }
      built := built[name := p.value];
      todo := todo - {name};
    }
    policies := Done(built);
  }

  /** Asks every sub-manager; `None` when a lookup slices past the end of the name. */
  method GatherSubPolicies<P>(path: string, managers: map<string, Manager<P>>, subPolicy: string)
    returns (subPolicies: Option<map<string, Policy<P>>>)
    requires forall name | name in managers :: managers[name].path == Key(path, name)
    ensures subPolicies.Some? <==> forall name | name in managers :: subPolicy != [SEPARATOR] + Key(path, name)
    ensures subPolicies.Some? ==> subPolicies.value == map name | name in managers :: Gathered(managers[name], subPolicy)
  {
    var todo, gathered: map<string, Policy<P>> := managers.Keys, map[];
    while todo != {}
      invariant todo <= managers.Keys && gathered.Keys == managers.Keys - todo
      invariant forall name | name in gathered ::
        subPolicy != [SEPARATOR] + Key(path, name) && gathered[name] == Gathered(managers[name], subPolicy)
      decreases todo
    {
      var name :| name in todo;
      var found := GetPolicy(managers[name], subPolicy);
      if found.OutOfRange? {
        assert subPolicy == [SEPARATOR] + Key(path, name);
        return None;
      }
      gathered := gathered[name := Gathered(managers[name], subPolicy)];
      todo := todo - {name};
    }
    subPolicies := Some(gathered);
  }

  /** Enters the policies of one sub-manager under the sub-group's name. */
  method FlattenOne<P>(policies: map<string, Policy<P>>, group: string, sub: map<string, Policy<P>>)
    returns (out: map<string, Policy<P>>)
    ensures policies.Keys <= out.Keys
    ensures forall name | name in sub :: Key(group, name) in out && out[Key(group, name)] == sub[name]
    ensures forall key | key in out :: (key in policies && out[key] == policies[key]) || exists name | name in sub :: key == Key(group, name)
  {
    out := policies;
    var todo := sub.Keys;
    while todo != {}
      invariant todo <= sub.Keys && policies.Keys <= out.Keys
      invariant forall name | name in sub && name !in todo :: Key(group, name) in out && out[Key(group, name)] == sub[name]
      invariant forall key | key in out :: (key in policies && out[key] == policies[key]) || exists name | name in sub :: key == Key(group, name)
      decreases todo
    {
      var name :| name in todo;
      ghost var before := out;
      out := out[Key(group, name) := sub[name]];
      forall other | other in sub && other !in todo ensures out[Key(group, other)] == sub[other] {
        KeyInjective(group, name, other);
      }
      todo := todo - {name};
    }
  }

  lemma KeyInjective(group: string, name: string, other: string)
    ensures Key(group, name) == Key(group, other) <==> name == other
  {
    assert Key(group, name)[|group| + 1..] == name;
    assert Key(group, other)[|group| + 1..] == other;
  }

  /** Enters the policies of every sub-manager. */
  method Flatten<P>(
    ghost pr: Providers<P>, managers: map<string, Manager<P>>, ghost own: map<string, ConfigTree.Policy>, policies: map<string, Policy<P>>)
    returns (out: map<string, Policy<P>>)
    requires policies.Keys == own.Keys && forall name | name in own :: policies[name] == Build(pr, managers, own[name])
    ensures Flattened(pr, managers, own, out)
  {
    out := policies;
    var todo := managers.Keys;
    while todo != {}
      invariant todo <= managers.Keys && own.Keys <= out.Keys
      invariant forall key | key in out ::
        Inherited(managers, key, out[key]) || (key in own && out[key] == Build(pr, managers, own[key]))
      invariant forall group, name | group in managers && group !in todo && name in managers[group].policies ::
        Key(group, name) in out && Inherited(managers, Key(group, name), out[Key(group, name)])
      decreases todo
    {
      var group :| group in todo;
      var before := out;
      out := FlattenOne(before, group, managers[group].policies);
      forall key | key in out
        ensures Inherited(managers, key, out[key]) || (key in before && out[key] == before[key])
      {
        if !(key in before && out[key] == before[key]) {
          var name :| name in managers[group].policies && key == Key(group, name);
          assert out[Key(group, name)] == managers[group].policies[name];
        }
      }
      todo := todo - {group};
    }
  }

  /** The manager over its sub-managers. */
  method Assemble<P>(pr: Providers<P>, path: string, g: ConfigTree.Group, managers: map<string, Manager<P>>) returns (m: Outcome<Manager<P>>)
    requires AllMirror(managers, pr, path, g)
    ensures m.Done? <==> forall name | name in g.policies :: Compiles(pr, path, g.groups.Keys, g.policies[name])
    ensures m.Done? ==> Mirrors(m.value, pr, path, g)
    ensures m.Failed? ==> exists name | name in g.policies :: Fails(pr, g.policies[name])
    ensures m.Panicked? ==> exists name | name in g.policies :: Panics(pr, path, g.groups.Keys, g.policies[name])
  {
    var own := NewPolicies(pr, path, managers, g.policies);
    if own.Failed? {
      return Failed;
    }
    if own.Panicked? {
      return Panicked;
    }
    var policies := Flatten(pr, managers, g.policies, own.value);
    Assembled(managers, policies, pr, path, g);
    m := Done(Manager(path, policies, managers));
  }

  /** `NewManagerImpl`.  Which of several errors and panics comes first depends on the order of the maps. */
  method NewManagerImpl<P>(pr: Providers<P>, path: string, g: ConfigTree.Group) returns (m: Outcome<Manager<P>>)
    ensures m.Done? <==> Buildable(pr, path, g)
    ensures m.Done? ==> Mirrors(m.value, pr, path, g)
    ensures m.Failed? ==> HasError(pr, g)
    ensures m.Panicked? ==> HasPanic(pr, path, g)
    decreases g, 1
  {
    if IMPLICIT_META in pr.types {
      return Panicked;
    }
    var managers := NewManagers(pr, path, g);
    if managers.Failed? {
      return Failed;
    }
    if managers.Panicked? {
      return Panicked;
    }
    m := Assemble(pr, path, g, managers.value);
  }

  // ---------------------------------------------------------------------------
  // The index is the walk
  // ---------------------------------------------------------------------------

  /** No name of a group or policy holds a separator. */
  predicate PlainNames(g: ConfigTree.Group)
    decreases g
  {
    && (forall name | name in g.groups :: Plain(name) && PlainNames(g.groups[name]))
    && (forall name | name in g.policies :: Plain(name))
  }

  lemma {:induction false} ValidNamesArePlain(g: ConfigTree.Group)
    requires ValidNames(g)
    ensures PlainNames(g)
    decreases g
  {
    forall name | name in g.groups ensures Plain(name) && PlainNames(g.groups[name]) {
      ValidIDPlain(name);
      ValidNamesArePlain(g.groups[name]);
    }
    forall name | name in g.policies ensures Plain(name) {
      ValidIDPlain(name);
    }
  }

  lemma WalkStep<P>(m: Manager<P>, rel: seq<string>)
    requires |rel| > 1
    ensures Walk(m, rel) == if rel[0] in m.managers then Walk(m.managers[rel[0]], rel[1..]) else Missing
  {
    assert rel[..|rel| - 1][1..] == rel[1..][..|rel| - 2];
  }

  /** The first plain name of a key and the rest are fixed by the key. */
  lemma KeyFixes(group: string, name: string, group': string, name': string)
    requires Plain(group) && Plain(group') && Key(group, name) == Key(group', name')
    ensures group == group' && name == name'
  {
    var r, r' := [SEPARATOR] + name, [SEPARATOR] + name';
    assert group + r == Key(group, name) == group' + r';
    NameUnique(group, r, group', r');
    assert name == r[1..] == r'[1..] == name';
  }

  lemma InheritedFrom<P>(managers: map<string, Manager<P>>, group: string, name: string, p: Policy<P>)
    requires (forall other | other in managers :: Plain(other)) && Plain(group)
    requires Inherited(managers, Key(group, name), p)
    ensures group in managers && name in managers[group].policies && p == managers[group].policies[name]
  {
    var group', name' :| group' in managers && name' in managers[group'].policies
                         && Key(group, name) == Key(group', name') && p == managers[group'].policies[name'];
    KeyFixes(group, name, group', name');
  }

  lemma KeyNotPlain(group: string, name: string)
    ensures !Plain(Key(group, name))
  {
    assert Key(group, name)[|group|] == SEPARATOR;
  }

  lemma InheritedNotPlain<P>(managers: map<string, Manager<P>>, key: string, p: Policy<P>)
    ensures Inherited(managers, key, p) ==> !Plain(key)
  {
    if Inherited(managers, key, p) {
      var group, name :| group in managers && name in managers[group].policies
                         && key == Key(group, name) && p == managers[group].policies[name];
      KeyNotPlain(group, name);
    }
  }

  /** A name with a separator is not one of the group's own, so it is inherited from the group it starts with. */
  lemma EntryBelow<P>(m: Manager<P>, pr: Providers<P>, path: string, g: ConfigTree.Group, group: string, name: string)
    requires Mirrors(m, pr, path, g) && PlainNames(g) && Plain(group)
    ensures Indexed(m, Key(group, name)) == if group in m.managers then Indexed(m.managers[group], name) else Missing
  {
    var key := Key(group, name);
    KeyNotPlain(group, name);
    if key in m.policies {
      InheritedFrom(m.managers, group, name, m.policies[key]);
    }
  }

  /** Looking a path of plain names up in the index is walking the sub-managers. */
  lemma {:induction false} IndexIsWalk<P>(m: Manager<P>, pr: Providers<P>, path: string, g: ConfigTree.Group, rel: seq<string>)
    requires Mirrors(m, pr, path, g) && PlainNames(g) && AllPlain(rel) && rel != []
    ensures Indexed(m, Join(rel)) == Walk(m, rel)
    decreases |rel|
  {
    if |rel| > 1 {
      WalkStep(m, rel);
      EntryBelow(m, pr, path, g, rel[0], Join(rel[1..]));
      if rel[0] in m.managers {
        IndexIsWalk(m.managers[rel[0]], pr, Key(path, rel[0]), g.groups[rel[0]], rel[1..]);
      }
    }
  }
}
