/**
 The loops of common/configtx/configmap.go and update.go: flattening inserts into a shared map, rebuilding
 fills the maps of a new group, and the checks scan maps with early error returns.  Go iterates over maps in
 no particular order; here the next key is any remaining one.
 */
module ConfigLoops {
  import opened ConfigMaps
  import opened ConfigRebuild
  import opened ConfigTree
  import opened ConfigUpdates
  import opened Outcomes
  import opened Paths
  import opened Words
  import opened Wrappers

  // ---------------------------------------------------------------------------
  // mapConfig
  // ---------------------------------------------------------------------------

  /** The map `n` is `m` with the items inserted under their keys. */
  ghost predicate Inserted(m: ConfigMap, items: set<Comparable>, n: ConfigMap) {
    && (forall c | c in items :: FqPath(c) in n && n[FqPath(c)] == c)
    && (forall k | k in n :: (k in m && n[k] == m[k]) || (n[k] in items && FqPath(n[k]) == k))
    && m.Keys <= n.Keys
  }

  /** Items of the group whose locations are plain. */
  ghost predicate PlainItems(s: set<Comparable>, g: Group, loc: seq<string>)
    requires loc != []
  {
    s <= Items(g, loc) && forall c | c in s :: AllPlain(Loc(c))
  }

  /** Inserting twice inserts the union, as long as the items come from one tree. */
  lemma InsertedTwice(m: ConfigMap, s: set<Comparable>, n: ConfigMap, s': set<Comparable>, n': ConfigMap, g: Group, loc: seq<string>)
    requires loc != [] && PlainItems(s, g, loc) && PlainItems(s', g, loc)
    requires Inserted(m, s, n) && Inserted(n, s', n')
    ensures Inserted(m, s + s', n')
  {
    forall c | c in s + s' ensures FqPath(c) in n' && n'[FqPath(c)] == c {
      if c !in s' {
        assert FqPath(c) in n && n[FqPath(c)] == c;
        var k := FqPath(c);
        if n'[k] in s' && FqPath(n'[k]) == k {
          KeyFixesItem(g, loc, c, n'[k]);
        }
      }
    }
  }

  /** The values, or the policies, outside `todo` have valid names, and their items are among `done`. */
  ghost predicate ValuesCovered(g: Group, loc: seq<string>, todo: set<string>, done: set<Comparable>) {
    forall name | name in g.values && name !in todo :: ValidID(name) && Place(loc + [name], ValueElement(g.values[name])) in done
  }

  lemma ValuesCoveredMore(g: Group, loc: seq<string>, todo: set<string>, done: set<Comparable>, added: string)
    requires ValuesCovered(g, loc, todo, done) && added in g.values && ValidID(added)
    ensures ValuesCovered(g, loc, todo - {added}, done + {Place(loc + [added], ValueElement(g.values[added]))})
  {
  }

  ghost predicate PoliciesCovered(g: Group, loc: seq<string>, todo: set<string>, done: set<Comparable>) {
    forall name | name in g.policies && name !in todo :: ValidID(name) && Place(loc + [name], PolicyElement(g.policies[name])) in done
  }

  lemma PoliciesCoveredMore(g: Group, loc: seq<string>, todo: set<string>, done: set<Comparable>, added: string)
    requires PoliciesCovered(g, loc, todo, done) && added in g.policies && ValidID(added)
    ensures PoliciesCovered(g, loc, todo - {added}, done + {Place(loc + [added], PolicyElement(g.policies[added]))})
  {
  }

  /** The sub-groups outside `todo` have valid names all the way down, and their items are among `done`. */
  ghost predicate Covered(g: Group, loc: seq<string>, todo: set<string>, done: set<Comparable>) {
    forall name | name in g.groups && name !in todo ::
      ValidID(name) && ValidNames(g.groups[name]) && Items(g.groups[name], loc + [name]) <= done
  }

  lemma CoveredMore(g: Group, loc: seq<string>, todo: set<string>, done: set<Comparable>, added: string)
    requires Covered(g, loc, todo, done) && added in g.groups && ValidID(added) && ValidNames(g.groups[added])
    ensures Covered(g, loc, todo - {added}, done + Items(g.groups[added], loc + [added]))
  {
  }

  /** The map that `mapConfig` fills. */
  class ConfigMapBuilder {
    var result: ConfigMap

    constructor ()
      ensures result == map[]
    {
      result := map[];
    }

    /** `addToMap`. */
    method AddToMap(cg: Comparable) returns (ok: bool)
      modifies this
      ensures ok <==> ValidID(cg.key)
      ensures result == if ok then old(result)[FqPath(cg) := cg] else old(result)
    {
      ok := ValidateConfigID(cg.key);
      if ok {
        result := result[FqPath(cg) := cg];
      }
    }

    /** `addToMap` of one item of the group. */
    method AddItem(cg: Comparable, ghost g: Group, ghost loc: seq<string>) returns (ok: bool)
      requires loc != [] && cg in Items(g, loc) && AllPlain(cg.path)
      modifies this
      ensures ok <==> ValidID(cg.key)
      ensures ok ==> PlainItems({cg}, g, loc) && Inserted(old(result), {cg}, result)
    {
      ok := AddToMap(cg);
      if ok {
        ValidIDPlain(cg.key);
      }
    }

    /** The values of a group. */
    method AddValues(path: seq<string>, group: Group) returns (ok: bool)
      requires path != [] && AllPlain(path)
      modifies this
      ensures ok <==> forall name | name in group.values :: ValidID(name)
      ensures ok ==> PlainItems(ValueItems(group, path), group, path) && Inserted(old(result), ValueItems(group, path), result)
    {
      var todo := group.values.Keys;
      ghost var done: set<Comparable> := {};
      while todo != {}
        invariant todo <= group.values.Keys
        invariant ValuesCovered(group, path, todo, done)
        invariant done <= ValueItems(group, path)
        invariant PlainItems(done, group, path) && Inserted(old(result), done, result)
        decreases todo
      {
        var name :| name in todo;
        ghost var before := result;
        var cg := Comparable(name, path, ValueElement(group.values[name]));
        assert cg == Place(path + [name], cg.element);
        assert cg in ValueItems(group, path);
        ok := AddItem(cg, group, path);
        if !ok {
          return;
        }
        InsertedTwice(old(result), done, before, {cg}, result, group, path);
        ValuesCoveredMore(group, path, todo, done, name);
        done := done + {cg};
        todo := todo - {name};
      }
      assert done == ValueItems(group, path);
      ok := true;
    }

    /** The policies of a group. */
    method AddPolicies(path: seq<string>, group: Group) returns (ok: bool)
      requires path != [] && AllPlain(path)
      modifies this
      ensures ok <==> forall name | name in group.policies :: ValidID(name)
      ensures ok ==> PlainItems(PolicyItems(group, path), group, path) && Inserted(old(result), PolicyItems(group, path), result)
    {
      var todo := group.policies.Keys;
      ghost var done: set<Comparable> := {};
      while todo != {}
        invariant todo <= group.policies.Keys
        invariant PoliciesCovered(group, path, todo, done)
        invariant done <= PolicyItems(group, path)
        invariant PlainItems(done, group, path) && Inserted(old(result), done, result)
        decreases todo
      {
        var name :| name in todo;
        ghost var before := result;
        var cg := Comparable(name, path, PolicyElement(group.policies[name]));
        assert cg == Place(path + [name], cg.element);
        assert cg in PolicyItems(group, path);
        ok := AddItem(cg, group, path);
        if !ok {
          return;
        }
        InsertedTwice(old(result), done, before, {cg}, result, group, path);
        PoliciesCoveredMore(group, path, todo, done, name);
        done := done + {cg};
        todo := todo - {name};
      }
      assert done == PolicyItems(group, path);
      ok := true;
    }

    /** The sub-groups of a group. */
    method AddGroups(path: seq<string>, group: Group) returns (ok: bool)
      requires path != [] && AllPlain(path)
      modifies this
      ensures ok <==> forall name | name in group.groups :: ValidID(name) && ValidNames(group.groups[name])
      ensures ok ==> PlainItems(NestedItems(group, path), group, path) && Inserted(old(result), NestedItems(group, path), result)
      decreases group, 0
    {
      var todo := group.groups.Keys;
      ghost var done: set<Comparable> := {};
      while todo != {}
        invariant todo <= group.groups.Keys
        invariant Covered(group, path, todo, done)
        invariant done <= NestedItems(group, path)
        invariant PlainItems(done, group, path) && Inserted(old(result), done, result)
        decreases todo
      {
        var name :| name in todo;
        ghost var before := result;
        var nextPath := path + [name];
        assert nextPath[..|nextPath| - 1] == path;
        ok := RecurseConfig(nextPath, group.groups[name]);
        if !ok {
          return;
        }
        ghost var more := Items(group.groups[name], nextPath);
        assert more <= NestedItems(group, path);
        InsertedTwice(old(result), done, before, more, result, group, path);
        CoveredMore(group, path, todo, done, name);
        done := done + more;
        todo := todo - {name};
      }
      assert done == NestedItems(group, path);
      ok := true;
    }

    /** `recurseConfig`. */
    method RecurseConfig(path: seq<string>, group: Group) returns (ok: bool)
      requires path != [] && AllPlain(path[..|path| - 1])
      modifies this
      ensures ok <==> ValidID(path[|path| - 1]) && ValidNames(group)
      ensures ok ==> PlainItems(Items(group, path), group, path) && Inserted(old(result), Items(group, path), result)
      decreases group, 1
    {
      ghost var r0 := result;
      ok := AddItem(Comparable(path[|path| - 1], path[..|path| - 1], GroupElement(group)), group, path);
      if !ok {
        return;
      }
      ValidIDPlain(path[|path| - 1]);
      ghost var own, r1 := {Place(path, GroupElement(group))}, result;
      ok := AddGroups(path, group);
      if !ok {
        return;
      }
      InsertedTwice(r0, own, r1, NestedItems(group, path), result, group, path);
      ghost var r2 := result;
      ok := AddValues(path, group);
      if !ok {
        return;
      }
      InsertedTwice(r0, own + NestedItems(group, path), r2, ValueItems(group, path), result, group, path);
      ghost var r3 := result;
      ok := AddPolicies(path, group);
      if ok {
        InsertedTwice(r0, own + NestedItems(group, path) + ValueItems(group, path), r3, PolicyItems(group, path), result, group, path);
      }
    }
  }

  /** `mapConfig`. */
  method MapConfigInPlace(channelGroup: Option<Group>, rootGroupKey: string) returns (m: Option<ConfigMap>)
    ensures m == MapConfig(channelGroup, rootGroupKey)
  {
    var builder := new ConfigMapBuilder();
    if channelGroup.Some? {
      var ok := builder.RecurseConfig([rootGroupKey], channelGroup.value);
      if !ok {
        return None;
      }
      ItemsDistinct(channelGroup.value, rootGroupKey);
      InsertedIntoEmpty(Items(channelGroup.value, [rootGroupKey]), builder.result);
    }
    m := Some(builder.result);
  }

  lemma InsertedIntoEmpty(s: set<Comparable>, n: ConfigMap)
    requires DistinctKeys(s) && Inserted(map[], s, n)
    ensures n == Keyed(s)
  {
    assert forall k :: k in n <==> k in Keyed(s);
  }

  // ---------------------------------------------------------------------------
  // configMapToConfig
  // ---------------------------------------------------------------------------

  /** The values of a group, copied from the map; `None` when one is missing or misplaced. */
  method CopyValues(path: string, names: set<string>, m: ConfigMap) returns (values: Option<map<string, Value>>)
    ensures values.Some? <==> forall name | name in names :: Holds(m, KeyBelow(VALUE, path, name), VALUE)
    ensures values.Some? ==>
      values.value.Keys == names && forall name | name in names :: values.value[name] == m[KeyBelow(VALUE, path, name)].element.value
  {
    var todo, copied := names, map[];
    while todo != {}
      invariant todo <= names && copied.Keys == names - todo
      invariant forall name | name in copied ::
        Holds(m, KeyBelow(VALUE, path, name), VALUE) && copied[name] == m[KeyBelow(VALUE, path, name)].element.value
      decreases todo
    {
      var name :| name in todo;
      var valuePath := KeyBelow(VALUE, path, name);
      if valuePath !in m || !m[valuePath].element.ValueElement? {
        return None;
      }
      copied := copied[name := m[valuePath].element.value];
      todo := todo - {name};
    }
    values := Some(copied);
  }

  /** The policies of a group, copied from the map. */
  method CopyPolicies(path: string, names: set<string>, m: ConfigMap) returns (policies: Option<map<string, Policy>>)
    ensures policies.Some? <==> forall name | name in names :: Holds(m, KeyBelow(POLICY, path, name), POLICY)
    ensures policies.Some? ==>
      policies.value.Keys == names && forall name | name in names :: policies.value[name] == m[KeyBelow(POLICY, path, name)].element.policy
  {
    var todo, copied := names, map[];
    while todo != {}
      invariant todo <= names && copied.Keys == names - todo
      invariant forall name | name in copied ::
        Holds(m, KeyBelow(POLICY, path, name), POLICY) && copied[name] == m[KeyBelow(POLICY, path, name)].element.policy
      decreases todo
    {
      var name :| name in todo;
      var policyPath := KeyBelow(POLICY, path, name);
      if policyPath !in m || !m[policyPath].element.PolicyElement? {
        return None;
      }
      copied := copied[name := m[policyPath].element.policy];
      todo := todo - {name};
    }
    policies := Some(copied);
  }

  /** The rebuilt sub-groups of a group. */
  method RebuildGroups(path: string, names: set<string>, m: ConfigMap) returns (groups: Option<map<string, Group>>)
    requires Prefix(GROUP) + path in m
    ensures groups.Some? <==> forall name | name in names :: Rebuild(m, path + [SEPARATOR] + name).Some?
    ensures groups.Some? ==>
      groups.value.Keys == names && forall name | name in names :: Some(groups.value[name]) == Rebuild(m, path + [SEPARATOR] + name)
    decreases Longer(m, path), 0
  {
    var todo, rebuilt := names, map[];
    while todo != {}
      invariant todo <= names && rebuilt.Keys == names - todo
      invariant forall name | name in rebuilt :: Some(rebuilt[name]) == Rebuild(m, path + [SEPARATOR] + name)
      decreases todo
    {
      var name :| name in todo;
      LongerShrinks(m, path);
      var updatedGroup := RecurseConfigMap(path + [SEPARATOR] + name, m);
      if updatedGroup.None? {
        return None;
      }
      rebuilt := rebuilt[name := updatedGroup.value];
      todo := todo - {name};
    }
    groups := Some(rebuilt);
  }

  /** `recurseConfigMap`. */
  method RecurseConfigMap(path: string, m: ConfigMap) returns (g: Option<Group>)
    ensures g == Rebuild(m, path)
    decreases Longer(m, path), 1
  {
    var groupPath := Prefix(GROUP) + path;
    if groupPath !in m || !m[groupPath].element.GroupElement? {
      return None;
    }
    var group := m[groupPath].element.group;
    var groups := RebuildGroups(path, group.groups.Keys, m);
    if groups.None? {
      return None;
    }
    var values := CopyValues(path, group.values.Keys, m);
    if values.None? {
      return None;
    }
    var policies := CopyPolicies(path, group.policies.Keys, m);
    if policies.None? {
      return None;
    }
    var copy := Group(group.version, group.modPolicy, groups.value, values.value, policies.value);
    if ORDERER_CAPABILITIES in m {
      copy := UpgradeHere(copy);
    }
    GroupsRebuilt(m, path, groups.value);
    ValuesRebuilt(m, path, values.value);
    PoliciesRebuilt(m, path, policies.value);
    assert copy.groups == groups.value;
    assert copy.values == map name | name in values.value :: UpgradeValue(ORDERER_CAPABILITIES in m, values.value[name]);
    assert copy.policies == map name | name in policies.value :: UpgradeConfigPolicy(ORDERER_CAPABILITIES in m, policies.value[name]);
    g := Some(copy);
  }

  /** A group that can be rebuilt. */
  predicate Rebuildable(m: ConfigMap, path: string) {
    Prefix(GROUP) + path in m && m[Prefix(GROUP) + path].element.GroupElement? && Rebuild(m, path).Some?
  }

  lemma {:induction false} GroupsOfRebuilt(m: ConfigMap, path: string)
    requires Rebuildable(m, path)
    ensures var rebuilt := Rebuild(m, path).value.groups;
            && rebuilt.Keys == m[Prefix(GROUP) + path].element.group.groups.Keys
            && forall name | name in rebuilt :: Some(rebuilt[name]) == Rebuild(m, path + [SEPARATOR] + name)
  {
  }

  lemma {:induction false} GroupsRebuilt(m: ConfigMap, path: string, groups: map<string, Group>)
    requires Rebuildable(m, path) && groups.Keys == m[Prefix(GROUP) + path].element.group.groups.Keys
    requires forall name | name in groups :: Some(groups[name]) == Rebuild(m, path + [SEPARATOR] + name)
    ensures Rebuild(m, path).value.groups == groups
  {
    var rebuilt := Rebuild(m, path).value.groups;
    GroupsOfRebuilt(m, path);
    forall name | name in groups ensures rebuilt[name] == groups[name] {
      assert Some(groups[name]) == Rebuild(m, path + [SEPARATOR] + name);
    }
  }

  lemma ValuesRebuilt(m: ConfigMap, path: string, values: map<string, Value>)
    requires Rebuildable(m, path) && values.Keys == m[Prefix(GROUP) + path].element.group.values.Keys
    requires forall name | name in values ::
      Holds(m, KeyBelow(VALUE, path, name), VALUE) && values[name] == m[KeyBelow(VALUE, path, name)].element.value
    ensures Rebuild(m, path).value.values == map name | name in values :: UpgradeValue(ORDERER_CAPABILITIES in m, values[name])
  {
  }

  lemma PoliciesRebuilt(m: ConfigMap, path: string, policies: map<string, Policy>)
    requires Rebuildable(m, path) && policies.Keys == m[Prefix(GROUP) + path].element.group.policies.Keys
    requires forall name | name in policies ::
      Holds(m, KeyBelow(POLICY, path, name), POLICY) && policies[name] == m[KeyBelow(POLICY, path, name)].element.policy
    ensures Rebuild(m, path).value.policies == map name | name in policies :: UpgradeConfigPolicy(ORDERER_CAPABILITIES in m, policies[name])
  {
  }

  /** The upgrade of a group and of its own values and policies. */
  function UpgradeHere(g: Group): Group {
    Group(
      g.version,
      UpgradePolicy(true, g.modPolicy),
      g.groups,
      map name | name in g.values :: UpgradeValue(true, g.values[name]),
      map name | name in g.policies :: UpgradeConfigPolicy(true, g.policies[name]))
  }

  // ---------------------------------------------------------------------------
  // update.go
  // ---------------------------------------------------------------------------

  method VerifyReadSet<S>(v: Validator<S>, readSet: ConfigMap) returns (ok: bool)
    ensures ok <==> ReadSetMatches(v.configMap, readSet)
  {
    var todo := readSet.Keys;
    while todo != {}
      invariant forall k | k in readSet && k !in todo :: k in v.configMap && Version(v.configMap[k].element) == Version(readSet[k].element)
      invariant todo <= readSet.Keys
      decreases todo
    {
      var key :| key in todo;
      if key !in v.configMap || Version(v.configMap[key].element) != Version(readSet[key].element) {
        return false;
      }
      todo := todo - {key};
    }
    ok := true;
  }

  method ComputeDeltaSet(readSet: ConfigMap, writeSet: ConfigMap) returns (result: ConfigMap)
    ensures result == Delta(readSet, writeSet)
  {
    result := map[];
    var todo := writeSet.Keys;
    while todo != {}
      invariant todo <= writeSet.Keys
      invariant forall k :: k in result <==> k in Delta(readSet, writeSet) && k !in todo
      invariant forall k | k in result :: result[k] == writeSet[k]
      decreases todo
    {
      var key :| key in todo;
      todo := todo - {key};
      if key in readSet && Version(readSet[key].element) == Version(writeSet[key].element) {
        continue;
      }
      result := result[key := writeSet[key]];
    }
  }

  /** The outcome of one element; `panics` says for which existing elements the lookup of the modification policy panics. */
  method VerifyChange<S>(v: Validator<S>, panics: Comparable -> bool, key: string, value: Comparable, signedData: S) returns (r: Outcome<()>)
    requires NoneAuthorised(v, panics, signedData)
    ensures r.Done? <==> ChangeAllowed(v, key, value, signedData)
    ensures r.Panicked? <==> ChangePanics(v, panics, key, value)
  {
    if !ValidModPolicy(ModPolicy(value.element)) {
      return Failed;
    }
    if key !in v.configMap {
      return if Version(value.element) != 0 then Failed else Done(());
    }
    var existing := v.configMap[key];
    if Version(value.element) != Increment(Version(existing.element)) {
      return Failed;
    }
    if panics(existing) {
      return Panicked;
    }
    r := if v.authorizes(existing, signedData) then Done(()) else Failed;
  }

  /** Which of several refused and panicking elements comes first depends on the order of the map. */
  method VerifyDeltaSet<S>(v: Validator<S>, panics: Comparable -> bool, deltaSet: ConfigMap, signedData: S) returns (r: Outcome<()>)
    requires NoneAuthorised(v, panics, signedData)
    ensures r.Done? <==> DeltaAllowed(v, deltaSet, signedData)
    ensures r.Failed? ==> deltaSet == map[] || exists k | k in deltaSet :: ChangeRefused(v, panics, k, deltaSet[k], signedData)
    ensures r.Panicked? ==> exists k | k in deltaSet :: ChangePanics(v, panics, k, deltaSet[k])
  {
    if |deltaSet| == 0 {
      return Failed;
    }
    assert deltaSet != map[];
    var todo := deltaSet.Keys;
    while todo != {}
      invariant todo <= deltaSet.Keys
      invariant forall k | k in deltaSet && k !in todo :: ChangeAllowed(v, k, deltaSet[k], signedData)
      decreases todo
    {
      var key :| key in todo;
      r := VerifyChange(v, panics, key, deltaSet[key], signedData);
      if !r.Done? {
        return;
      }
      todo := todo - {key};
    }
    r := Done(());
  }

  method ComputeUpdateResult<S>(v: Validator<S>, updatedConfig: ConfigMap) returns (newConfigMap: ConfigMap)
    ensures newConfigMap == v.configMap + updatedConfig
  {
    newConfigMap := v.configMap;
    var todo := updatedConfig.Keys;
    while todo != {}
      invariant todo <= updatedConfig.Keys
      invariant newConfigMap.Keys == v.configMap.Keys + (updatedConfig.Keys - todo)
      invariant forall k | k in newConfigMap ::
        newConfigMap[k] == if k in updatedConfig && k !in todo then updatedConfig[k] else v.configMap[k]
      decreases todo
    {
      var key :| key in todo;
      newConfigMap := newConfigMap[key := updatedConfig[key]];
      todo := todo - {key};
    }
  }

  /** It panics only where a panic can be reached, and there for certain when no element is refused. */
  method AuthorizeUpdateInPlace<S>(v: Validator<S>, panics: Comparable -> bool, env: UpdateEnvelope<S>) returns (full: Outcome<ConfigMap>)
    requires env.signed.Some? ==> NoneAuthorised(v, panics, env.signed.value)
    ensures full.Done? <==> AuthorizeUpdate(v, env).Some?
    ensures full.Done? ==> AuthorizeUpdate(v, env) == Some(full.value)
    ensures full.Panicked? ==> UpdatePanics(v, panics, env)
    ensures MustPanic(v, panics, env) ==> full.Panicked?
  {
    if env.update.None? || env.update.value.channelId != v.channelID {
      return Failed;
    }
    var readSet := MapConfigInPlace(env.update.value.readSet, v.namespace);
    if readSet.None? {
      return Failed;
    }
    var ok := VerifyReadSet(v, readSet.value);
    if !ok {
      return Failed;
    }
    var writeSet := MapConfigInPlace(env.update.value.writeSet, v.namespace);
    if writeSet.None? || env.signed.None? {
      return Failed;
    }
    var deltaSet := ComputeDeltaSet(readSet.value, writeSet.value);
    var verified := VerifyDeltaSet(v, panics, deltaSet, env.signed.value);
    if verified.Panicked? {
      return Panicked;
    }
    if verified.Failed? {
      return Failed;
    }
    var proposed := ComputeUpdateResult(v, deltaSet);
    full := if writeSet.value.Keys <= proposed.Keys then Done(proposed) else Failed;
  }
}
