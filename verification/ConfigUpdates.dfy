/**
 Validation of configuration updates (common/configtx/update.go and validator.go): a read set pins
 versions, the write set gives a delta, every changed element must be authorised by its current
 modification policy, and the overlaid map is rebuilt into the next configuration.
 */
module ConfigUpdates {
  import opened ConfigMaps
  import opened ConfigRebuild
  import opened ConfigTree
  import opened Paths
  import opened Words
  import opened Wrappers

  datatype ConfigUpdate = ConfigUpdate(channelId: string, readSet: Option<Group>, writeSet: Option<Group>)

  /** A CONFIG_UPDATE envelope: the update and the signatures, each unset when it does not decode. */
  datatype UpdateEnvelope<S> = UpdateEnvelope(update: Option<ConfigUpdate>, signed: Option<S>)

  datatype Config = Config(sequence: uint64, channelGroup: Option<Group>)

  datatype ConfigEnvelope<S> = ConfigEnvelope(config: Option<Config>, lastUpdate: UpdateEnvelope<S>)

  /**
   A `ValidatorImpl`.  `authorizes` stands for finding the modification policy of an element and
   evaluating it on the signatures.
   */
  datatype Validator<!S> = Validator(
    channelID: string,
    sequence: uint64,
    configMap: ConfigMap,
    namespace: string,
    authorizes: (Comparable, S) -> bool)

  // ---------------------------------------------------------------------------
  // The checks
  // ---------------------------------------------------------------------------

  /** `verifyReadSet`. */
  predicate ReadSetMatches(m: ConfigMap, readSet: ConfigMap) {
    forall k | k in readSet :: k in m && Version(m[k].element) == Version(readSet[k].element)
  }

  /** `computeDeltaSet`: the written elements whose version differs from the one read. */
  function Delta(readSet: ConfigMap, writeSet: ConfigMap): ConfigMap {
    map k | k in writeSet && !(k in readSet && Version(readSet[k].element) == Version(writeSet[k].element)) :: writeSet[k]
  }

  /** `strings.Split` at the separator. */
  function Split(s: string): (parts: seq<string>)
    ensures |parts| > 0
  {
    if s == "" then [""]
    else if s[0] == SEPARATOR then [""] + Split(s[1..])
    else
      var rest := Split(s[1..]);
      [[s[0]] + rest[0]] + rest[1..]
  }

  /** `validateModPolicy`. */
  predicate ValidModPolicy(s: string) {
    s != "" && AllValid(Split(if s[0] == SEPARATOR then s[1..] else s))
  }

  /** One element of the delta set passes `verifyDeltaSet`. */
  predicate ChangeAllowed<S>(v: Validator<S>, k: string, c: Comparable, signed: S) {
    && ValidModPolicy(ModPolicy(c.element))
    && if k !in v.configMap then Version(c.element) == 0
       else Version(c.element) == Increment(Version(v.configMap[k].element)) && v.authorizes(v.configMap[k], signed)
  }

  /** `verifyDeltaSet`. */
  predicate DeltaAllowed<S>(v: Validator<S>, delta: ConfigMap, signed: S) {
    delta != map[] && forall k | k in delta :: ChangeAllowed(v, k, delta[k], signed)
  }

  /** One element of the delta set makes `verifyDeltaSet` panic in the lookup of the modification policy of the existing element. */
  predicate ChangePanics<S>(v: Validator<S>, panics: Comparable -> bool, k: string, c: Comparable) {
    && ValidModPolicy(ModPolicy(c.element))
    && k in v.configMap && Version(c.element) == Increment(Version(v.configMap[k].element)) && panics(v.configMap[k])
  }

  /** One element of the delta set makes `verifyDeltaSet` return an error. */
  predicate ChangeRefused<S>(v: Validator<S>, panics: Comparable -> bool, k: string, c: Comparable, signed: S) {
    !ChangeAllowed(v, k, c, signed) && !ChangePanics(v, panics, k, c)
  }

  /** No element whose lookup panics is authorised. */
  ghost predicate NoneAuthorised<S>(v: Validator<S>, panics: Comparable -> bool, signed: S) {
    forall k | k in v.configMap && panics(v.configMap[k]) :: !v.authorizes(v.configMap[k], signed)
  }

  /** `authorizeUpdate`; `None` is any of its errors. */
  function AuthorizeUpdate<S>(v: Validator<S>, env: UpdateEnvelope<S>): Option<ConfigMap> {
    if env.update.None? || env.update.value.channelId != v.channelID then None
    else
      var readSet := MapConfig(env.update.value.readSet, v.namespace);
      if readSet.None? || !ReadSetMatches(v.configMap, readSet.value) then None
      else
        var writeSet := MapConfig(env.update.value.writeSet, v.namespace);
        if writeSet.None? || env.signed.None? then None
        else
          var delta := Delta(readSet.value, writeSet.value);
          var full := v.configMap + delta;
          if DeltaAllowed(v, delta, env.signed.value) && writeSet.value.Keys <= full.Keys then Some(full) else None
  }

  /** `authorizeUpdate` gets to the delta set and may panic there. */
  ghost predicate UpdatePanics<S>(v: Validator<S>, panics: Comparable -> bool, env: UpdateEnvelope<S>) {
    && env.update.Some? && env.signed.Some? && env.update.value.channelId == v.channelID
    && var readSet := MapConfig(env.update.value.readSet, v.namespace);
       var writeSet := MapConfig(env.update.value.writeSet, v.namespace);
       && readSet.Some? && writeSet.Some? && ReadSetMatches(v.configMap, readSet.value)
       && exists k | k in Delta(readSet.value, writeSet.value) :: ChangePanics(v, panics, k, Delta(readSet.value, writeSet.value)[k])
  }

  /** Nothing else stops it: no element of the delta set is refused, so the panic comes whatever the order of the map. */
  ghost predicate MustPanic<S>(v: Validator<S>, panics: Comparable -> bool, env: UpdateEnvelope<S>) {
    && UpdatePanics(v, panics, env)
    && var delta := Delta(MapConfig(env.update.value.readSet, v.namespace).value, MapConfig(env.update.value.writeSet, v.namespace).value);
       forall k | k in delta :: !ChangeRefused(v, panics, k, delta[k], env.signed.value)
  }

  /** `proposeConfigUpdate`: the configuration of the envelope it returns. */
  function ProposeConfigUpdate<S>(v: Validator<S>, env: UpdateEnvelope<S>): Option<Config> {
    var full := AuthorizeUpdate(v, env);
    if full.None? then None
    else
      var group := ConfigMapToConfig(full.value, v.namespace);
      if group.None? then None else Some(Config(Increment(v.sequence), group))
  }

  /** `Validate`. */
  predicate Validate<S>(v: Validator<S>, env: ConfigEnvelope<S>) {
    && env.config.Some?
    && env.config.value.sequence == Increment(v.sequence)
    && AuthorizeUpdate(v, env.lastUpdate).Some?
    && ConfigMapToConfig(AuthorizeUpdate(v, env.lastUpdate).value, v.namespace).Some?
    && ConfigMapToConfig(AuthorizeUpdate(v, env.lastUpdate).value, v.namespace) == env.config.value.channelGroup
  }

  /** `NewValidatorImpl`. */
  function NewValidator<S>(channelID: string, config: Option<Config>, namespace: string, authorizes: (Comparable, S) -> bool)
    : Option<Validator<S>>
  {
    if config.None? || config.value.channelGroup.None? || !ValidChannelID(channelID) then None
    else
      var m := MapConfig(config.value.channelGroup, namespace);
      if m.None? then None else Some(Validator(channelID, config.value.sequence, m.value, namespace, authorizes))
  }

  // ---------------------------------------------------------------------------
  // Totality of the rebuild
  // ---------------------------------------------------------------------------

  /** The validator was built from the tree. */
  ghost predicate Built<S>(v: Validator<S>, g: Group) {
    MapConfig(Some(g), v.namespace) == Some(v.configMap)
  }

  /** Everything written was read at that version or is in the delta, so `verifyFullProposedConfig` passes. */
  lemma WriteSetCovered(m: ConfigMap, readSet: ConfigMap, writeSet: ConfigMap)
    requires ReadSetMatches(m, readSet)
    ensures writeSet.Keys <= (m + Delta(readSet, writeSet)).Keys
  {
    forall k | k in writeSet ensures k in m + Delta(readSet, writeSet) {
      assert k in Delta(readSet, writeSet) || k in readSet;
    }
  }

  /** Overlaying elements of a closed map whose keys are all covered keeps a map closed. */
  lemma OverlayClosed(m: ConfigMap, writeSet: ConfigMap, delta: ConfigMap)
    requires Closed(m) && Closed(writeSet)
    requires forall k | k in delta :: k in writeSet && delta[k] == writeSet[k]
    requires writeSet.Keys <= (m + delta).Keys
    ensures Closed(m + delta)
  {
    var full := m + delta;
    assert WellPlaced(full);
    forall k | k in full ensures MembersPresent(full, full[k]) {
      if k in delta {
        MembersStayPresent(writeSet, full, full[k]);
      } else {
        MembersStayPresent(m, full, full[k]);
      }
    }
  }

  lemma MembersStayPresent(m: ConfigMap, full: ConfigMap, c: Comparable)
    requires MembersPresent(m, c) && m.Keys <= full.Keys
    ensures MembersPresent(full, c)
  {
    forall kind, name | name in Members(FaceOf(c.element), kind) ensures ValidID(name) && Fq(kind, Loc(c) + [name]) in full {
      assert Fq(kind, Loc(c) + [name]) in m.Keys;
    }
  }

  lemma WriteMapClosed(g: Option<Group>, root: string)
    requires MapConfig(g, root).Some?
    ensures Closed(MapConfig(g, root).value)
  {
    if g.Some? {
      MapClosed(g.value, root);
    }
  }

  /** The authorised map is closed and holds the root. */
  lemma AuthorizedClosed<S>(v: Validator<S>, g: Group, env: UpdateEnvelope<S>)
    requires Built(v, g) && AuthorizeUpdate(v, env).Some?
    ensures Closed(AuthorizeUpdate(v, env).value) && AllPlain([v.namespace])
    ensures Fq(GROUP, [v.namespace]) in AuthorizeUpdate(v, env).value
  {
    MapClosed(g, v.namespace);
    WriteMapClosed(env.update.value.writeSet, v.namespace);
    var readSet := MapConfig(env.update.value.readSet, v.namespace).value;
    var writeSet := MapConfig(env.update.value.writeSet, v.namespace).value;
    OverlayClosed(v.configMap, writeSet, Delta(readSet, writeSet));
  }

  /** Once the read set and the delta set pass, nothing later can fail. */
  lemma AuthorizedRebuilds<S>(v: Validator<S>, g: Group, env: UpdateEnvelope<S>)
    requires Built(v, g) && AuthorizeUpdate(v, env).Some?
    ensures ConfigMapToConfig(AuthorizeUpdate(v, env).value, v.namespace).Some?
    ensures ProposeConfigUpdate(v, env).Some?
    ensures ValidNames(ProposeConfigUpdate(v, env).value.channelGroup.value)
  {
    AuthorizedClosed(v, g, env);
    SlashedRoot(v.namespace);
    RebuildTotal(AuthorizeUpdate(v, env).value, [v.namespace]);
    RebuiltNamesValid(AuthorizeUpdate(v, env).value, [v.namespace]);
  }

  /**
   An update is proposed exactly when it decodes, is for this channel and signed, its names are valid, and its read set
   and its delta set pass their checks.
   */
  lemma ProposedIff<S>(v: Validator<S>, g: Group, env: UpdateEnvelope<S>)
    requires Built(v, g)
    ensures ProposeConfigUpdate(v, env).Some? <==>
      && env.update.Some? && env.signed.Some? && env.update.value.channelId == v.channelID
      && MapConfig(env.update.value.readSet, v.namespace).Some? && MapConfig(env.update.value.writeSet, v.namespace).Some?
      && var readSet := MapConfig(env.update.value.readSet, v.namespace).value;
         var writeSet := MapConfig(env.update.value.writeSet, v.namespace).value;
         ReadSetMatches(v.configMap, readSet) && DeltaAllowed(v, Delta(readSet, writeSet), env.signed.value)
  {
    if && env.update.Some? && env.signed.Some? && env.update.value.channelId == v.channelID
       && MapConfig(env.update.value.readSet, v.namespace).Some? && MapConfig(env.update.value.writeSet, v.namespace).Some? {
      var readSet := MapConfig(env.update.value.readSet, v.namespace).value;
      var writeSet := MapConfig(env.update.value.writeSet, v.namespace).value;
      if ReadSetMatches(v.configMap, readSet) && DeltaAllowed(v, Delta(readSet, writeSet), env.signed.value) {
        WriteSetCovered(v.configMap, readSet, writeSet);
        AuthorizedRebuilds(v, g, env);
      }
    }
  }

  /** `Validate` accepts exactly the configuration that `proposeConfigUpdate` yields for the same update. */
  lemma ValidateIffProposed<S>(v: Validator<S>, env: ConfigEnvelope<S>)
    ensures Validate(v, env) <==> env.config.Some? && ProposeConfigUpdate(v, env.lastUpdate) == env.config
  {
  }

  /** A proposed configuration can always be installed: a validator can be created from it. */
  lemma ProposedInstalls<S>(v: Validator<S>, g: Group, env: UpdateEnvelope<S>, authorizes: (Comparable, S) -> bool)
    requires Built(v, g) && ValidChannelID(v.channelID)
    requires ProposeConfigUpdate(v, env).Some?
    ensures var next := NewValidator(v.channelID, ProposeConfigUpdate(v, env), v.namespace, authorizes);
            next.Some? && next.value.sequence == Increment(v.sequence)
            && Built(next.value, ProposeConfigUpdate(v, env).value.channelGroup.value)
  {
    AuthorizedRebuilds(v, g, env);
  }

  // ---------------------------------------------------------------------------
  // What an accepted update can change
  // ---------------------------------------------------------------------------

  /** The update turns the tree `g` of the validator into the tree `t`. */
  ghost predicate Applies<S>(v: Validator<S>, g: Group, env: UpdateEnvelope<S>, t: Group) {
    Built(v, g) && ProposeConfigUpdate(v, env) == Some(Config(Increment(v.sequence), Some(t)))
  }

  function Location<S>(v: Validator<S>, rel: seq<string>): seq<string> {
    [v.namespace] + rel
  }

  /** Whether the update switched the upgrade of empty modification policies on. */
  ghost predicate Upgrades<S>(v: Validator<S>, env: UpdateEnvelope<S>) {
    AuthorizeUpdate(v, env).Some? && UpgradeOn(AuthorizeUpdate(v, env).value)
  }

  /** The changes of an update, under their keys. */
  ghost function Changes<S>(v: Validator<S>, env: UpdateEnvelope<S>): ConfigMap
    requires AuthorizeUpdate(v, env).Some?
  {
    Delta(MapConfig(env.update.value.readSet, v.namespace).value, MapConfig(env.update.value.writeSet, v.namespace).value)
  }

  /** The element is in both trees and shows the same face, up to the upgrade. */
  ghost predicate Unchanged<S>(v: Validator<S>, env: UpdateEnvelope<S>, g: Group, t: Group, rel: seq<string>, kind: Kind) {
    FaceAt(g, rel, kind).Some? && FaceAt(t, rel, kind) == Some(UpgradeFace(Upgrades(v, env), FaceAt(g, rel, kind).value))
  }

  /** The element is in both trees, one version up, and its old modification policy was satisfied. */
  ghost predicate Bumped<S>(v: Validator<S>, env: UpdateEnvelope<S>, g: Group, t: Group, rel: seq<string>, kind: Kind) {
    && FaceAt(g, rel, kind).Some? && FaceAt(t, rel, kind).Some?
    && FaceVersion(FaceAt(t, rel, kind).value) == Increment(FaceVersion(FaceAt(g, rel, kind).value))
    && env.signed.Some? && v.authorizes(Place(Location(v, rel), Lookup(g, rel, kind).value), env.signed.value)
  }

  /** What an element of the new tree shows comes from the changes or from the old map. */
  lemma NewFace<S>(v: Validator<S>, g: Group, env: UpdateEnvelope<S>, t: Group, rel: seq<string>, kind: Kind)
    requires Applies(v, g, env, t) && FaceAt(t, rel, kind).Some?
    ensures var k, delta := Fq(kind, Location(v, rel)), Changes(v, env);
            && AllPlain(Location(v, rel))
            && (k in delta || k in v.configMap)
            && FaceAt(t, rel, kind) == Some(UpgradeFace(Upgrades(v, env), FaceOf((if k in delta then delta[k] else v.configMap[k]).element)))
  {
    var full := AuthorizeUpdate(v, env).value;
    AuthorizedClosed(v, g, env);
    SlashedRoot(v.namespace);
    RebuiltFace(full, [v.namespace], t, rel, kind);
  }

  /** A key of the old map is the key of an element of the old tree. */
  lemma OldEntry<S>(v: Validator<S>, g: Group, rel: seq<string>, kind: Kind)
    requires Built(v, g) && AllPlain(Location(v, rel))
    ensures Fq(kind, Location(v, rel)) in v.configMap <==> Lookup(g, rel, kind).Some?
    ensures Lookup(g, rel, kind).Some? ==> v.configMap[Fq(kind, Location(v, rel))] == Place(Location(v, rel), Lookup(g, rel, kind).value)
  {
    if Lookup(g, rel, kind).Some? {
      MapHas(g, v.namespace, rel, kind);
    }
    if Fq(kind, Location(v, rel)) in v.configMap {
      var rel', kind' := MapOnly(g, v.namespace, Fq(kind, Location(v, rel)));
      FqInjective(kind, Location(v, rel), kind', [v.namespace] + rel');
      assert rel == Location(v, rel)[1..] == ([v.namespace] + rel')[1..] == rel';
    }
  }

  lemma ChangeChecked<S>(v: Validator<S>, env: UpdateEnvelope<S>, k: string)
    requires AuthorizeUpdate(v, env).Some? && k in Changes(v, env)
    ensures env.signed.Some? && ChangeAllowed(v, k, Changes(v, env)[k], env.signed.value)
  {
  }

  lemma ChangedFace<S>(v: Validator<S>, g: Group, env: UpdateEnvelope<S>, t: Group, rel: seq<string>, kind: Kind)
    requires Applies(v, g, env, t) && FaceAt(t, rel, kind).Some? && Fq(kind, Location(v, rel)) in Changes(v, env)
    ensures FaceVersion(FaceAt(t, rel, kind).value) == Version(Changes(v, env)[Fq(kind, Location(v, rel))].element)
  {
    NewFace(v, g, env, t, rel, kind);
    VersionOfFace(Changes(v, env)[Fq(kind, Location(v, rel))].element);
  }

  lemma VersionOfFace(e: Element)
    ensures FaceVersion(FaceOf(e)) == Version(e)
  {
  }

  /** An element in both trees is unchanged, or one version up with its old modification policy satisfied. */
  lemma SurvivorAuthorised<S>(v: Validator<S>, g: Group, env: UpdateEnvelope<S>, t: Group, rel: seq<string>, kind: Kind)
    requires Applies(v, g, env, t)
    requires FaceAt(g, rel, kind).Some? && FaceAt(t, rel, kind).Some?
    ensures if Fq(kind, Location(v, rel)) in Changes(v, env) then Bumped(v, env, g, t, rel, kind) else Unchanged(v, env, g, t, rel, kind)
  {
    NewFace(v, g, env, t, rel, kind);
    OldEntry(v, g, rel, kind);
    var k := Fq(kind, Location(v, rel));
    if k in Changes(v, env) {
      ChangeChecked(v, env, k);
      ChangedFace(v, g, env, t, rel, kind);
      VersionOfFace(Lookup(g, rel, kind).value);
    }
  }

  /** An added element starts at version 0. */
  lemma AddedAtZero<S>(v: Validator<S>, g: Group, env: UpdateEnvelope<S>, t: Group, rel: seq<string>, kind: Kind)
    requires Applies(v, g, env, t)
    requires FaceAt(g, rel, kind).None? && FaceAt(t, rel, kind).Some?
    ensures FaceVersion(FaceAt(t, rel, kind).value) == 0
  {
    NewFace(v, g, env, t, rel, kind);
    OldEntry(v, g, rel, kind);
    ChangeChecked(v, env, Fq(kind, Location(v, rel)));
    ChangedFace(v, g, env, t, rel, kind);
  }

  lemma ParentBumped<S>(v: Validator<S>, g: Group, env: UpdateEnvelope<S>, t: Group, parent: seq<string>, name: string, kind: Kind)
    requires Applies(v, g, env, t)
    requires FaceAt(g, parent, GROUP).Some? && FaceAt(t, parent, GROUP).Some?
    requires name in Members(FaceAt(g, parent, GROUP).value, kind) <==> name !in Members(FaceAt(t, parent, GROUP).value, kind)
    ensures Bumped(v, env, g, t, parent, GROUP) && Fq(GROUP, Location(v, parent)) in Changes(v, env)
  {
    SurvivorAuthorised(v, g, env, t, parent, GROUP);
  }

  /** A tree that has an element and one that has not part at some common group: the deepest one. */
  lemma {:induction false} PartingGroup(g: Group, t: Group, rel: seq<string>, kind: Kind) returns (n: nat, kind': Kind)
    requires FaceAt(g, rel, kind).Some? <==> FaceAt(t, rel, kind).None?
    ensures n < |rel| && FaceAt(g, rel[..n], GROUP).Some? && FaceAt(t, rel[..n], GROUP).Some?
    ensures rel[n] in Members(FaceAt(g, rel[..n], GROUP).value, kind') <==> rel[n] !in Members(FaceAt(t, rel[..n], GROUP).value, kind')
    decreases |rel|
  {
    assert rel != [];
    n, kind' := |rel| - 1, kind;
    var parent := rel[..n];
    PresentIffListed(g, rel, kind);
    PresentIffListed(t, rel, kind);
    if !(FaceAt(g, parent, GROUP).Some? && FaceAt(t, parent, GROUP).Some?) {
      n, kind' := PartingGroup(g, t, parent, GROUP);
      assert parent[..n] == rel[..n] && parent[n] == rel[n];
    }
  }

  /** An element added or removed lies below a group that survived and was bumped. */
  lemma MembershipAuthorised<S>(v: Validator<S>, g: Group, env: UpdateEnvelope<S>, t: Group, rel: seq<string>, kind: Kind)
    returns (n: nat)
    requires Applies(v, g, env, t)
    requires FaceAt(g, rel, kind).Some? <==> FaceAt(t, rel, kind).None?
    ensures n < |rel| && Bumped(v, env, g, t, rel[..n], GROUP) && Fq(GROUP, Location(v, rel[..n])) in Changes(v, env)
  {
    var kind';
    n, kind' := PartingGroup(g, t, rel, kind);
    ParentBumped(v, g, env, t, rel[..n], rel[n], kind');
  }

  // ---------------------------------------------------------------------------
  // Replays and conflicting updates
  // ---------------------------------------------------------------------------

  /** An update that changes the tree beyond the upgrade bumps an element that survives. */
  lemma SomethingBumped<S>(v: Validator<S>, g: Group, env: UpdateEnvelope<S>, t: Group) returns (rel: seq<string>, kind: Kind)
    requires Applies(v, g, env, t) && t != UpgradeTree(Upgrades(v, env), g)
    ensures Bumped(v, env, g, t, rel, kind) && Fq(kind, Location(v, rel)) in Changes(v, env)
  {
    var u := UpgradeTree(Upgrades(v, env), g);
    if SameFaces(t, u) {
      FacesDetermineTree(t, u);
    }
    rel, kind :| FaceAt(t, rel, kind) != FaceAt(u, rel, kind);
    FaceAtUpgraded(Upgrades(v, env), g, rel, kind);
    if FaceAt(g, rel, kind).Some? && FaceAt(t, rel, kind).Some? {
      SurvivorAuthorised(v, g, env, t, rel, kind);
    } else {
      var n := MembershipAuthorised(v, g, env, t, rel, kind);
      rel, kind := rel[..n], GROUP;
    }
  }

  /** The changes of an update do not depend on the configuration it is applied to. */
  lemma SameChanges<S>(v: Validator<S>, w: Validator<S>, env: UpdateEnvelope<S>)
    requires v.namespace == w.namespace && AuthorizeUpdate(v, env).Some? && AuthorizeUpdate(w, env).Some?
    ensures Changes(v, env) == Changes(w, env)
  {
  }

  /** A change is refused wherever the element already stands at the version it would set. */
  lemma RefusedAtOwnVersion<S>(w: Validator<S>, t: Group, env: UpdateEnvelope<S>, rel: seq<string>, kind: Kind, delta: ConfigMap)
    requires Built(w, t) && FaceAt(t, rel, kind).Some? && Fq(kind, Location(w, rel)) in delta
    requires FaceVersion(FaceAt(t, rel, kind).value) == Version(delta[Fq(kind, Location(w, rel))].element)
    requires AuthorizeUpdate(w, env).Some? ==> Changes(w, env) == delta
    ensures ProposeConfigUpdate(w, env).None?
  {
    MapHas(t, w.namespace, rel, kind);
    VersionOfFace(Lookup(t, rel, kind).value);
    if AuthorizeUpdate(w, env).Some? {
      ChangeChecked(w, env, Fq(kind, Location(w, rel)));
    }
  }

  /** An update that changed the tree, beyond the upgrade, is refused if it is replayed on the result. */
  lemma ReplayRefused<S>(v: Validator<S>, g: Group, env: UpdateEnvelope<S>, t: Group, w: Validator<S>)
    requires Applies(v, g, env, t) && t != UpgradeTree(Upgrades(v, env), g)
    requires Built(w, t) && w.namespace == v.namespace
    ensures ProposeConfigUpdate(w, env).None?
  {
    var rel, kind := SomethingBumped(v, g, env, t);
    ChangedFace(v, g, env, t, rel, kind);
    if AuthorizeUpdate(w, env).Some? {
      SameChanges(v, w, env);
    }
    RefusedAtOwnVersion(w, t, env, rel, kind, Changes(v, env));
  }

  /** A tree that holds an element holds the groups above it. */
  lemma {:induction false} GroupsAbove(g: Group, rel: seq<string>, kind: Kind, n: nat)
    requires Lookup(g, rel, kind).Some? && n < |rel|
    ensures Lookup(g, rel[..n], GROUP).Some?
    decreases |rel|
  {
    var parent := rel[..|rel| - 1];
    if n < |parent| {
      assert parent[..n] == rel[..n];
      GroupsAbove(g, parent, GROUP, n);
    }
  }

  /** The map of a tree holds, with an element, the groups above it. */
  lemma MappedAbove(g: Option<Group>, root: string, rel: seq<string>, kind: Kind, n: nat)
    requires MapConfig(g, root).Some? && Fq(kind, [root] + rel) in MapConfig(g, root).value && AllPlain([root] + rel) && n < |rel|
    ensures Fq(GROUP, [root] + rel[..n]) in MapConfig(g, root).value
  {
    var rel', kind' := MapOnly(g.value, root, Fq(kind, [root] + rel));
    FqInjective(kind, [root] + rel, kind', [root] + rel');
    assert rel == ([root] + rel)[1..] == ([root] + rel')[1..] == rel';
    GroupsAbove(g.value, rel, kind, n);
    MapHas(g.value, root, rel[..n], GROUP);
  }

  /** The first update bumped an element that survives it, and the second writes that element: after the first the second is refused. */
  lemma WrittenConflict<S>(v: Validator<S>, g: Group, first: UpdateEnvelope<S>, t: Group, second: UpdateEnvelope<S>, t': Group,
                           w: Validator<S>, rel: seq<string>, kind: Kind)
    requires Applies(v, g, first, t) && Applies(v, g, second, t')
    requires FaceAt(g, rel, kind).Some? && FaceAt(t, rel, kind).Some? && Fq(kind, Location(v, rel)) in Changes(v, first)
    requires Fq(kind, Location(v, rel)) in MapConfig(second.update.value.writeSet, v.namespace).value
    requires Built(w, t) && w.namespace == v.namespace
    ensures ProposeConfigUpdate(w, second).None?
  {
    var k := Fq(kind, Location(v, rel));
    SurvivorAuthorised(v, g, first, t, rel, kind);
    NamesPlainHere(v, g, rel, kind);
    OldEntry(v, g, rel, kind);
    OldEntry(w, t, rel, kind);
    VersionOfFace(Lookup(g, rel, kind).value);
    VersionOfFace(Lookup(t, rel, kind).value);
    if k in Changes(v, second) {
      ChangeChecked(v, second, k);
      if AuthorizeUpdate(w, second).Some? {
        SameChanges(v, w, second);
      }
      RefusedAtOwnVersion(w, t, second, rel, kind, Changes(v, second));
    } else {
      ReadAndKept(v, second, k);
      if AuthorizeUpdate(w, second).Some? {
        ReadCurrent(w, second, k);
      }
    }
  }

  /** What an update writes without changing it, it read at the version it wrote, and that is the current one. */
  lemma ReadAndKept<S>(v: Validator<S>, env: UpdateEnvelope<S>, k: string)
    requires AuthorizeUpdate(v, env).Some? && k in MapConfig(env.update.value.writeSet, v.namespace).value && k !in Changes(v, env)
    ensures k in MapConfig(env.update.value.readSet, v.namespace).value
    ensures k in v.configMap && Version(v.configMap[k].element) == Version(MapConfig(env.update.value.readSet, v.namespace).value[k].element)
  {
  }

  lemma ReadCurrent<S>(v: Validator<S>, env: UpdateEnvelope<S>, k: string)
    requires AuthorizeUpdate(v, env).Some? && k in MapConfig(env.update.value.readSet, v.namespace).value
    ensures k in v.configMap && Version(v.configMap[k].element) == Version(MapConfig(env.update.value.readSet, v.namespace).value[k].element)
  {
  }

  /**
   Of two updates that bump one existing element of a configuration, the second is refused after the
   first: the element stands at the version both set, or it is gone and the group that lost it stands at a version
   that the second update, which writes that group too, neither read nor sets.
   */
  lemma ConflictRefused<S>(v: Validator<S>, g: Group, first: UpdateEnvelope<S>, t: Group, second: UpdateEnvelope<S>, t': Group,
                           w: Validator<S>, rel: seq<string>, kind: Kind)
    requires Applies(v, g, first, t) && Applies(v, g, second, t')
    requires FaceAt(g, rel, kind).Some?
    requires Fq(kind, Location(v, rel)) in Changes(v, first) && Fq(kind, Location(v, rel)) in Changes(v, second)
    requires Built(w, t) && w.namespace == v.namespace
    ensures ProposeConfigUpdate(w, second).None?
  {
    if FaceAt(t, rel, kind).Some? {
      WrittenConflict(v, g, first, t, second, t', w, rel, kind);
    } else {
      var n := MembershipAuthorised(v, g, first, t, rel, kind);
      NamesPlainHere(v, g, rel, kind);
      MappedAbove(second.update.value.writeSet, v.namespace, rel, kind, n);
      WrittenConflict(v, g, first, t, second, t', w, rel[..n], GROUP);
    }
  }

  lemma NamesPlainHere<S>(v: Validator<S>, g: Group, rel: seq<string>, kind: Kind)
    requires Built(v, g) && Lookup(g, rel, kind).Some?
    ensures AllPlain(Location(v, rel))
  {
    NamesPlain(g, rel, kind);
    ValidIDPlain(v.namespace);
  }

  // ---------------------------------------------------------------------------
  // The smallest update
  // ---------------------------------------------------------------------------

  /** A configuration of nothing but its root group. */
  function Lone(version: uint64, modPolicy: string): Group {
    Group(version, modPolicy, map[], map[], map[])
  }

  lemma LoneMap(version: uint64, modPolicy: string, root: string)
    requires ValidID(root)
    ensures var c := Place([root], GroupElement(Lone(version, modPolicy)));
            MapConfig(Some(Lone(version, modPolicy)), root) == Some(map[Fq(GROUP, [root]) := c])
  {
    var g := Lone(version, modPolicy);
    var c := Place([root], GroupElement(g));
    assert Items(g, [root]) == {c};
    FqPathIsFq(c);
    var m := MapConfig(Some(g), root).value;
    assert m == map[Fq(GROUP, [root]) := c];
  }

  lemma LoneRebuilds(version: uint64, modPolicy: string, root: string, m: ConfigMap)
    requires m == map[Fq(GROUP, [root]) := Place([root], GroupElement(Lone(version, modPolicy)))]
    ensures ConfigMapToConfig(m, root) == Some(Lone(version, modPolicy))
  {
    SlashedRoot(root);
    assert Fq(GROUP, [root])[1] == 'G';
    assert ORDERER_CAPABILITIES[1] == 'V';
    var g := ConfigMapToConfig(m, root).value;
    assert g.groups == map[] && g.values == map[] && g.policies == map[];
  }

  lemma LoneDelta(version: uint64, modPolicy: string, root: string)
    requires ValidID(root)
    ensures var g, t := Lone(version, modPolicy), Lone(Increment(version), modPolicy);
            var writeSet := map[Fq(GROUP, [root]) := Place([root], GroupElement(t))];
            && MapConfig(Some(g), root).Some? && MapConfig(Some(t), root) == Some(writeSet)
            && Delta(MapConfig(Some(g), root).value, writeSet) == writeSet
            && MapConfig(Some(g), root).value + writeSet == writeSet
  {
    LoneMap(version, modPolicy, root);
    LoneMap(Increment(version), modPolicy, root);
  }

  /** An update that bumps a lone root group is accepted exactly when the group's modification policy is satisfied. */
  lemma {:induction false} LoneRootUpdate<S>(v: Validator<S>, version: uint64, modPolicy: string, signed: S)
    requires ValidID(v.namespace) && ValidModPolicy(modPolicy) && Built(v, Lone(version, modPolicy))
    ensures var g, t := Lone(version, modPolicy), Lone(Increment(version), modPolicy);
            var env := UpdateEnvelope(Some(ConfigUpdate(v.channelID, Some(g), Some(t))), Some(signed));
            Applies(v, g, env, t) <==> v.authorizes(Place([v.namespace], GroupElement(g)), signed)
  {
    var g, t := Lone(version, modPolicy), Lone(Increment(version), modPolicy);
    var env := UpdateEnvelope(Some(ConfigUpdate(v.channelID, Some(g), Some(t))), Some(signed));
    LoneDelta(version, modPolicy, v.namespace);
    LoneAllowed(v, version, modPolicy, signed);
    LoneRebuilds(Increment(version), modPolicy, v.namespace, MapConfig(Some(t), v.namespace).value);
    ProposedIff(v, g, env);
  }

  lemma LoneAllowed<S>(v: Validator<S>, version: uint64, modPolicy: string, signed: S)
    requires ValidID(v.namespace) && ValidModPolicy(modPolicy) && Built(v, Lone(version, modPolicy))
    ensures var t := Lone(Increment(version), modPolicy);
            DeltaAllowed(v, map[Fq(GROUP, [v.namespace]) := Place([v.namespace], GroupElement(t))], signed)
            <==> v.authorizes(Place([v.namespace], GroupElement(Lone(version, modPolicy))), signed)
  {
    LoneMap(version, modPolicy, v.namespace);
    var k, c := Fq(GROUP, [v.namespace]), Place([v.namespace], GroupElement(Lone(Increment(version), modPolicy)));
    var delta := map[k := c];
    assert k in delta && delta != map[];
    assert DeltaAllowed(v, delta, signed) <==> ChangeAllowed(v, k, c, signed);
  }

  // ---------------------------------------------------------------------------
  // Taking everything out
  // ---------------------------------------------------------------------------

  /** An update that reads nothing and writes the root group one version up, without members. */
  function Clearing<S>(v: Validator<S>, g: Group, modPolicy: string, signed: S): UpdateEnvelope<S> {
    UpdateEnvelope(Some(ConfigUpdate(v.channelID, None, Some(Lone(Increment(g.version), modPolicy)))), Some(signed))
  }

  lemma {:induction false} ClearingDelta<S>(v: Validator<S>, g: Group, modPolicy: string, signed: S)
    requires Built(v, g)
    ensures var k, c := Fq(GROUP, [v.namespace]), Place([v.namespace], GroupElement(Lone(Increment(g.version), modPolicy)));
            && MapConfig(Some(Lone(Increment(g.version), modPolicy)), v.namespace) == Some(map[k := c])
            && Delta(map[], map[k := c]) == map[k := c]
            && k in v.configMap && v.configMap[k] == Place([v.namespace], GroupElement(g))
            && (DeltaAllowed(v, map[k := c], signed) <==> ChangeAllowed(v, k, c, signed))
  {
    LoneMap(Increment(g.version), modPolicy, v.namespace);
    MapHas(g, v.namespace, [], GROUP);
    assert [v.namespace] + [] == [v.namespace];
    var k, c := Fq(GROUP, [v.namespace]), Place([v.namespace], GroupElement(Lone(Increment(g.version), modPolicy)));
    assert k in map[k := c] && map[k := c] != map[];
  }

  lemma {:induction false} ClearingRebuilds<S>(v: Validator<S>, version: uint64, modPolicy: string)
    requires modPolicy != ""
    ensures var c := Place([v.namespace], GroupElement(Lone(version, modPolicy)));
            ConfigMapToConfig(v.configMap + map[Fq(GROUP, [v.namespace]) := c], v.namespace) == Some(Lone(version, modPolicy))
  {
    SlashedRoot(v.namespace);
    var c := Place([v.namespace], GroupElement(Lone(version, modPolicy)));
    var t := ConfigMapToConfig(v.configMap + map[Fq(GROUP, [v.namespace]) := c], v.namespace).value;
    assert t.groups == map[] && t.values == map[] && t.policies == map[];
  }

  /**
   Whoever satisfies the modification policy of the root group can take every other element out of the configuration,
   whatever the modification policies of those elements are.
   */
  lemma {:induction false} ClearingUpdate<S>(v: Validator<S>, g: Group, modPolicy: string, signed: S)
    requires Built(v, g)
    ensures Applies(v, g, Clearing(v, g, modPolicy, signed), Lone(Increment(g.version), modPolicy))
       <==> ValidModPolicy(modPolicy) && v.authorizes(Place([v.namespace], GroupElement(g)), signed)
  {
    ClearingDelta(v, g, modPolicy, signed);
    ProposedIff(v, g, Clearing(v, g, modPolicy, signed));
    if modPolicy != "" {
      ClearingRebuilds(v, Increment(g.version), modPolicy);
    }
  }
}
