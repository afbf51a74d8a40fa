/**
 Which configuration updates are accepted, and what they lead to, said of the configuration trees alone
 (common/configtx/update.go and validator.go).
 */
module ConfigAcceptance {
  import opened ConfigMaps
  import opened ConfigRebuild
  import opened ConfigRuns
  import opened ConfigTree
  import opened ConfigUpdates
  import opened Paths
  import opened Words
  import opened Wrappers
  import ModificationPolicies

  // ---------------------------------------------------------------------------
  // Names
  // ---------------------------------------------------------------------------

  /** Every element below the root has a valid name. */
  ghost predicate NamesOk(g: Group) {
    forall rel, kind | rel != [] && Lookup(g, rel, kind).Some? :: ValidID(rel[|rel| - 1])
  }

  lemma NamesOkBelow(g: Group, name: string)
    requires NamesOk(g) && name in g.groups
    ensures NamesOk(g.groups[name])
  {
    forall rel, kind | rel != [] && Lookup(g.groups[name], rel, kind).Some? ensures ValidID(rel[|rel| - 1]) {
      LookupBelow(g, name, rel, kind);
      var full := [name] + rel;
      assert full != [] && Lookup(g, full, kind).Some? && full[|full| - 1] == rel[|rel| - 1];
    }
  }

  lemma NamesOkHere(g: Group, name: string, kind: Kind)
    requires NamesOk(g) && Member(g, name, kind).Some?
    ensures ValidID(name)
  {
    LookupMember(g, name, kind);
    assert [name] != [] && Lookup(g, [name], kind).Some? && [name][|[name]| - 1] == name;
  }

  lemma NameValid(g: Group, rel: seq<string>, kind: Kind)
    requires ValidNames(g) && rel != [] && Lookup(g, rel, kind).Some?
    ensures ValidID(rel[|rel| - 1])
  {
    NamesPlain(g, rel[..|rel| - 1], GROUP);
  }

  lemma {:induction false} ValidNamesIff(g: Group)
    ensures ValidNames(g) <==> NamesOk(g)
    decreases g
  {
    if ValidNames(g) {
      forall rel, kind | rel != [] && Lookup(g, rel, kind).Some? ensures ValidID(rel[|rel| - 1]) {
        NameValid(g, rel, kind);
      }
    }
    if NamesOk(g) {
      forall name | name in g.groups ensures ValidID(name) && ValidNames(g.groups[name]) {
        NamesOkHere(g, name, GROUP);
        NamesOkBelow(g, name);
        ValidNamesIff(g.groups[name]);
      }
      forall name | name in g.values ensures ValidID(name) {
        NamesOkHere(g, name, VALUE);
      }
      forall name | name in g.policies ensures ValidID(name) {
        NamesOkHere(g, name, POLICY);
      }
    }
  }

  /** A tree that may be missing maps to paths exactly when its names are valid. */
  lemma MapsIff(g: Option<Group>, root: string)
    ensures MapConfig(g, root).Some? <==> (g.Some? ==> ValidID(root) && NamesOk(g.value))
  {
    if g.Some? {
      ValidNamesIff(g.value);
    }
  }

  // ---------------------------------------------------------------------------
  // Acceptance
  // ---------------------------------------------------------------------------

  /** The element at a position of a tree that may be missing. */
  function ElementAt(g: Option<Group>, rel: seq<string>, kind: Kind): Option<Element> {
    if g.None? then None else Lookup(g.value, rel, kind)
  }

  /** The map of a tree holds exactly its elements, each under the key of its position. */
  lemma MapIsTree(g: Option<Group>, root: string, rel: seq<string>, kind: Kind)
    requires MapConfig(g, root).Some? && AllPlain([root] + rel)
    ensures var m, k := MapConfig(g, root).value, Fq(kind, [root] + rel);
            && (k in m <==> ElementAt(g, rel, kind).Some?)
            && (k in m ==> m[k].element == ElementAt(g, rel, kind).value)
  {
    var m, k := MapConfig(g, root).value, Fq(kind, [root] + rel);
    if ElementAt(g, rel, kind).Some? {
      MapHas(g.value, root, rel, kind);
    }
    if g.Some? && k in m {
      var rel', kind' := MapOnly(g.value, root, k);
      FqInjective(kind, [root] + rel, kind', [root] + rel');
      assert rel == ([root] + rel)[1..] == ([root] + rel')[1..] == rel';
    }
  }

  /** A key of the map of a tree is the key of a position that has an element. */
  lemma KeyHasPosition(g: Option<Group>, root: string, k: string) returns (rel: seq<string>, kind: Kind)
    requires MapConfig(g, root).Some? && k in MapConfig(g, root).value
    ensures AllPlain([root] + rel) && k == Fq(kind, [root] + rel) && ElementAt(g, rel, kind).Some?
  {
    rel, kind := MapOnly(g.value, root, k);
  }

  lemma ElementPlain(g: Option<Group>, root: string, rel: seq<string>, kind: Kind)
    requires MapConfig(g, root).Some? && ElementAt(g, rel, kind).Some?
    ensures AllPlain([root] + rel)
  {
    NamesPlain(g.value, rel, kind);
    ValidIDPlain(root);
  }

  /** A modification policy is valid exactly when it is a path of valid names, with or without a separator in front. */
  lemma ValidModPolicyIff(s: string)
    ensures ValidModPolicy(s) <==> exists path :: path != [] && AllValid(path) && (s == Join(path) || s == [SEPARATOR] + Join(path))
  {
    if ValidModPolicy(s) {
      var rest := if s[0] == SEPARATOR then s[1..] else s;
      ModificationPolicies.JoinSplit(rest);
      assert Split(rest) != [] && AllValid(Split(rest)) && (s == Join(Split(rest)) || s == [SEPARATOR] + Join(Split(rest)));
    }
    if path :| path != [] && AllValid(path) && (s == Join(path) || s == [SEPARATOR] + Join(path)) {
      SplitJoin(path);
      JoinStart(path);
      assert ([SEPARATOR] + Join(path))[1..] == Join(path);
    }
  }

  lemma JoinStart(path: seq<string>)
    requires path != [] && AllValid(path)
    ensures Join(path) != "" && Join(path)[0] != SEPARATOR
  {
    ValidIDPlain(path[0]);
    assert path[0][0] in path[0];
  }

  /** Joining valid names and splitting the result gives the names. */
  lemma {:induction false} SplitJoin(path: seq<string>)
    requires path != [] && AllValid(path)
    ensures Split(Join(path)) == path
  {
    ValidIDPlain(path[0]);
    if |path| == 1 {
      ModificationPolicies.SplitOne(path[0]);
    } else {
      SplitJoin(path[1..]);
      SplitAfter(path[0], Join(path[1..]));
    }
  }

  lemma {:induction false} SplitAfter(name: string, rest: string)
    requires Plain(name)
    ensures Split(name + [SEPARATOR] + rest) == [name] + Split(rest)
  {
    var s := name + [SEPARATOR] + rest;
    if name == "" {
      assert s[0] == SEPARATOR && s[1..] == rest;
    } else {
      assert name[0] in name && s[0] == name[0] && s[1..] == name[1..] + [SEPARATOR] + rest;
      SplitAfter(name[1..], rest);
      assert name == [name[0]] + name[1..];
    }
  }

  /** Everything the update read stands in the tree at the version read. */
  ghost predicate ReadIsCurrent(g: Group, readSet: Option<Group>) {
    forall rel, kind | ElementAt(readSet, rel, kind).Some? :: ReadCurrentAt(g, readSet, rel, kind)
  }

  ghost predicate ReadCurrentAt(g: Group, readSet: Option<Group>, rel: seq<string>, kind: Kind)
    requires ElementAt(readSet, rel, kind).Some?
  {
    Lookup(g, rel, kind).Some? && Version(Lookup(g, rel, kind).value) == Version(ElementAt(readSet, rel, kind).value)
  }

  /** The update writes the element, and did not just read it at that version. */
  ghost predicate Wrote(update: ConfigUpdate, rel: seq<string>, kind: Kind) {
    var read, written := ElementAt(update.readSet, rel, kind), ElementAt(update.writeSet, rel, kind);
    written.Some? && (read.Some? ==> Version(read.value) != Version(written.value))
  }

  /** A new element is written at version 0, an existing one a version up with its modification policy satisfied. */
  ghost predicate MayWrite<S>(v: Validator<S>, g: Group, written: Element, rel: seq<string>, kind: Kind, signed: S) {
    && ValidModPolicy(ModPolicy(written))
    && match Lookup(g, rel, kind)
       case None => Version(written) == 0
       case Some(present) => Version(written) == Increment(Version(present)) && v.authorizes(Place(Location(v, rel), present), signed)
  }

  ghost predicate AllMayWrite<S>(v: Validator<S>, g: Group, update: ConfigUpdate, signed: S) {
    forall rel, kind | Wrote(update, rel, kind) :: MayWrite(v, g, ElementAt(update.writeSet, rel, kind).value, rel, kind, signed)
  }

  lemma ReadSetMatchesIff<S>(v: Validator<S>, g: Group, readSet: Option<Group>)
    requires Built(v, g) && MapConfig(readSet, v.namespace).Some?
    ensures ReadSetMatches(v.configMap, MapConfig(readSet, v.namespace).value) <==> ReadIsCurrent(g, readSet)
  {
    var m := MapConfig(readSet, v.namespace).value;
    if ReadSetMatches(v.configMap, m) {
      forall rel, kind | ElementAt(readSet, rel, kind).Some? ensures ReadCurrentAt(g, readSet, rel, kind) {
        ElementPlain(readSet, v.namespace, rel, kind);
        MapIsTree(readSet, v.namespace, rel, kind);
        MapIsTree(Some(g), v.namespace, rel, kind);
      }
    }
    if ReadIsCurrent(g, readSet) {
      forall k | k in m ensures k in v.configMap && Version(v.configMap[k].element) == Version(m[k].element) {
        var rel, kind := KeyHasPosition(readSet, v.namespace, k);
        assert ReadCurrentAt(g, readSet, rel, kind);
        MapIsTree(readSet, v.namespace, rel, kind);
        MapIsTree(Some(g), v.namespace, rel, kind);
      }
    }
  }

  /** A position is written exactly when its key is in the delta set. */
  lemma DeltaIff(update: ConfigUpdate, root: string, rel: seq<string>, kind: Kind)
    requires MapConfig(update.readSet, root).Some? && MapConfig(update.writeSet, root).Some? && AllPlain([root] + rel)
    ensures var delta, k := Delta(MapConfig(update.readSet, root).value, MapConfig(update.writeSet, root).value), Fq(kind, [root] + rel);
            && (k in delta <==> Wrote(update, rel, kind))
            && (k in delta ==> delta[k].element == ElementAt(update.writeSet, rel, kind).value)
  {
    MapIsTree(update.readSet, root, rel, kind);
    MapIsTree(update.writeSet, root, rel, kind);
  }

  lemma ChangeAllowedIff<S>(v: Validator<S>, g: Group, c: Comparable, rel: seq<string>, kind: Kind, signed: S)
    requires Built(v, g) && AllPlain(Location(v, rel))
    ensures ChangeAllowed(v, Fq(kind, Location(v, rel)), c, signed) <==> MayWrite(v, g, c.element, rel, kind, signed)
  {
    OldEntry(v, g, rel, kind);
  }

  /** An entry of the delta set is the entry of a position written. */
  lemma EntryWritten(update: ConfigUpdate, root: string, k: string) returns (rel: seq<string>, kind: Kind)
    requires MapConfig(update.readSet, root).Some? && MapConfig(update.writeSet, root).Some?
    requires k in Delta(MapConfig(update.readSet, root).value, MapConfig(update.writeSet, root).value)
    ensures Wrote(update, rel, kind) && k == Fq(kind, [root] + rel)
  {
    rel, kind := KeyHasPosition(update.writeSet, root, k);
    DeltaIff(update, root, rel, kind);
  }

  lemma AllowedMayWrite<S>(v: Validator<S>, g: Group, update: ConfigUpdate, signed: S)
    requires Built(v, g) && MapConfig(update.readSet, v.namespace).Some? && MapConfig(update.writeSet, v.namespace).Some?
    requires DeltaAllowed(v, Delta(MapConfig(update.readSet, v.namespace).value, MapConfig(update.writeSet, v.namespace).value), signed)
    ensures (exists rel, kind :: Wrote(update, rel, kind)) && AllMayWrite(v, g, update, signed)
  {
    var delta := Delta(MapConfig(update.readSet, v.namespace).value, MapConfig(update.writeSet, v.namespace).value);
    var k :| k in delta;
    var rel, kind := EntryWritten(update, v.namespace, k);
    forall rel, kind | Wrote(update, rel, kind) ensures MayWrite(v, g, ElementAt(update.writeSet, rel, kind).value, rel, kind, signed) {
      WrittenEntry(v, g, update, rel, kind, signed);
    }
  }

  lemma MayWriteAllowed<S>(v: Validator<S>, g: Group, update: ConfigUpdate, signed: S, rel: seq<string>, kind: Kind)
    requires Built(v, g) && MapConfig(update.readSet, v.namespace).Some? && MapConfig(update.writeSet, v.namespace).Some?
    requires Wrote(update, rel, kind) && AllMayWrite(v, g, update, signed)
    ensures DeltaAllowed(v, Delta(MapConfig(update.readSet, v.namespace).value, MapConfig(update.writeSet, v.namespace).value), signed)
  {
    var delta := Delta(MapConfig(update.readSet, v.namespace).value, MapConfig(update.writeSet, v.namespace).value);
    WrittenEntry(v, g, update, rel, kind, signed);
    forall k | k in delta ensures ChangeAllowed(v, k, delta[k], signed) {
      var rel, kind := EntryWritten(update, v.namespace, k);
      WrittenEntry(v, g, update, rel, kind, signed);
    }
  }

  lemma WrittenEntry<S>(v: Validator<S>, g: Group, update: ConfigUpdate, rel: seq<string>, kind: Kind, signed: S)
    requires Built(v, g) && MapConfig(update.readSet, v.namespace).Some? && MapConfig(update.writeSet, v.namespace).Some? && Wrote(update, rel, kind)
    ensures AllPlain(Location(v, rel))
    ensures var delta, k := Delta(MapConfig(update.readSet, v.namespace).value, MapConfig(update.writeSet, v.namespace).value), Fq(kind, Location(v, rel));
            && k in delta && delta[k].element == ElementAt(update.writeSet, rel, kind).value
            && (ChangeAllowed(v, k, delta[k], signed) <==> MayWrite(v, g, ElementAt(update.writeSet, rel, kind).value, rel, kind, signed))
  {
    ElementPlain(update.writeSet, v.namespace, rel, kind);
    DeltaIff(update, v.namespace, rel, kind);
    var delta := Delta(MapConfig(update.readSet, v.namespace).value, MapConfig(update.writeSet, v.namespace).value);
    ChangeAllowedIff(v, g, delta[Fq(kind, Location(v, rel))], rel, kind, signed);
  }

  /**
   An update is accepted exactly when it decodes, is signed and for this channel, has valid names, read nothing that has
   changed, writes something, and may write everything it writes.
   */
  lemma AcceptedIff<S>(v: Validator<S>, g: Group, env: UpdateEnvelope<S>)
    requires Built(v, g)
    ensures ProposeConfigUpdate(v, env).Some? <==>
      && env.update.Some? && env.signed.Some?
      && var update := env.update.value;
         && update.channelId == v.channelID
         && (update.readSet.Some? ==> NamesOk(update.readSet.value)) && (update.writeSet.Some? ==> NamesOk(update.writeSet.value))
         && ReadIsCurrent(g, update.readSet)
         && (exists rel, kind :: Wrote(update, rel, kind)) && AllMayWrite(v, g, update, env.signed.value)
  {
    ProposedIff(v, g, env);
    if env.update.Some? && env.signed.Some? {
      var update := env.update.value;
      MapsIff(update.readSet, v.namespace);
      MapsIff(update.writeSet, v.namespace);
      if MapConfig(update.readSet, v.namespace).Some? && MapConfig(update.writeSet, v.namespace).Some? {
        ReadSetMatchesIff(v, g, update.readSet);
        if DeltaAllowed(v, Delta(MapConfig(update.readSet, v.namespace).value, MapConfig(update.writeSet, v.namespace).value), env.signed.value) {
          AllowedMayWrite(v, g, update, env.signed.value);
        }
        if AllMayWrite(v, g, update, env.signed.value) {
          if rel, kind :| Wrote(update, rel, kind) {
            MayWriteAllowed(v, g, update, env.signed.value, rel, kind);
          }
        }
      }
    }
  }

  /** The lookup of the modification policy of the existing element panics, and the checks before it pass. */
  ghost predicate PanicsAt<S>(v: Validator<S>, g: Group, panics: Comparable -> bool, update: ConfigUpdate, rel: seq<string>, kind: Kind) {
    && Wrote(update, rel, kind) && Lookup(g, rel, kind).Some?
    && ValidModPolicy(ModPolicy(ElementAt(update.writeSet, rel, kind).value))
    && Version(ElementAt(update.writeSet, rel, kind).value) == Increment(Version(Lookup(g, rel, kind).value))
    && panics(Place(Location(v, rel), Lookup(g, rel, kind).value))
  }

  /** An update can panic exactly when it gets to its delta set and writes an existing element like this. */
  lemma PanicsIff<S>(v: Validator<S>, g: Group, panics: Comparable -> bool, env: UpdateEnvelope<S>)
    requires Built(v, g)
    ensures UpdatePanics(v, panics, env) <==>
      && env.update.Some? && env.signed.Some? && env.update.value.channelId == v.channelID
      && (env.update.value.readSet.Some? ==> NamesOk(env.update.value.readSet.value))
      && (env.update.value.writeSet.Some? ==> NamesOk(env.update.value.writeSet.value))
      && ReadIsCurrent(g, env.update.value.readSet)
      && exists rel, kind :: PanicsAt(v, g, panics, env.update.value, rel, kind)
  {
    if env.update.Some? && env.signed.Some? {
      var update := env.update.value;
      MapsIff(update.readSet, v.namespace);
      MapsIff(update.writeSet, v.namespace);
      if MapConfig(update.readSet, v.namespace).Some? && MapConfig(update.writeSet, v.namespace).Some? {
        ReadSetMatchesIff(v, g, update.readSet);
        var delta := Delta(MapConfig(update.readSet, v.namespace).value, MapConfig(update.writeSet, v.namespace).value);
        if k :| k in delta && ChangePanics(v, panics, k, delta[k]) {
          var rel, kind := EntryWritten(update, v.namespace, k);
          PanicsAtIff(v, g, panics, env, rel, kind);
        }
        if rel, kind :| PanicsAt(v, g, panics, update, rel, kind) {
          PanicsAtIff(v, g, panics, env, rel, kind);
        }
      }
    }
  }

  lemma PanicsAtIff<S>(v: Validator<S>, g: Group, panics: Comparable -> bool, env: UpdateEnvelope<S>, rel: seq<string>, kind: Kind)
    requires Built(v, g) && env.update.Some? && env.signed.Some? && Wrote(env.update.value, rel, kind)
    requires MapConfig(env.update.value.readSet, v.namespace).Some? && MapConfig(env.update.value.writeSet, v.namespace).Some?
    ensures var delta := Delta(MapConfig(env.update.value.readSet, v.namespace).value, MapConfig(env.update.value.writeSet, v.namespace).value);
            var k := Fq(kind, Location(v, rel));
            k in delta && (ChangePanics(v, panics, k, delta[k]) <==> PanicsAt(v, g, panics, env.update.value, rel, kind))
  {
    WrittenEntry(v, g, env.update.value, rel, kind, env.signed.value);
    OldEntry(v, g, rel, kind);
  }

  // ---------------------------------------------------------------------------
  // The outcome
  // ---------------------------------------------------------------------------

  /** Where the capabilities of the orderer stand, which switch the upgrade of empty modification policies on. */
  const CAPABILITIES := ["Orderer", "Capabilities"]

  lemma SlashedThree(a: string, b: string, c: string)
    ensures Slashed([a, b, c]) == [SEPARATOR] + a + ([SEPARATOR] + b + ([SEPARATOR] + c))
  {
    assert [a, b, c][1..] == [b, c] && [b, c][1..] == [c] && [c][1..] == [];
    assert Slashed([c]) == [SEPARATOR] + c;
    assert Slashed([b, c]) == [SEPARATOR] + b + Slashed([c]);
  }

  lemma Parts(a: string, b: string, c: string, d: string)
    ensures a + (['/'] + b + (['/'] + c + (['/'] + d))) == a + ['/'] + b + ['/'] + c + ['/'] + d
  {
  }

  lemma Spelled()
    ensures "[Value]  " + ['/'] + "Channel" + ['/'] + "Orderer" + ['/'] + "Capabilities" == ORDERER_CAPABILITIES
  {
  }

  lemma CapabilitiesKey()
    ensures ORDERER_CAPABILITIES == Fq(VALUE, ["Channel"] + CAPABILITIES)
  {
    assert ["Channel"] + CAPABILITIES == ["Channel", "Orderer", "Capabilities"];
    SlashedThree("Channel", "Orderer", "Capabilities");
    Parts("[Value]  ", "Channel", "Orderer", "Capabilities");
    Spelled();
  }

  lemma CapabilitiesPlain()
    ensures AllPlain(["Channel"] + CAPABILITIES)
  {
  }

  /** What a position of the new tree shows: what was written there, or else what stood there, up to the upgrade. */
  lemma OutcomeFace<S>(v: Validator<S>, g: Group, env: UpdateEnvelope<S>, t: Group, rel: seq<string>, kind: Kind)
    requires Applies(v, g, env, t) && FaceAt(t, rel, kind).Some?
    ensures var update := env.update.value;
            var source := if Wrote(update, rel, kind) then ElementAt(update.writeSet, rel, kind) else Lookup(g, rel, kind);
            source.Some? && FaceAt(t, rel, kind) == Some(UpgradeFace(Upgrades(v, env), FaceOf(source.value)))
  {
    NewFace(v, g, env, t, rel, kind);
    DeltaIff(env.update.value, v.namespace, rel, kind);
    OldEntry(v, g, rel, kind);
  }

  /** The root is always there, and any other element exactly when the group above it is and lists it. */
  lemma OutcomePresent<S>(v: Validator<S>, g: Group, env: UpdateEnvelope<S>, t: Group, rel: seq<string>, kind: Kind)
    requires Applies(v, g, env, t) && rel != []
    ensures var parent, last := rel[..|rel| - 1], rel[|rel| - 1];
            FaceAt(t, rel, kind).Some? <==> FaceAt(t, parent, GROUP).Some? && last in Members(FaceAt(t, parent, GROUP).value, kind)
  {
    PresentIffListed(t, rel, kind);
  }

  /** The upgrade is on exactly when the capabilities of the orderer stand in the old tree or are written. */
  lemma UpgradesIff<S>(v: Validator<S>, g: Group, env: UpdateEnvelope<S>)
    requires Built(v, g) && AuthorizeUpdate(v, env).Some?
    ensures Upgrades(v, env) <==>
      v.namespace == "Channel" && (Lookup(g, CAPABILITIES, VALUE).Some? || Wrote(env.update.value, CAPABILITIES, VALUE))
  {
    CapabilitiesKey();
    CapabilitiesPlain();
    if v.namespace == "Channel" {
      OldEntry(v, g, CAPABILITIES, VALUE);
      DeltaIff(env.update.value, v.namespace, CAPABILITIES, VALUE);
    } else if Upgrades(v, env) {
      var k := ORDERER_CAPABILITIES;
      if k in Changes(v, env) {
        var rel, kind := KeyHasPosition(env.update.value.writeSet, v.namespace, k);
        NotTheChannel(v.namespace, rel, kind);
      } else {
        var rel, kind := KeyHasPosition(Some(g), v.namespace, k);
        NotTheChannel(v.namespace, rel, kind);
      }
    }
  }

  lemma NotTheChannel(root: string, rel: seq<string>, kind: Kind)
    requires AllPlain([root] + rel) && ORDERER_CAPABILITIES == Fq(kind, [root] + rel)
    ensures root == "Channel"
  {
    CapabilitiesKey();
    CapabilitiesPlain();
    FqInjective(kind, [root] + rel, VALUE, ["Channel"] + CAPABILITIES);
    assert root == ([root] + rel)[0] == (["Channel"] + CAPABILITIES)[0];
  }

  // ---------------------------------------------------------------------------
  // Runs
  // ---------------------------------------------------------------------------

  /** Every change of a run was made for the channel, and only a configuration of its own is validated. */
  lemma RunOfChannel<S>(channelID: string, namespace: string, configs: seq<Config>, changes: seq<Change<S>>, i: nat)
    requires IsRun(channelID, namespace, configs, changes) && i < |changes|
    ensures changes[i].env.update.Some? && changes[i].env.update.value.channelId == channelID
  {
    RunStep(channelID, namespace, configs, changes, i);
  }

  /** `Validate` accepts a configuration only with an update that was made for the channel and leads to it. */
  lemma ValidatedForChannel<S>(v: Validator<S>, g: Group, env: ConfigEnvelope<S>)
    requires Built(v, g) && Validate(v, env)
    ensures env.lastUpdate.update.Some? && env.lastUpdate.update.value.channelId == v.channelID
    ensures env.config.Some? && ProposeConfigUpdate(v, env.lastUpdate) == env.config
  {
    ValidateIffProposed(v, env);
    ProposedIff(v, g, env.lastUpdate);
  }
}
