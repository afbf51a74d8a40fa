/** Whole runs of configuration updates: every configuration is the accepted outcome of an update of the one before. */
module ConfigRuns {
  import opened ConfigMaps
  import opened ConfigTree
  import opened ConfigUpdates
  import opened Words
  import opened Wrappers

  /** An update together with the policies in force when it arrives. */
  datatype Change<!S> = Change(env: UpdateEnvelope<S>, authorizes: (Comparable, S) -> bool)

  /** A validator created from the configuration `c` proposes `d` for the change. */
  ghost predicate Leads<S>(channelID: string, namespace: string, c: Config, change: Change<S>, d: Config) {
    var v := NewValidator(channelID, Some(c), namespace, change.authorizes);
    v.Some? && ProposeConfigUpdate(v.value, change.env) == Some(d)
  }

  ghost predicate IsRun<S>(channelID: string, namespace: string, configs: seq<Config>, changes: seq<Change<S>>) {
    && |configs| == |changes| + 1
    && forall i {:trigger changes[i]} | 0 <= i < |changes| :: Leads(channelID, namespace, configs[i], changes[i], configs[i + 1])
  }

  /** A validator can be created from every configuration of a run, so the run never gets stuck there. */
  lemma RunContinues<S>(channelID: string, namespace: string, c: Config, change: Change<S>, d: Config, authorizes: (Comparable, S) -> bool)
    requires Leads(channelID, namespace, c, change, d)
    ensures NewValidator(channelID, Some(d), namespace, authorizes).Some?
  {
    var v := NewValidator(channelID, Some(c), namespace, change.authorizes).value;
    ProposedInstalls(v, c.channelGroup.value, change.env, authorizes);
  }

  lemma NextSequence<S>(channelID: string, namespace: string, c: Config, change: Change<S>, d: Config)
    requires Leads(channelID, namespace, c, change, d)
    ensures d.sequence == Increment(c.sequence)
  {
  }

  lemma IncrementModulo(n: uint64, i: nat)
    ensures Increment((n + i) % TWO_64) == (n + i + 1) % TWO_64
  {
  }

  lemma RunStep<S>(channelID: string, namespace: string, configs: seq<Config>, changes: seq<Change<S>>, i: nat)
    requires IsRun(channelID, namespace, configs, changes) && i < |changes|
    ensures Leads(channelID, namespace, configs[i], changes[i], configs[i + 1])
  {
  }

  /** The sequence number grows by one per step, modulo 2^64. */
  lemma {:induction false} SequenceCounts<S>(channelID: string, namespace: string, configs: seq<Config>, changes: seq<Change<S>>, i: nat)
    requires IsRun(channelID, namespace, configs, changes) && i < |configs|
    ensures configs[i].sequence == (configs[0].sequence + i) % TWO_64
  {
    if i > 0 {
      SequenceCounts(channelID, namespace, configs, changes, i - 1);
      assert configs[i].sequence == Increment(configs[i - 1].sequence) by {
        RunStep(channelID, namespace, configs, changes, i - 1);
        NextSequence(channelID, namespace, configs[i - 1], changes[i - 1], configs[i]);
      }
      IncrementModulo(configs[0].sequence, i - 1);
    }
  }

  /** The element is in the configuration. */
  ghost predicate Has(c: Config, rel: seq<string>, kind: Kind) {
    c.channelGroup.Some? && FaceAt(c.channelGroup.value, rel, kind).Some?
  }

  ghost function VersionAt(c: Config, rel: seq<string>, kind: Kind): uint64
    requires Has(c, rel, kind)
  {
    FaceVersion(FaceAt(c.channelGroup.value, rel, kind).value)
  }

  lemma LeadsApplies<S>(channelID: string, namespace: string, c: Config, change: Change<S>, d: Config) returns (v: Validator<S>)
    requires Leads(channelID, namespace, c, change, d)
    ensures c.channelGroup.Some? && d.channelGroup.Some?
    ensures NewValidator(channelID, Some(c), namespace, change.authorizes) == Some(v)
    ensures Applies(v, c.channelGroup.value, change.env, d.channelGroup.value) && v.namespace == namespace
  {
    v := NewValidator(channelID, Some(c), namespace, change.authorizes).value;
  }

  /** One step keeps the version of a surviving element or increments it; it drops only where the counter wraps around. */
  lemma VersionStep<S>(channelID: string, namespace: string, c: Config, change: Change<S>, d: Config, rel: seq<string>, kind: Kind)
    requires Leads(channelID, namespace, c, change, d) && Has(c, rel, kind) && Has(d, rel, kind)
    ensures VersionAt(d, rel, kind) == VersionAt(c, rel, kind) || VersionAt(d, rel, kind) == Increment(VersionAt(c, rel, kind))
    ensures VersionAt(d, rel, kind) < VersionAt(c, rel, kind) <==> VersionAt(c, rel, kind) == MAX_UINT64 && VersionAt(d, rel, kind) == 0
  {
    var v := LeadsApplies(channelID, namespace, c, change, d);
    SurvivorAuthorised(v, c.channelGroup.value, change.env, d.channelGroup.value, rel, kind);
  }

  /** The element is present from configuration `i` to configuration `j`. */
  ghost predicate Stays(configs: seq<Config>, i: nat, j: nat, rel: seq<string>, kind: Kind) {
    i <= j < |configs| && forall k | i <= k <= j :: Has(configs[k], rel, kind)
  }

  /** The element is not bumped from the largest version, where its counter would wrap around. */
  ghost predicate NeverWraps(configs: seq<Config>, i: nat, j: nat, rel: seq<string>, kind: Kind)
    requires Stays(configs, i, j, rel, kind)
  {
    forall k {:trigger configs[k]} | i <= k < j && VersionAt(configs[k], rel, kind) == MAX_UINT64 :: VersionAt(configs[k + 1], rel, kind) == MAX_UINT64
  }

  /** An element that stays present never loses version. */
  lemma {:induction false} VersionNeverDrops<S>(channelID: string, namespace: string, configs: seq<Config>, changes: seq<Change<S>>,
                                                i: nat, j: nat, rel: seq<string>, kind: Kind)
    requires IsRun(channelID, namespace, configs, changes) && Stays(configs, i, j, rel, kind)
    requires NeverWraps(configs, i, j, rel, kind)
    ensures VersionAt(configs[i], rel, kind) <= VersionAt(configs[j], rel, kind)
    decreases j
  {
    if i < j {
      VersionNeverDrops(channelID, namespace, configs, changes, i, j - 1, rel, kind);
      assert VersionAt(configs[j - 1], rel, kind) <= VersionAt(configs[j], rel, kind) by {
        RunStep(channelID, namespace, configs, changes, j - 1);
        VersionStep(channelID, namespace, configs[j - 1], changes[j - 1], configs[j], rel, kind);
      }
    }
  }

  ghost predicate VersionsGrow(configs: seq<Config>, i: nat, j: nat, rel: seq<string>, kind: Kind)
    requires Stays(configs, i, j, rel, kind)
  {
    forall a, b | i <= a <= b <= j :: VersionAt(configs[a], rel, kind) <= VersionAt(configs[b], rel, kind)
  }

  /** Over every run, the versions of an element that stays present only grow exactly when its 64-bit counter never wraps around. */
  lemma VersionsGrowIff<S>(channelID: string, namespace: string, configs: seq<Config>, changes: seq<Change<S>>,
                           i: nat, j: nat, rel: seq<string>, kind: Kind)
    requires IsRun(channelID, namespace, configs, changes) && Stays(configs, i, j, rel, kind)
    ensures VersionsGrow(configs, i, j, rel, kind) <==> NeverWraps(configs, i, j, rel, kind)
  {
    if NeverWraps(configs, i, j, rel, kind) {
      forall a, b | i <= a <= b <= j ensures VersionAt(configs[a], rel, kind) <= VersionAt(configs[b], rel, kind) {
        VersionNeverDrops(channelID, namespace, configs, changes, a, b, rel, kind);
      }
    }
    if VersionsGrow(configs, i, j, rel, kind) {
      forall k | i <= k < j && VersionAt(configs[k], rel, kind) == MAX_UINT64 ensures VersionAt(configs[k + 1], rel, kind) == MAX_UINT64 {
        assert VersionAt(configs[k], rel, kind) <= VersionAt(configs[k + 1], rel, kind);
      }
    }
  }

  /** In a run no change that altered the tree, beyond the upgrade, is accepted twice in a row. */
  lemma NoImmediateReplay<S>(channelID: string, namespace: string, c: Config, change: Change<S>, d: Config, again: Change<S>, e: Config)
    requires Leads(channelID, namespace, c, change, d) && again.env == change.env
    requires d.channelGroup != c.channelGroup && d.channelGroup != Some(UpgradeTree(true, c.channelGroup.value))
    ensures !Leads(channelID, namespace, d, again, e)
  {
    var v := LeadsApplies(channelID, namespace, c, change, d);
    UpgradeOffIsIdentity(c.channelGroup.value);
    var w := NewValidator(channelID, Some(d), namespace, again.authorizes);
    if w.Some? {
      ReplayRefused(v, c.channelGroup.value, change.env, d.channelGroup.value, w.value);
    }
  }

  /** The accepted change writes the element at a new version. */
  ghost predicate Writes<S>(channelID: string, namespace: string, c: Config, change: Change<S>, rel: seq<string>, kind: Kind) {
    var v := NewValidator(channelID, Some(c), namespace, change.authorizes);
    v.Some? && AuthorizeUpdate(v.value, change.env).Some? && Fq(kind, Location(v.value, rel)) in Changes(v.value, change.env)
  }

  /** The version a change writes does not depend on where it is applied, and is what the element then shows. */
  lemma WritesVersion<S>(channelID: string, namespace: string, c: Config, change: Change<S>, d: Config, rel: seq<string>, kind: Kind) returns (v: Validator<S>)
    requires Leads(channelID, namespace, c, change, d) && Writes(channelID, namespace, c, change, rel, kind) && Has(d, rel, kind)
    ensures v.namespace == namespace && AuthorizeUpdate(v, change.env).Some? && Fq(kind, Location(v, rel)) in Changes(v, change.env)
    ensures VersionAt(d, rel, kind) == Version(Changes(v, change.env)[Fq(kind, Location(v, rel))].element)
  {
    v := LeadsApplies(channelID, namespace, c, change, d);
    ChangedFace(v, c.channelGroup.value, change.env, d.channelGroup.value, rel, kind);
  }

  /** A change that writes an element is accepted only where the element stands one version below the one written. */
  lemma AcceptedOneBelow<S>(channelID: string, namespace: string, v: Validator<S>, env: UpdateEnvelope<S>, c: Config, again: Change<S>, e: Config,
                            rel: seq<string>, kind: Kind)
    requires v.namespace == namespace && AuthorizeUpdate(v, env).Some? && Fq(kind, Location(v, rel)) in Changes(v, env)
    requires Leads(channelID, namespace, c, again, e) && again.env == env && Has(c, rel, kind)
    ensures Version(Changes(v, env)[Fq(kind, Location(v, rel))].element) == Increment(VersionAt(c, rel, kind))
  {
    var w := LeadsApplies(channelID, namespace, c, again, e);
    SameChanges(v, w, env);
    MapHas(c.channelGroup.value, namespace, rel, kind);
    VersionOfFace(Lookup(c.channelGroup.value, rel, kind).value);
    ChangeChecked(w, env, Fq(kind, Location(w, rel)));
  }

  lemma ReplayedOneBelow<S>(channelID: string, namespace: string, c: Config, change: Change<S>, d: Config, c': Config, again: Change<S>, e: Config,
                            rel: seq<string>, kind: Kind)
    requires Leads(channelID, namespace, c, change, d) && Writes(channelID, namespace, c, change, rel, kind) && Has(d, rel, kind)
    requires Leads(channelID, namespace, c', again, e) && again.env == change.env && Has(c', rel, kind)
    ensures VersionAt(d, rel, kind) == Increment(VersionAt(c', rel, kind))
  {
    var v := WritesVersion(channelID, namespace, c, change, d, rel, kind);
    AcceptedOneBelow(channelID, namespace, v, change.env, c', again, e, rel, kind);
  }

  /**
   Over every run, a change that wrote an element is not accepted again, whatever policies are in force, as long as the
   element stays and its counter does not wrap around; only when the counter has gone all the way from 0 to the largest
   version does it stand one below the written version again.
   */
  lemma NoLaterReplay<S>(channelID: string, namespace: string, configs: seq<Config>, changes: seq<Change<S>>, i: nat, j: nat,
                         rel: seq<string>, kind: Kind, again: Change<S>, e: Config)
    requires IsRun(channelID, namespace, configs, changes) && i < |changes| && again.env == changes[i].env
    requires Writes(channelID, namespace, configs[i], changes[i], rel, kind)
    requires Stays(configs, i + 1, j, rel, kind) && NeverWraps(configs, i + 1, j, rel, kind)
    ensures Leads(channelID, namespace, configs[j], again, e) ==>
      VersionAt(configs[i + 1], rel, kind) == 0 && VersionAt(configs[j], rel, kind) == MAX_UINT64
  {
    VersionNeverDrops(channelID, namespace, configs, changes, i + 1, j, rel, kind);
    if Leads(channelID, namespace, configs[j], again, e) {
      assert VersionAt(configs[i + 1], rel, kind) == Increment(VersionAt(configs[j], rel, kind)) by {
        RunStep(channelID, namespace, configs, changes, i);
        ReplayedOneBelow(channelID, namespace, configs[i], changes[i], configs[i + 1], configs[j], again, e, rel, kind);
      }
    }
  }

  /** Every change that alters the tree, beyond the upgrade, writes such an element. */
  lemma SomethingWritten<S>(channelID: string, namespace: string, c: Config, change: Change<S>, d: Config) returns (rel: seq<string>, kind: Kind)
    requires Leads(channelID, namespace, c, change, d)
    requires d.channelGroup != c.channelGroup && d.channelGroup != Some(UpgradeTree(true, c.channelGroup.value))
    ensures Writes(channelID, namespace, c, change, rel, kind) && Has(c, rel, kind) && Has(d, rel, kind)
  {
    var v := LeadsApplies(channelID, namespace, c, change, d);
    UpgradeOffIsIdentity(c.channelGroup.value);
    rel, kind := SomethingBumped(v, c.channelGroup.value, change.env, d.channelGroup.value);
  }

  lemma {:induction false} UpgradeOffIsIdentity(g: Group)
    ensures UpgradeTree(false, g) == g
    decreases g
  {
    forall name | name in g.groups ensures UpgradeTree(false, g.groups[name]) == g.groups[name] {
      UpgradeOffIsIdentity(g.groups[name]);
    }
    var u := UpgradeTree(false, g);
    assert u.groups == g.groups && u.values == g.values && u.policies == g.policies;
  }
}
