/**
 `configMapToConfig` (common/configtx/configmap.go): rebuilding a configuration tree from a path-keyed map,
 with the upgrade of empty modification policies.
 */
module ConfigRebuild {
  import opened ConfigMaps
  import opened ConfigTree
  import opened Paths
  import opened Wrappers

  /** The key whose presence switches the upgrade on. */
  const ORDERER_CAPABILITIES := "[Value]  /Channel/Orderer/Capabilities"

  predicate UpgradeOn(m: ConfigMap) {
    ORDERER_CAPABILITIES in m
  }

  function KeyBelow(kind: Kind, path: string, name: string): string {
    Prefix(kind) + path + [SEPARATOR] + name
  }

  /** The keys that are at least as long as a group's key at the path. */
  ghost function Longer(m: ConfigMap, path: string): set<string> {
    set k | k in m && |k| >= |Prefix(GROUP) + path|
  }

  lemma LongerShrinks(m: ConfigMap, path: string)
    requires Prefix(GROUP) + path in m
    ensures forall name: string :: Longer(m, path + [SEPARATOR] + name) < Longer(m, path)
  {
    forall name: string ensures Longer(m, path + [SEPARATOR] + name) < Longer(m, path) {
      assert Prefix(GROUP) + path in Longer(m, path);
      assert Prefix(GROUP) + path !in Longer(m, path + [SEPARATOR] + name);
    }
  }

  /** The map holds an element of the kind under the key. */
  predicate Holds(m: ConfigMap, key: string, kind: Kind) {
    key in m && KindOf(m[key].element) == kind
  }

  /** `recurseConfigMap`; `None` is a missing or misplaced element. */
  function Rebuild(m: ConfigMap, path: string): (g: Option<Group>)
    decreases Longer(m, path)
  {
    var groupPath := Prefix(GROUP) + path;
    if !Holds(m, groupPath, GROUP) then None
    else
      LongerShrinks(m, path);
      var group := m[groupPath].element.group;
      if && (forall name | name in group.groups :: Rebuild(m, path + [SEPARATOR] + name).Some?)
         && (forall name | name in group.values :: Holds(m, KeyBelow(VALUE, path, name), VALUE))
         && (forall name | name in group.policies :: Holds(m, KeyBelow(POLICY, path, name), POLICY))
      then
        var on := UpgradeOn(m);
        Some(Group(
          group.version,
          UpgradePolicy(on, group.modPolicy),
          map name | name in group.groups :: Rebuild(m, path + [SEPARATOR] + name).value,
          map name | name in group.values :: UpgradeValue(on, m[KeyBelow(VALUE, path, name)].element.value),
          map name | name in group.policies :: UpgradeConfigPolicy(on, m[KeyBelow(POLICY, path, name)].element.policy)))
      else None
  }

  /** `configMapToConfig`. */
  function ConfigMapToConfig(m: ConfigMap, root: string): Option<Group> {
    Rebuild(m, [SEPARATOR] + root)
  }

  // ---------------------------------------------------------------------------
  // Closed maps rebuild completely
  // ---------------------------------------------------------------------------

  /** Every entry stands under the key of its own kind and location. */
  ghost predicate WellPlaced(m: ConfigMap) {
    forall k | k in m :: AllPlain(Loc(m[k])) && k == Fq(KindOf(m[k].element), Loc(m[k]))
  }

  /** Every member that a group entry lists has an entry. */
  ghost predicate MembersPresent(m: ConfigMap, c: Comparable) {
    forall kind, name | name in Members(FaceOf(c.element), kind) :: ValidID(name) && Fq(kind, Loc(c) + [name]) in m
  }

  ghost predicate Closed(m: ConfigMap) {
    WellPlaced(m) && forall k | k in m :: MembersPresent(m, m[k])
  }

  lemma KeyBelowIsFq(kind: Kind, loc: seq<string>, name: string)
    ensures KeyBelow(kind, Slashed(loc), name) == Fq(kind, loc + [name])
    ensures Slashed(loc) + [SEPARATOR] + name == Slashed(loc + [name])
  {
    SlashedSnoc(loc, name);
  }

  /** What stands under a key is of the key's kind and location. */
  lemma EntryFits(m: ConfigMap, kind: Kind, loc: seq<string>)
    requires WellPlaced(m) && AllPlain(loc) && Fq(kind, loc) in m
    ensures KindOf(m[Fq(kind, loc)].element) == kind && Loc(m[Fq(kind, loc)]) == loc
  {
    var c := m[Fq(kind, loc)];
    FqInjective(kind, loc, KindOf(c.element), Loc(c));
  }

  lemma MemberFits(m: ConfigMap, loc: seq<string>, kind: Kind, name: string)
    requires Closed(m) && AllPlain(loc) && Fq(GROUP, loc) in m
    requires name in Members(FaceOf(m[Fq(GROUP, loc)].element), kind)
    ensures ValidID(name) && AllPlain(loc + [name])
    ensures Holds(m, Fq(kind, loc + [name]), kind)
  {
    EntryFits(m, GROUP, loc);
    assert MembersPresent(m, m[Fq(GROUP, loc)]);
    ValidIDPlain(name);
    EntryFits(m, kind, loc + [name]);
  }

  /** The rebuild of a closed map reports no missing path. */
  lemma {:induction false} RebuildTotal(m: ConfigMap, loc: seq<string>)
    requires Closed(m) && AllPlain(loc) && Fq(GROUP, loc) in m
    ensures Rebuild(m, Slashed(loc)).Some?
    decreases Longer(m, Slashed(loc))
  {
    EntryFits(m, GROUP, loc);
    LongerShrinks(m, Slashed(loc));
    var group := m[Fq(GROUP, loc)].element.group;
    forall name | name in group.groups ensures Rebuild(m, Slashed(loc) + [SEPARATOR] + name).Some? {
      KeyBelowIsFq(GROUP, loc, name);
      MemberFits(m, loc, GROUP, name);
      RebuildTotal(m, loc + [name]);
    }
    forall name | name in group.values ensures Holds(m, KeyBelow(VALUE, Slashed(loc), name), VALUE) {
      KeyBelowIsFq(VALUE, loc, name);
      MemberFits(m, loc, VALUE, name);
    }
    forall name | name in group.policies ensures Holds(m, KeyBelow(POLICY, Slashed(loc), name), POLICY) {
      KeyBelowIsFq(POLICY, loc, name);
      MemberFits(m, loc, POLICY, name);
    }
  }

  /** The rebuilt tree has valid names only, so it can be mapped again. */
  lemma {:induction false} RebuiltNamesValid(m: ConfigMap, loc: seq<string>)
    requires Closed(m) && AllPlain(loc) && Fq(GROUP, loc) in m
    requires Rebuild(m, Slashed(loc)).Some?
    ensures ValidNames(Rebuild(m, Slashed(loc)).value)
    decreases Longer(m, Slashed(loc))
  {
    EntryFits(m, GROUP, loc);
    LongerShrinks(m, Slashed(loc));
    var g := Rebuild(m, Slashed(loc)).value;
    forall name | name in g.groups ensures ValidID(name) && ValidNames(g.groups[name]) {
      KeyBelowIsFq(GROUP, loc, name);
      MemberFits(m, loc, GROUP, name);
      RebuiltNamesValid(m, loc + [name]);
    }
    forall name | name in g.values ensures ValidID(name) {
      MemberFits(m, loc, VALUE, name);
    }
    forall name | name in g.policies ensures ValidID(name) {
      MemberFits(m, loc, POLICY, name);
    }
  }

  // ---------------------------------------------------------------------------
  // The rebuilt tree, position by position
  // ---------------------------------------------------------------------------

  /** The tree is what the map rebuilds to at the location. */
  ghost predicate Rebuilds(m: ConfigMap, loc: seq<string>, t: Group) {
    AllPlain(loc) && Fq(GROUP, loc) in m && Rebuild(m, Slashed(loc)) == Some(t)
  }

  lemma RebuiltChild(m: ConfigMap, loc: seq<string>, t: Group, name: string)
    requires Closed(m) && Rebuilds(m, loc, t) && name in t.groups
    ensures Rebuilds(m, loc + [name], t.groups[name])
  {
    EntryFits(m, GROUP, loc);
    MemberFits(m, loc, GROUP, name);
    KeyBelowIsFq(GROUP, loc, name);
  }

  /** A group of the rebuilt tree is the rebuild at its own location. */
  lemma {:induction false} RebuiltGroup(m: ConfigMap, loc: seq<string>, t: Group, rel: seq<string>)
    requires Closed(m) && Rebuilds(m, loc, t) && Lookup(t, rel, GROUP).Some?
    ensures Rebuilds(m, loc + rel, Lookup(t, rel, GROUP).value.group)
    decreases |rel|
  {
    if rel == [] {
      assert loc + rel == loc;
    } else {
      var init, name := rel[..|rel| - 1], rel[|rel| - 1];
      RebuiltGroup(m, loc, t, init);
      assert loc + init + [name] == loc + rel;
      RebuiltChild(m, loc + init, Lookup(t, init, GROUP).value.group, name);
    }
  }

  /** The rebuilt group shows the face of its entry, upgraded. */
  lemma GroupFaceKept(m: ConfigMap, loc: seq<string>, t: Group)
    requires WellPlaced(m) && Rebuilds(m, loc, t)
    ensures FaceOf(GroupElement(t)) == UpgradeFace(UpgradeOn(m), FaceOf(m[Fq(GROUP, loc)].element))
  {
    EntryFits(m, GROUP, loc);
    var entry := m[Fq(GROUP, loc)].element.group;
    assert t.groups.Keys == entry.groups.Keys && t.values.Keys == entry.values.Keys && t.policies.Keys == entry.policies.Keys;
  }

  /** So does a value or policy member of it. */
  lemma MemberFaceKept(m: ConfigMap, loc: seq<string>, t: Group, name: string, kind: Kind)
    requires Closed(m) && Rebuilds(m, loc, t)
    requires kind != GROUP && Member(t, name, kind).Some?
    ensures AllPlain(loc + [name]) && Fq(kind, loc + [name]) in m
    ensures FaceOf(Member(t, name, kind).value) == UpgradeFace(UpgradeOn(m), FaceOf(m[Fq(kind, loc + [name])].element))
  {
    EntryFits(m, GROUP, loc);
    KeyBelowIsFq(kind, loc, name);
    MemberFits(m, loc, kind, name);
  }

  /** Every element of the rebuilt tree shows the upgraded face of the entry under its own key. */
  lemma RebuiltFace(m: ConfigMap, loc: seq<string>, t: Group, rel: seq<string>, kind: Kind)
    requires Closed(m) && Rebuilds(m, loc, t) && FaceAt(t, rel, kind).Some?
    ensures AllPlain(loc + rel) && Fq(kind, loc + rel) in m
    ensures FaceAt(t, rel, kind) == Some(UpgradeFace(UpgradeOn(m), FaceOf(m[Fq(kind, loc + rel)].element)))
  {
    if kind == GROUP {
      RebuiltGroup(m, loc, t, rel);
      GroupFaceKept(m, loc + rel, Lookup(t, rel, GROUP).value.group);
    } else {
      var init, name := rel[..|rel| - 1], rel[|rel| - 1];
      RebuiltGroup(m, loc, t, init);
      assert loc + init + [name] == loc + rel;
      MemberFaceKept(m, loc + init, Lookup(t, init, GROUP).value.group, name, kind);
    }
  }

  // ---------------------------------------------------------------------------
  // Round trip
  // ---------------------------------------------------------------------------

  lemma ListedNameValid(g: Group, rel: seq<string>, name: string, kind: Kind)
    requires ValidNames(g) && Lookup(g, rel, GROUP).Some?
    requires name in Members(FaceOf(Lookup(g, rel, GROUP).value), kind)
    ensures ValidID(name)
    ensures Lookup(g, rel + [name], kind).Some?
  {
    NamesPlain(g, rel, GROUP);
    assert (rel + [name])[..|rel|] == rel;
  }

  lemma MapHasListed(g: Group, root: string, rel: seq<string>, name: string, kind: Kind)
    requires MapConfig(Some(g), root).Some? && Lookup(g, rel, GROUP).Some?
    requires name in Members(FaceOf(Lookup(g, rel, GROUP).value), kind)
    ensures Fq(kind, [root] + rel + [name]) in MapConfig(Some(g), root).value
  {
    var below := rel + [name];
    ListedNameValid(g, rel, name, kind);
    assert [root] + rel + [name] == [root] + below;
    MapHas(g, root, below, kind);
  }

  lemma MapEntryComplete(g: Group, root: string, m: ConfigMap, rel: seq<string>, c: Comparable)
    requires MapConfig(Some(g), root) == Some(m)
    requires Lookup(g, rel, KindOf(c.element)) == Some(c.element) && Loc(c) == [root] + rel
    ensures MembersPresent(m, c)
  {
    if c.element.GroupElement? {
      forall kind, name | name in Members(FaceOf(c.element), kind) ensures ValidID(name) && Fq(kind, Loc(c) + [name]) in m {
        ListedNameValid(g, rel, name, kind);
        MapHasListed(g, root, rel, name, kind);
      }
    }
  }

  /** The map of a tree is closed and holds the root. */
  lemma MapClosed(g: Group, root: string)
    requires MapConfig(Some(g), root).Some?
    ensures Closed(MapConfig(Some(g), root).value) && AllPlain([root])
    ensures Fq(GROUP, [root]) in MapConfig(Some(g), root).value
  {
    var m := MapConfig(Some(g), root).value;
    forall k | k in m
      ensures AllPlain(Loc(m[k])) && k == Fq(KindOf(m[k].element), Loc(m[k])) && MembersPresent(m, m[k])
    {
      var rel, kind := MapOnly(g, root, k);
      MapEntryComplete(g, root, m, rel, m[k]);
    }
    ValidIDPlain(root);
    MapHas(g, root, [], GROUP);
    assert [root] + [] == [root];
  }

  lemma SlashedRoot(root: string)
    ensures Slashed([root]) == [SEPARATOR] + root
  {
    assert [root][1..] == [];
  }

  lemma {:induction false} RoundTripFaces(g: Group, root: string, rel: seq<string>, kind: Kind)
    requires MapConfig(Some(g), root).Some?
    requires ConfigMapToConfig(MapConfig(Some(g), root).value, root).Some?
    ensures var m := MapConfig(Some(g), root).value;
            FaceAt(ConfigMapToConfig(m, root).value, rel, kind) == FaceAt(UpgradeTree(UpgradeOn(m), g), rel, kind)
    decreases |rel|
  {
    var m := MapConfig(Some(g), root).value;
    var t := ConfigMapToConfig(m, root).value;
    MapClosed(g, root);
    SlashedRoot(root);
    FaceAtUpgraded(UpgradeOn(m), g, rel, kind);
    if rel == [] {
      assert FaceAt(t, rel, kind).Some? <==> kind == GROUP;
    } else {
      RoundTripFaces(g, root, rel[..|rel| - 1], GROUP);
      PresentIffListed(t, rel, kind);
      PresentIffListed(UpgradeTree(UpgradeOn(m), g), rel, kind);
    }
    if FaceAt(t, rel, kind).Some? {
      RebuiltFace(m, [root], t, rel, kind);
      MapHas(g, root, rel, kind);
    }
  }

  /**
   Rebuilding the map of a tree gives the tree back, with its empty modification policies replaced when
   the orderer capabilities are in it.
   */
  lemma RoundTrip(g: Group, root: string)
    requires MapConfig(Some(g), root).Some?
    ensures var m := MapConfig(Some(g), root).value;
            ConfigMapToConfig(m, root) == Some(UpgradeTree(UpgradeOn(m), g))
  {
    var m := MapConfig(Some(g), root).value;
    MapClosed(g, root);
    SlashedRoot(root);
    RebuildTotal(m, [root]);
    var t := ConfigMapToConfig(m, root).value;
    forall rel, kind ensures FaceAt(t, rel, kind) == FaceAt(UpgradeTree(UpgradeOn(m), g), rel, kind) {
      RoundTripFaces(g, root, rel, kind);
    }
    FacesDetermineTree(t, UpgradeTree(UpgradeOn(m), g));
  }
}
