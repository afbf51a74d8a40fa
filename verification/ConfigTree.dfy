/**
 The channel configuration tree: groups of groups, values and policies, each element with a version and
 a modification policy.  An element is addressed by its kind and the names leading to it from the root.
 */
module ConfigTree {
  import opened Bytes
  import opened Words
  import opened Wrappers

  datatype Value = Value(version: uint64, modPolicy: string, content: bytes)

  /** A `ConfigPolicy`; its policy message may be unset. */
  datatype Policy = Policy(version: uint64, modPolicy: string, policyType: int, content: Option<bytes>)

  datatype Group = Group(
    version: uint64,
    modPolicy: string,
    groups: map<string, Group>,
    values: map<string, Value>,
    policies: map<string, Policy>)

  datatype Kind = GROUP | VALUE | POLICY

  datatype Element = GroupElement(group: Group) | ValueElement(value: Value) | PolicyElement(policy: Policy)

  function KindOf(e: Element): Kind {
    match e
    case GroupElement(_) => GROUP
    case ValueElement(_) => VALUE
    case PolicyElement(_) => POLICY
  }

  function Version(e: Element): uint64 {
    match e
    case GroupElement(g) => g.version
    case ValueElement(v) => v.version
    case PolicyElement(p) => p.version
  }

  function ModPolicy(e: Element): string {
    match e
    case GroupElement(g) => g.modPolicy
    case ValueElement(v) => v.modPolicy
    case PolicyElement(p) => p.modPolicy
  }

  /** A member of a group. */
  function Member(g: Group, name: string, kind: Kind): (e: Option<Element>)
    ensures e.Some? ==> KindOf(e.value) == kind
  {
    match kind
    case GROUP => if name in g.groups then Some(GroupElement(g.groups[name])) else None
    case VALUE => if name in g.values then Some(ValueElement(g.values[name])) else None
    case POLICY => if name in g.policies then Some(PolicyElement(g.policies[name])) else None
  }

  /** The element at a position below a group. */
  function Lookup(g: Group, rel: seq<string>, kind: Kind): (e: Option<Element>)
    ensures e.Some? ==> KindOf(e.value) == kind
    decreases |rel|
  {
    if rel == [] then if kind == GROUP then Some(GroupElement(g)) else None
    else
      var parent := Lookup(g, rel[..|rel| - 1], GROUP);
      if parent.None? then None else Member(parent.value.group, rel[|rel| - 1], kind)
  }

  // ---------------------------------------------------------------------------
  // Faces: what an element says itself, without the contents of its members
  // ---------------------------------------------------------------------------

  datatype Face =
    | GroupFace(version: uint64, modPolicy: string, groups: set<string>, values: set<string>, policies: set<string>)
    | ValueFace(value: Value)
    | PolicyFace(policy: Policy)

  function FaceOf(e: Element): Face {
    match e
    case GroupElement(g) => GroupFace(g.version, g.modPolicy, g.groups.Keys, g.values.Keys, g.policies.Keys)
    case ValueElement(v) => ValueFace(v)
    case PolicyElement(p) => PolicyFace(p)
  }

  function FaceVersion(f: Face): uint64 {
    match f
    case GroupFace(v, _, _, _, _) => v
    case ValueFace(v) => v.version
    case PolicyFace(p) => p.version
  }

  /** The member names of a kind that a face lists. */
  function Members(f: Face, kind: Kind): set<string> {
    match f
    case GroupFace(_, _, groups, values, policies) =>
      (match kind case GROUP => groups case VALUE => values case POLICY => policies)
    case ValueFace(_) => {}
    case PolicyFace(_) => {}
  }

  function FaceAt(g: Group, rel: seq<string>, kind: Kind): Option<Face> {
    var e := Lookup(g, rel, kind);
    if e.None? then None else Some(FaceOf(e.value))
  }

  /** An element is present exactly when its parent group is present and lists it. */
  lemma PresentIffListed(g: Group, rel: seq<string>, kind: Kind)
    requires rel != []
    ensures var parent := FaceAt(g, rel[..|rel| - 1], GROUP);
            FaceAt(g, rel, kind).Some? <==> parent.Some? && rel[|rel| - 1] in Members(parent.value, kind)
  {
  }

  /** Looking below a member group is looking below the group with the member's name in front. */
  lemma {:induction false} LookupBelow(g: Group, name: string, rel: seq<string>, kind: Kind)
    requires name in g.groups
    requires rel != [] || kind == GROUP
    ensures Lookup(g, [name] + rel, kind) == Lookup(g.groups[name], rel, kind)
    decreases |rel|
  {
    var full := [name] + rel;
    if rel == [] {
      assert full[..0] == [];
    } else {
      assert full[..|full| - 1] == [name] + rel[..|rel| - 1];
      LookupBelow(g, name, rel[..|rel| - 1], GROUP);
    }
  }

  ghost predicate SameFaces(g: Group, h: Group) {
    forall rel, kind :: FaceAt(g, rel, kind) == FaceAt(h, rel, kind)
  }

  lemma SameFacesBelow(g: Group, h: Group, name: string)
    requires SameFaces(g, h) && name in g.groups && name in h.groups
    ensures SameFaces(g.groups[name], h.groups[name])
  {
    forall rel, kind ensures FaceAt(g.groups[name], rel, kind) == FaceAt(h.groups[name], rel, kind) {
      if rel != [] || kind == GROUP {
        LookupBelow(g, name, rel, kind);
        LookupBelow(h, name, rel, kind);
        assert FaceAt(g, [name] + rel, kind) == FaceAt(h, [name] + rel, kind);
      }
    }
  }

  lemma LookupMember(g: Group, name: string, kind: Kind)
    ensures Lookup(g, [name], kind) == Member(g, name, kind)
  {
    assert [name][..0] == [];
    assert Lookup(g, [name][..0], GROUP) == Some(GroupElement(g));
  }

  lemma SameFaceMember(g: Group, h: Group, name: string, kind: Kind)
    requires SameFaces(g, h)
    ensures Member(g, name, kind).Some? <==> Member(h, name, kind).Some?
    ensures Member(g, name, kind).Some? ==> FaceOf(Member(g, name, kind).value) == FaceOf(Member(h, name, kind).value)
  {
    LookupMember(g, name, kind);
    LookupMember(h, name, kind);
    assert FaceAt(g, [name], kind) == FaceAt(h, [name], kind);
  }

  /** A tree is determined by its faces. */
  lemma {:induction false} FacesDetermineTree(g: Group, h: Group)
    requires SameFaces(g, h)
    ensures g == h
    decreases g
  {
    assert FaceAt(g, [], GROUP) == FaceAt(h, [], GROUP);
    forall name | name in g.groups ensures name in h.groups && g.groups[name] == h.groups[name] {
      SameFaceMember(g, h, name, GROUP);
      SameFacesBelow(g, h, name);
      FacesDetermineTree(g.groups[name], h.groups[name]);
    }
    forall name | name in g.values ensures name in h.values && g.values[name] == h.values[name] {
      SameFaceMember(g, h, name, VALUE);
    }
    forall name | name in g.policies ensures name in h.policies && g.policies[name] == h.policies[name] {
      SameFaceMember(g, h, name, POLICY);
    }
    assert g.groups == h.groups && g.values == h.values && g.policies == h.policies;
  }

  // ---------------------------------------------------------------------------
  // The upgrade of empty modification policies
  // ---------------------------------------------------------------------------

  const NEW_MOD_POLICY := "Admins"

  function UpgradePolicy(on: bool, modPolicy: string): string {
    if on && modPolicy == "" then NEW_MOD_POLICY else modPolicy
  }

  /** Only an empty modification policy is replaced, and only when the upgrade is on. */
  lemma UpgradedPolicy(on: bool, modPolicy: string)
    ensures modPolicy != "" || !on ==> UpgradePolicy(on, modPolicy) == modPolicy
    ensures UpgradePolicy(true, "") == "Admins"
  {
  }

  function UpgradeValue(on: bool, v: Value): Value {
    v.(modPolicy := UpgradePolicy(on, v.modPolicy))
  }

  function UpgradeConfigPolicy(on: bool, p: Policy): Policy {
    p.(modPolicy := UpgradePolicy(on, p.modPolicy))
  }

  /** Nothing else of a value or a policy changes. */
  lemma UpgradedMember(on: bool, v: Value, p: Policy)
    ensures UpgradeValue(on, v) == Value(v.version, UpgradePolicy(on, v.modPolicy), v.content)
    ensures UpgradeConfigPolicy(on, p) == Policy(p.version, UpgradePolicy(on, p.modPolicy), p.policyType, p.content)
  {
  }

  /** Every empty modification policy in the tree replaced. */
  function UpgradeTree(on: bool, g: Group): Group
    decreases g
  {
    Group(
      g.version,
      UpgradePolicy(on, g.modPolicy),
      map name | name in g.groups :: UpgradeTree(on, g.groups[name]),
      map name | name in g.values :: UpgradeValue(on, g.values[name]),
      map name | name in g.policies :: UpgradeConfigPolicy(on, g.policies[name]))
  }

  function UpgradeFace(on: bool, f: Face): (u: Face)
    ensures FaceVersion(u) == FaceVersion(f)
    ensures forall kind :: Members(u, kind) == Members(f, kind)
  {
    match f
    case GroupFace(_, m, _, _, _) => f.(modPolicy := UpgradePolicy(on, m))
    case ValueFace(v) => ValueFace(UpgradeValue(on, v))
    case PolicyFace(p) => PolicyFace(UpgradeConfigPolicy(on, p))
  }

  function UpgradeElement(on: bool, e: Element): Element {
    match e
    case GroupElement(g) => GroupElement(UpgradeTree(on, g))
    case ValueElement(v) => ValueElement(UpgradeValue(on, v))
    case PolicyElement(p) => PolicyElement(UpgradeConfigPolicy(on, p))
  }

  lemma {:induction false} LookupUpgraded(on: bool, g: Group, rel: seq<string>, kind: Kind)
    ensures var e := Lookup(g, rel, kind);
            Lookup(UpgradeTree(on, g), rel, kind) == if e.None? then None else Some(UpgradeElement(on, e.value))
    decreases |rel|
  {
    if rel != [] {
      LookupUpgraded(on, g, rel[..|rel| - 1], GROUP);
    }
  }

  lemma FaceUpgraded(on: bool, e: Element)
    ensures FaceOf(UpgradeElement(on, e)) == UpgradeFace(on, FaceOf(e))
  {
    if e.GroupElement? {
      var g := e.group;
      var u := UpgradeTree(on, g);
      assert u.groups.Keys == g.groups.Keys && u.values.Keys == g.values.Keys && u.policies.Keys == g.policies.Keys;
    }
  }

  /** The upgraded tree has the upgraded faces. */
  lemma FaceAtUpgraded(on: bool, g: Group, rel: seq<string>, kind: Kind)
    ensures var f := FaceAt(g, rel, kind);
            FaceAt(UpgradeTree(on, g), rel, kind) == if f.None? then None else Some(UpgradeFace(on, f.value))
  {
    LookupUpgraded(on, g, rel, kind);
    var e := Lookup(g, rel, kind);
    if e.Some? {
      FaceUpgraded(on, e.value);
    }
  }
}
