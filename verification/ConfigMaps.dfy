/**
 The path-keyed form of a configuration (common/configtx/configmap.go): `mapConfig` flattens a tree into a
 map, `configMapToConfig` rebuilds a tree from one.
 */
module ConfigMaps {
  import opened ConfigTree
  import opened Paths
  import opened Wrappers

  // ---------------------------------------------------------------------------
  // Names
  // ---------------------------------------------------------------------------

  predicate Allowed(c: char) {
    'a' <= c <= 'z' || 'A' <= c <= 'Z' || '0' <= c <= '9' || c == '.' || c == '-'
  }

  /** By their codes: the small and capital letters, the digits, the dash and the dot. */
  lemma AllowedAre(c: char)
    ensures Allowed(c) <==> 97 <= c as int <= 122 || 65 <= c as int <= 90 || 48 <= c as int <= 57 || c as int in {45, 46}
  {
  }

  /** The longest run of allowed characters at the start. */
  function LeadingRun(s: string): string {
    if s == "" || !Allowed(s[0]) then "" else [s[0]] + LeadingRun(s[1..])
  }

  /** `FindString` of the allowed characters: the leftmost run. */
  function FindRun(s: string): string {
    if s == "" || Allowed(s[0]) then LeadingRun(s) else FindRun(s[1..])
  }

  const MAX_LENGTH := 249

  /** A name of 1 to 249 allowed characters, other than the two dot names. */
  predicate ValidID(s: string) {
    0 < |s| <= MAX_LENGTH && s != "." && s != ".." && forall c | c in s :: Allowed(c)
  }

  lemma {:induction false} RunLength(s: string)
    ensures |LeadingRun(s)| <= |s|
    ensures |LeadingRun(s)| == |s| <==> forall c | c in s :: Allowed(c)
  {
    if s != "" {
      RunLength(s[1..]);
      assert s == [s[0]] + s[1..];
    }
  }

  lemma {:induction false} FoundShorter(s: string)
    ensures |FindRun(s)| <= |s|
    ensures s != "" && !Allowed(s[0]) ==> |FindRun(s)| < |s|
  {
    RunLength(s);
    if s != "" && !Allowed(s[0]) {
      FoundShorter(s[1..]);
    }
  }

  /** `validateConfigID`: the regular expression's leftmost match must be the whole string. */
  method ValidateConfigID(s: string) returns (ok: bool)
    ensures ok <==> ValidID(s)
  {
    if |s| <= 0 || |s| > MAX_LENGTH {
      return false;
    }
    if s == "." || s == ".." {
      return false;
    }
    FoundShorter(s);
    RunLength(s);
    ok := |FindRun(s)| == |s|;
  }

  /** The leftmost run starts at the first allowed character. */
  lemma {:induction false} RunFound(s: string) returns (i: nat)
    ensures i <= |s| && (forall j | 0 <= j < i :: !Allowed(s[j])) && (i < |s| ==> Allowed(s[i]))
    ensures FindRun(s) == LeadingRun(s[i..])
  {
    if s == "" || Allowed(s[0]) {
      i := 0;
      assert s[0..] == s;
    } else {
      i := RunFound(s[1..]);
      i := i + 1;
      assert s[1..][i - 1..] == s[i..];
      assert forall j | 1 <= j < |s| :: s[j] == s[1..][j - 1];
    }
  }

  /** The code is that of a letter, a digit, the dash or the dot. */
  predicate NameCode(x: int) {
    97 <= x <= 122 || 65 <= x <= 90 || 48 <= x <= 57 || x == 45 || x == 46
  }

  /** A valid name, by its length and the codes of its characters. */
  lemma ValidIDIff(s: string)
    ensures ValidID(s) <==> 1 <= |s| <= 249 && s != "." && s != ".." && forall i | 0 <= i < |s| :: NameCode(s[i] as int)
  {
    forall i | 0 <= i < |s| ensures s[i] in s && (Allowed(s[i]) <==> NameCode(s[i] as int)) {
      AllowedAre(s[i]);
    }
  }

  /** The longest prefix of lower-case letters, digits, dots and dashes. */
  function ChannelRun(s: string): (run: string) {
    if s != "" && ('a' <= s[0] <= 'z' || '0' <= s[0] <= '9' || s[0] == '.' || s[0] == '-') then [s[0]] + ChannelRun(s[1..]) else ""
  }

  /** The leftmost match of `ChannelAllowedChars`: a lower-case letter and the run after it. */
  function FindChannel(s: string): (found: string) {
    if s == "" then ""
    else if 'a' <= s[0] <= 'z' then [s[0]] + ChannelRun(s[1..])
    else FindChannel(s[1..])
  }

  /** `ValidateChannelID`. */
  predicate ValidChannelID(s: string) {
    0 < |s| <= MAX_LENGTH && |FindChannel(s)| == |s|
  }

  /** The code is that of a lower-case letter, a digit, the dash or the dot. */
  predicate ChannelCode(x: int) {
    97 <= x <= 122 || 48 <= x <= 57 || x == 45 || x == 46
  }

  lemma {:induction false} ChannelRunLength(s: string)
    ensures |ChannelRun(s)| <= |s|
    ensures |ChannelRun(s)| == |s| <==> forall i | 0 <= i < |s| :: ChannelCode(s[i] as int)
  {
    if s != "" {
      ChannelRunLength(s[1..]);
      assert forall i | 1 <= i < |s| :: s[i] == s[1..][i - 1];
    }
  }

  lemma {:induction false} ChannelFoundShorter(s: string)
    ensures |FindChannel(s)| <= |s| && (s != "" && !('a' <= s[0] <= 'z') ==> |FindChannel(s)| < |s|)
  {
    if s != "" {
      ChannelRunLength(s[1..]);
      ChannelFoundShorter(s[1..]);
    }
  }

  /** A channel name is valid exactly if it has 1 to 249 of those characters and starts with a letter. */
  lemma {:induction false} ValidChannelIDIff(s: string)
    ensures ValidChannelID(s) <==>
      1 <= |s| <= 249 && 97 <= s[0] as int <= 122 && forall i | 0 <= i < |s| :: ChannelCode(s[i] as int)
  {
    ChannelFoundShorter(s);
    if s != "" {
      ChannelRunLength(s[1..]);
      assert forall i | 1 <= i < |s| :: s[i] == s[1..][i - 1];
    }
  }

  predicate AllValid(path: seq<string>) {
    forall i | 0 <= i < |path| :: ValidID(path[i])
  }

  lemma ValidIDPlain(s: string)
    requires ValidID(s)
    ensures Plain(s)
  {
    assert !Allowed(SEPARATOR);
  }

  // ---------------------------------------------------------------------------
  // Path keys
  // ---------------------------------------------------------------------------

  /** An element with the name and the path it was found under. */
  datatype Comparable = Comparable(key: string, path: seq<string>, element: Element)

  type ConfigMap = map<string, Comparable>

  function Prefix(kind: Kind): string {
    match kind
    case GROUP => "[Group]  "
    case VALUE => "[Value]  "
    case POLICY => "[Policy] "
  }

  lemma Prefixes()
    ensures Prefix(GROUP) == "[Group]  " && Prefix(VALUE) == "[Value]  " && Prefix(POLICY) == "[Policy] "
  {
  }

  /** The map key that `addToMap` computes. */
  function FqPath(c: Comparable): string {
    Prefix(KindOf(c.element)) + if c.path == [] then [SEPARATOR] + c.key else [SEPARATOR] + Join(c.path) + [SEPARATOR] + c.key
  }

  /** The key of a kind of element at a location, the location counted from the root's own name. */
  function Fq(kind: Kind, loc: seq<string>): string {
    Prefix(kind) + Slashed(loc)
  }

  function Loc(c: Comparable): seq<string> {
    c.path + [c.key]
  }

  function Place(loc: seq<string>, e: Element): (c: Comparable)
    requires loc != []
    ensures Loc(c) == loc && c.element == e
  {
    Comparable(loc[|loc| - 1], loc[..|loc| - 1], e)
  }

  lemma FqPathIsFq(c: Comparable)
    ensures FqPath(c) == Fq(KindOf(c.element), Loc(c))
  {
    SlashedSnoc(c.path, c.key);
    if c.path != [] {
      SlashedIsJoin(c.path);
    }
  }

  /** Different kinds or different plain locations have different keys. */
  lemma FqInjective(kind: Kind, loc: seq<string>, kind': Kind, loc': seq<string>)
    requires AllPlain(loc) && AllPlain(loc') && Fq(kind, loc) == Fq(kind', loc')
    ensures kind == kind' && loc == loc'
  {
    var k := Fq(kind, loc);
    assert Prefix(kind) == k[..9] == Prefix(kind');
    assert Prefix(kind)[1] == Prefix(kind')[1];
    assert Slashed(loc) == k[9..] == Slashed(loc');
    SlashedInjective(loc, loc');
  }

  // ---------------------------------------------------------------------------
  // mapConfig
  // ---------------------------------------------------------------------------

  predicate ValidNames(g: Group)
    decreases g
  {
    && (forall name | name in g.groups :: ValidID(name) && ValidNames(g.groups[name]))
    && (forall name | name in g.values :: ValidID(name))
    && (forall name | name in g.policies :: ValidID(name))
  }

  /** Every element of the tree, placed under the location of the group. */
  function Items(g: Group, loc: seq<string>): set<Comparable>
    requires loc != []
    decreases g, 1
  {
    {Place(loc, GroupElement(g))} + NestedItems(g, loc) + ValueItems(g, loc) + PolicyItems(g, loc)
  }

  function NestedItems(g: Group, loc: seq<string>): set<Comparable>
    requires loc != []
    decreases g, 0
  {
    set name, c | name in g.groups && c in Items(g.groups[name], loc + [name]) :: c
  }

  function ValueItems(g: Group, loc: seq<string>): set<Comparable> {
    set name | name in g.values :: Place(loc + [name], ValueElement(g.values[name]))
  }

  function PolicyItems(g: Group, loc: seq<string>): set<Comparable> {
    set name | name in g.policies :: Place(loc + [name], PolicyElement(g.policies[name]))
  }

  /** The item stands for the element at a position below the group. */
  ghost predicate Stands(c: Comparable, g: Group, loc: seq<string>, rel: seq<string>)
    requires loc != []
  {
    Lookup(g, rel, KindOf(c.element)) == Some(c.element) && c == Place(loc + rel, c.element)
  }

  lemma StandsBelow(c: Comparable, g: Group, loc: seq<string>, name: string, rel: seq<string>)
    requires loc != [] && name in g.groups && Stands(c, g.groups[name], loc + [name], rel)
    ensures Stands(c, g, loc, [name] + rel)
  {
    assert loc + [name] + rel == loc + ([name] + rel);
    LookupBelow(g, name, rel, KindOf(c.element));
  }

  lemma MemberItemStands(c: Comparable, g: Group, loc: seq<string>) returns (rel: seq<string>)
    requires loc != [] && (c in ValueItems(g, loc) || c in PolicyItems(g, loc))
    ensures Stands(c, g, loc, rel)
  {
    if c in ValueItems(g, loc) {
      var name :| name in g.values && c == Place(loc + [name], ValueElement(g.values[name]));
      LookupMember(g, name, VALUE);
      rel := [name];
    } else {
      var name :| name in g.policies && c == Place(loc + [name], PolicyElement(g.policies[name]));
      LookupMember(g, name, POLICY);
      rel := [name];
    }
  }

  /** Every item is the element found at its own position ... */
  lemma {:induction false} ItemIsElement(g: Group, loc: seq<string>, c: Comparable) returns (rel: seq<string>)
    requires loc != [] && c in Items(g, loc)
    ensures Stands(c, g, loc, rel)
    decreases g
  {
    if c == Place(loc, GroupElement(g)) {
      rel := [];
      assert loc + rel == loc;
    } else if c in NestedItems(g, loc) {
      var name :| name in g.groups && c in Items(g.groups[name], loc + [name]);
      var r := ItemIsElement(g.groups[name], loc + [name], c);
      StandsBelow(c, g, loc, name, r);
      rel := [name] + r;
    } else {
      rel := MemberItemStands(c, g, loc);
    }
  }

  lemma {:induction false} MemberIsItem(g: Group, loc: seq<string>, name: string, kind: Kind)
    requires loc != [] && Lookup(g, [name], kind).Some?
    ensures Place(loc + [name], Lookup(g, [name], kind).value) in Items(g, loc)
  {
    LookupMember(g, name, kind);
    if kind == GROUP {
      var child := g.groups[name];
      assert Place(loc + [name], GroupElement(child)) in Items(child, loc + [name]);
      assert Place(loc + [name], GroupElement(child)) in NestedItems(g, loc);
    }
  }

  /** ... and every element is an item. */
  lemma {:induction false} ElementIsItem(g: Group, loc: seq<string>, rel: seq<string>, kind: Kind)
    requires loc != [] && Lookup(g, rel, kind).Some?
    ensures Place(loc + rel, Lookup(g, rel, kind).value) in Items(g, loc)
    decreases |rel|
  {
    if rel == [] {
      assert loc + rel == loc;
    } else if |rel| == 1 {
      assert rel == [rel[0]];
      MemberIsItem(g, loc, rel[0], kind);
    } else {
      assert rel == [rel[0]] + rel[1..];
      FirstStepExists(g, rel, kind);
      LookupBelow(g, rel[0], rel[1..], kind);
      ElementIsItem(g.groups[rel[0]], loc + [rel[0]], rel[1..], kind);
      assert loc + [rel[0]] + rel[1..] == loc + rel;
      ItemBelow(g, loc, rel[0], Place(loc + rel, Lookup(g, rel, kind).value));
    }
  }

  /** The items of a sub-group are items of the group. */
  lemma {:induction false} ItemBelow(g: Group, loc: seq<string>, name: string, c: Comparable)
    requires loc != [] && name in g.groups && c in Items(g.groups[name], loc + [name])
    ensures c in Items(g, loc)
  {
    assert c in NestedItems(g, loc);
  }

  lemma {:induction false} FirstStepExists(g: Group, rel: seq<string>, kind: Kind)
    requires |rel| >= 2 && Lookup(g, rel, kind).Some?
    ensures rel[0] in g.groups
    decreases |rel|
  {
    var init := rel[..|rel| - 1];
    if |rel| == 2 {
      LookupMember(g, rel[0], GROUP);
      assert init == [rel[0]];
    } else {
      FirstStepExists(g, init, GROUP);
    }
  }

  // ---------------------------------------------------------------------------

  /** Distinct items have distinct keys. */
  ghost predicate DistinctKeys(s: set<Comparable>) {
    forall c, d | c in s && d in s && FqPath(c) == FqPath(d) :: c == d
  }

  lemma {:induction false} NamesPlain(g: Group, rel: seq<string>, kind: Kind)
    requires ValidNames(g) && Lookup(g, rel, kind).Some?
    ensures AllPlain(rel)
    ensures kind == GROUP ==> ValidNames(Lookup(g, rel, kind).value.group)
    decreases |rel|
  {
    if rel != [] {
      NamesPlain(g, rel[..|rel| - 1], GROUP);
      ValidIDPlain(rel[|rel| - 1]);
    }
  }

  /** Items of one tree at plain locations with the same key are the same item. */
  lemma KeyFixesItem(g: Group, loc: seq<string>, c: Comparable, d: Comparable)
    requires loc != [] && c in Items(g, loc) && d in Items(g, loc)
    requires AllPlain(Loc(c)) && AllPlain(Loc(d)) && FqPath(c) == FqPath(d)
    ensures c == d
  {
    var p := ItemIsElement(g, loc, c);
    var q := ItemIsElement(g, loc, d);
    FqPathIsFq(c);
    FqPathIsFq(d);
    FqInjective(KindOf(c.element), Loc(c), KindOf(d.element), Loc(d));
    assert p == (loc + p)[|loc|..] == (loc + q)[|loc|..] == q;
  }

  lemma ItemPlain(g: Group, root: string, c: Comparable)
    requires ValidID(root) && ValidNames(g) && c in Items(g, [root])
    ensures AllPlain(Loc(c))
  {
    var p := ItemIsElement(g, [root], c);
    NamesPlain(g, p, KindOf(c.element));
    ValidIDPlain(root);
  }

  /** Distinct tree positions get distinct keys, because valid names contain no separator. */
  lemma ItemsDistinct(g: Group, root: string)
    requires ValidID(root) && ValidNames(g)
    ensures DistinctKeys(Items(g, [root]))
  {
    forall c, d | c in Items(g, [root]) && d in Items(g, [root]) && FqPath(c) == FqPath(d) ensures c == d {
      ItemPlain(g, root, c);
      ItemPlain(g, root, d);
      KeyFixesItem(g, [root], c, d);
    }
  }

  /** The item under a key. */
  function ItemFor(s: set<Comparable>, k: string): (c: Comparable)
    requires DistinctKeys(s) && exists c :: c in s && FqPath(c) == k
    ensures c in s && FqPath(c) == k
  {
    var c :| c in s && FqPath(c) == k;
    c
  }

  function Keyed(s: set<Comparable>): (m: ConfigMap)
    requires DistinctKeys(s)
    ensures forall c | c in s :: FqPath(c) in m && m[FqPath(c)] == c
    ensures forall k | k in m :: m[k] in s && FqPath(m[k]) == k
  {
    var keys := set c | c in s :: FqPath(c);
    map k | k in keys :: ItemFor(s, k)
  }

  /** `mapConfig`; an unset group gives the empty map, an invalid name an error. */
  function MapConfig(g: Option<Group>, root: string): Option<ConfigMap> {
    if g.None? then Some(map[])
    else if !ValidID(root) || !ValidNames(g.value) then None
    else
      ItemsDistinct(g.value, root);
      Some(Keyed(Items(g.value, [root])))
  }

  /** Every element of the tree is in its map under its key ... */
  lemma MapHas(g: Group, root: string, rel: seq<string>, kind: Kind)
    requires MapConfig(Some(g), root).Some? && Lookup(g, rel, kind).Some?
    ensures var m := MapConfig(Some(g), root).value;
            && Fq(kind, [root] + rel) in m
            && m[Fq(kind, [root] + rel)] == Place([root] + rel, Lookup(g, rel, kind).value)
  {
    ElementIsItem(g, [root], rel, kind);
    var c := Place([root] + rel, Lookup(g, rel, kind).value);
    FqPathIsFq(c);
    ItemsDistinct(g, root);
  }

  /** ... and nothing else is. */
  lemma MapOnly(g: Group, root: string, k: string) returns (rel: seq<string>, kind: Kind)
    requires MapConfig(Some(g), root).Some? && k in MapConfig(Some(g), root).value
    ensures k == Fq(kind, [root] + rel) && Lookup(g, rel, kind).Some?
    ensures MapConfig(Some(g), root).value[k] == Place([root] + rel, Lookup(g, rel, kind).value)
    ensures AllPlain([root] + rel)
  {
    var c := MapConfig(Some(g), root).value[k];
    rel := ItemIsElement(g, [root], c);
    kind := KindOf(c.element);
    FqPathIsFq(c);
    NamesPlain(g, rel, kind);
    ValidIDPlain(root);
  }
}
