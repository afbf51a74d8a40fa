/**
 Block signatures: `SignatureSetToValidIdentities` (common/policies/policy.go), `BlockSignatureVerifier`
 (protoutil/blockutils.go) and the quorum policy of common/policies/bft.go.
 */
module BlockSignatures {
  import opened BftQuorum
  import opened Bytes
  import opened HeaderEncoding
  import opened PolicyConversion
  import opened SignaturePolicies
  import opened WireFormat
  import opened Wrappers

  /** What a membership service provider answers about identities of type `I`. */
  datatype Msp<!I> = Msp(
    deserialize: bytes -> Option<I>,
    mspid: I -> bytes,
    id: I -> bytes,
    verify: (I, bytes, bytes) -> bool,
    sat: (I, Principal) -> bool)

  datatype SignedData = SignedData(identity: bytes, data: bytes, signature: bytes)

  // ---------------------------------------------------------------------------
  // SignatureSetToValidIdentities
  // ---------------------------------------------------------------------------

  /** The deduplication key of an identity. */
  function IdentityKey<I>(msp: Msp<I>, id: I): bytes {
    msp.mspid(id) + msp.id(id)
  }

  function IdentityKeys<I>(msp: Msp<I>, ids: seq<I>): set<bytes> {
    set i | 0 <= i < |ids| :: IdentityKey(msp, ids[i])
  }

  lemma KeysOfAppend<I>(msp: Msp<I>, ids: seq<I>, id: I)
    ensures IdentityKeys(msp, ids + [id]) == IdentityKeys(msp, ids) + {IdentityKey(msp, id)}
  {
    var more := ids + [id];
    assert more[|ids|] == id;
    forall k | k in IdentityKeys(msp, ids) ensures k in IdentityKeys(msp, more) {
      var i :| 0 <= i < |ids| && k == IdentityKey(msp, ids[i]);
      assert more[i] == ids[i];
    }
  }

  /** The identities kept, in order of their first valid signature. */
  function ValidIdentities<I>(sds: seq<SignedData>, msp: Msp<I>): seq<I> {
    if sds == [] then []
    else
      var ids := ValidIdentities(sds[..|sds| - 1], msp);
      var sd := sds[|sds| - 1];
      var id := msp.deserialize(sd.identity);
      if id.Some? && IdentityKey(msp, id.value) !in IdentityKeys(msp, ids) && msp.verify(id.value, sd.data, sd.signature)
      then ids + [id.value] else ids
  }

  method SignatureSetToValidIdentities<I>(sds: seq<SignedData>, msp: Msp<I>) returns (ids: seq<I>)
    ensures ids == ValidIdentities(sds, msp)
  {
    ids := [];
    var idMap := {};
    for i := 0 to |sds|
      invariant ids == ValidIdentities(sds[..i], msp)
      invariant idMap == IdentityKeys(msp, ids)
    {
      assert sds[..i + 1][..i] == sds[..i];
      var identity := msp.deserialize(sds[i].identity);
      if identity.None? {
        continue;
      }
      var key := IdentityKey(msp, identity.value);
      if key in idMap {
        continue;
      }
      if !msp.verify(identity.value, sds[i].data, sds[i].signature) {
        continue;
      }
      KeysOfAppend(msp, ids, identity.value);
      idMap := idMap + {key};
      ids := ids + [identity.value];
    }
    assert sds[..|sds|] == sds;
  }

  /** The entry carries a valid signature of the identity. */
  ghost predicate SignsFor<I>(sd: SignedData, id: I, msp: Msp<I>) {
    msp.deserialize(sd.identity) == Some(id) && msp.verify(id, sd.data, sd.signature)
  }

  /** No two identities have the same key. */
  lemma {:induction false} ValidIdentitiesDistinct<I>(sds: seq<SignedData>, msp: Msp<I>, i: nat, j: nat)
    requires i < j < |ValidIdentities(sds, msp)|
    ensures IdentityKey(msp, ValidIdentities(sds, msp)[i]) != IdentityKey(msp, ValidIdentities(sds, msp)[j])
  {
    var ids := ValidIdentities(sds[..|sds| - 1], msp);
    if j < |ids| {
      ValidIdentitiesDistinct(sds[..|sds| - 1], msp, i, j);
    } else {
      assert IdentityKey(msp, ids[i]) in IdentityKeys(msp, ids);
    }
  }

  /** Each identity has a valid signature in the set. */
  lemma {:induction false} ValidIdentitySigned<I>(sds: seq<SignedData>, msp: Msp<I>, i: nat) returns (k: nat)
    requires i < |ValidIdentities(sds, msp)|
    ensures k < |sds| && SignsFor(sds[k], ValidIdentities(sds, msp)[i], msp)
  {
    k := |sds| - 1;
    if i < |ValidIdentities(sds[..k], msp)| {
      k := ValidIdentitySigned(sds[..k], msp, i);
    }
  }

  /** Every identity with a valid signature is represented under its key, wherever invalid ones stand. */
  lemma {:induction false} SignerRepresented<I>(sds: seq<SignedData>, msp: Msp<I>, k: nat, id: I)
    requires k < |sds| && SignsFor(sds[k], id, msp)
    ensures IdentityKey(msp, id) in IdentityKeys(msp, ValidIdentities(sds, msp))
  {
    var last := |sds| - 1;
    var ids := ValidIdentities(sds[..last], msp);
    if k < last {
      SignerRepresented(sds[..last], msp, k, id);
    }
    var other := msp.deserialize(sds[last].identity);
    if other.Some? {
      KeysOfAppend(msp, ids, other.value);
    }
  }

  // ---------------------------------------------------------------------------
  // BlockSignatureVerifier
  // ---------------------------------------------------------------------------

  datatype Consenter = Consenter(id: nat, mspId: bytes, identity: bytes)

  /** The marshalled `SerializedIdentity` of a consenter. */
  function SerializedIdentity(c: Consenter): bytes {
    LenField(10, c.mspId) + LenField(18, c.identity)
  }

  /** `searchConsenterIdentityByID`; empty when there is none. */
  function SearchConsenter(consenters: seq<Consenter>, id: nat): bytes {
    if consenters == [] then []
    else if consenters[0].id == id then SerializedIdentity(consenters[0])
    else SearchConsenter(consenters[1..], id)
  }

  datatype MetadataSignature = MetadataSignature(signatureHeader: bytes, signature: bytes, identifierHeader: bytes)
  datatype Metadata = Metadata(value: bytes, signatures: seq<MetadataSignature>)

  /** The decoders of the block metadata, of an identifier header and of a signature header's creator. */
  datatype Codec = Codec(
    metadata: bytes -> Option<Metadata>,
    identifier: bytes -> Option<nat>,
    creator: bytes -> Option<bytes>)

  /** The signed payload ends in the bytes of the header. */
  ghost predicate Covers(data: bytes, header: Header) {
    |HeaderBytes(header)| <= |data| && data[|data| - |HeaderBytes(header)|..] == HeaderBytes(header)
  }

  /** What happens to one metadata signature: an error, a skip, or an entry of the signature set. */
  datatype Entry = Malformed | Skipped | Listed(sd: SignedData)

  function ToEntry(bft: bool, consenters: seq<Consenter>, codec: Codec, value: bytes, s: MetadataSignature, header: Header): (e: Entry)
    ensures e.Listed? ==> Covers(e.sd.data, header)
  {
    if bft && s.signatureHeader == [] && s.identifierHeader != [] then
      var id := codec.identifier(s.identifierHeader);
      if id.None? then Malformed
      else
        var signer := SearchConsenter(consenters, id.value);
        if signer == [] then Skipped
        else Listed(SignedData(signer, value + s.identifierHeader + HeaderBytes(header), s.signature))
    else
      var creator := codec.creator(s.signatureHeader);
      if creator.None? then Malformed
      else Listed(SignedData(creator.value, value + s.signatureHeader + HeaderBytes(header), s.signature))
  }

  /** The signature set, or `None` when some header does not decode. */
  function SignatureSet(bft: bool, consenters: seq<Consenter>, codec: Codec, value: bytes, sigs: seq<MetadataSignature>, header: Header)
    : (signed: Option<seq<SignedData>>)
    ensures signed.Some? ==> forall k | 0 <= k < |signed.value| :: Covers(signed.value[k].data, header)
  {
    if sigs == [] then Some([])
    else
      var init := SignatureSet(bft, consenters, codec, value, sigs[..|sigs| - 1], header);
      var e := ToEntry(bft, consenters, codec, value, sigs[|sigs| - 1], header);
      if init.None? || e.Malformed? then None
      else if e.Skipped? then init
      else Some(init.value + [e.sd])
  }

  /** A block verifier: the mode, the consenters and the policy it was assembled from. */
  datatype Verifier = Verifier(bft: bool, consenters: seq<Consenter>, policy: Policy)

  /** `BlockSignatureVerifier` accepts the header with the block metadata. */
  predicate Verified<I>(v: Verifier, codec: Codec, msp: Msp<I>, header: Header, metadata: seq<bytes>) {
    && |metadata| >= 1
    && codec.metadata(metadata[0]).Some?
    && var md := codec.metadata(metadata[0]).value;
       var signed := SignatureSet(v.bft, v.consenters, codec, md.value, md.signatures, header);
       signed.Some? && Accepts(v.policy, ValidIdentities(signed.value, msp), msp.sat)
  }

  /** The loop over the metadata signatures, with its early error return. */
  method CollectSignatures(v: Verifier, codec: Codec, value: bytes, sigs: seq<MetadataSignature>, header: Header)
    returns (signed: Option<seq<SignedData>>)
    ensures signed == SignatureSet(v.bft, v.consenters, codec, value, sigs, header)
  {
    var signatureSet := [];
    for i := 0 to |sigs|
      invariant SignatureSet(v.bft, v.consenters, codec, value, sigs[..i], header) == Some(signatureSet)
    {
      assert sigs[..i + 1][..i] == sigs[..i];
      var e := ToEntry(v.bft, v.consenters, codec, value, sigs[i], header);
      if e.Malformed? {
        MalformedStays(v, codec, value, sigs, i + 1, header);
        return None;
      }
      if e.Listed? {
        signatureSet := signatureSet + [e.sd];
      }
    }
    assert sigs[..|sigs|] == sigs;
    signed := Some(signatureSet);
  }

  /** The closure that `BlockSignatureVerifier` returns. */
  method VerifySignatures<I>(v: Verifier, codec: Codec, msp: Msp<I>, header: Header, metadata: seq<bytes>) returns (ok: bool)
    ensures ok == Verified(v, codec, msp, header, metadata)
  {
    if |metadata| < 1 {
      return false;
    }
    var md := codec.metadata(metadata[0]);
    if md.None? {
      return false;
    }
    var signed := CollectSignatures(v, codec, md.value.value, md.value.signatures, header);
    if signed.None? {
      return false;
    }
    var ids := SignatureSetToValidIdentities(signed.value, msp);
    ok := EvaluateIdentities(v.policy, ids, msp.sat);
  }

  lemma {:induction false} MalformedStays(v: Verifier, codec: Codec, value: bytes, sigs: seq<MetadataSignature>, k: nat, header: Header)
    requires k <= |sigs|
    requires SignatureSet(v.bft, v.consenters, codec, value, sigs[..k], header).None?
    ensures SignatureSet(v.bft, v.consenters, codec, value, sigs, header).None?
  {
    if k == |sigs| {
      assert sigs[..k] == sigs;
    } else {
      assert sigs[..|sigs| - 1][..k] == sigs[..k];
      MalformedStays(v, codec, value, sigs[..|sigs| - 1], k, header);
    }
  }

  // ---------------------------------------------------------------------------
  // The quorum policy
  // ---------------------------------------------------------------------------

  /** The IDENTITY principal of a consenter. */
  function ConsenterPrincipal(c: Consenter): Principal {
    Principal(2, SerializedIdentity(c))
  }

  function ConsenterPrincipals(consenters: seq<Consenter>): seq<Principal> {
    seq(|consenters|, i requires 0 <= i < |consenters| => ConsenterPrincipal(consenters[i]))
  }

  function OneSignatureEach(n: nat): (rules: seq<Rule>) {
    seq(n, i => SignedBy(i))
  }

  /** A quorum of the consenters, one signature each. */
  function BftPolicy(consenters: seq<Consenter>): Envelope {
    Envelope(0, NOutOf(Quorum(|consenters|), OneSignatureEach(|consenters|)), ConsenterPrincipals(consenters))
  }

  datatype ConfigPolicy = ConfigPolicy(modPolicy: string, policy: Policy)

  const BLOCK_VALIDATION := "BlockValidation"

  /** The orderer group's policies. */
  class OrdererGroup {
    var policies: map<string, ConfigPolicy>

    constructor (policies: map<string, ConfigPolicy>)
      ensures this.policies == policies
    {
      this.policies := policies;
    }

    /** `EncodeBFTBlockVerificationPolicy`: replaces the block validation policy, keeps who may modify it. */
    method EncodeBFTBlockVerificationPolicy(consenters: seq<Consenter>)
      requires BLOCK_VALIDATION in policies
      modifies this
      ensures policies == old(policies)[BLOCK_VALIDATION :=
                            ConfigPolicy(old(policies)[BLOCK_VALIDATION].modPolicy, Signature(BftPolicy(consenters)))]
    {
      var n := |consenters|;
      var f := FaultBound(n);
      var identities: seq<Principal> := [];
      var pols: seq<Rule> := [];
      for i := 0 to n
        invariant pols == OneSignatureEach(i)
        invariant identities == ConsenterPrincipals(consenters)[..i]
      {
        pols := pols + [SignedBy(i)];
        identities := identities + [ConsenterPrincipal(consenters[i])];
      }
      var sp := Envelope(0, NOutOf(ComputeBFTQuorum(n, f), pols), identities);
      assert sp == BftPolicy(consenters);
      policies := policies[BLOCK_VALIDATION := ConfigPolicy(policies[BLOCK_VALIDATION].modPolicy, Signature(sp))];
    }
  }

  function ConsenterLeaves(consenters: seq<Consenter>): seq<Compiled<Principal>> {
    seq(|consenters|, i requires 0 <= i < |consenters| => Leaf(ConsenterPrincipal(consenters[i])))
  }

  lemma BftPolicyCompiles(consenters: seq<Consenter>)
    ensures NewPolicy(BftPolicy(consenters)) == Some(Gate(Quorum(|consenters|), ConsenterLeaves(consenters)))
  {
    var e := BftPolicy(consenters);
    forall k | 0 <= k < |consenters| ensures Compile(e.rule.rules[k], e.identities) == Some(ConsenterLeaves(consenters)[k]) {
      assert e.rule.rules[k] == SignedBy(k);
    }
    assert forall k | 0 <= k < |consenters| :: Resolvable(e.rule.rules[k], |e.identities|);
    assert CompileAll(e.rule.rules, e.identities).value == ConsenterLeaves(consenters);
  }

  // ---------------------------------------------------------------------------
  // Acceptance needs, and is given by, a quorum of consenters
  // ---------------------------------------------------------------------------

  /** The positions of the sub-policies that an assignment counts. */
  ghost function MetPositions(bs: seq<Assignment>): (s: set<nat>)
    ensures forall j: nat :: j in s <==> j < |bs| && !bs[j].Unmet?
    ensures |s| == CountMet(bs)
  {
    if bs == [] then {}
    else
      var s := MetPositions(bs[..|bs| - 1]);
      if bs[|bs| - 1].Unmet? then s else s + {|bs| - 1}
  }

  /** Distinct consenters matched with distinct identities that satisfy their principals. */
  ghost predicate Matching<I>(m: map<nat, nat>, consenters: seq<Consenter>, ids: seq<I>, sat: (I, Principal) -> bool) {
    && (forall j | j in m :: j < |consenters| && m[j] < |ids| && sat(ids[m[j]], ConsenterPrincipal(consenters[j])))
    && (forall j, k | j in m && k in m && j != k :: m[j] != m[k])
  }

  /** An assignment to the consenters' leaves that uses no identity twice is a matching. */
  lemma LeavesToMatching<I(!new)>(consenters: seq<Consenter>, ids: seq<I>, sat: (I, Principal) -> bool, bs: seq<Assignment>)
    returns (m: map<nat, nat>)
    requires MeetsEach(ConsenterLeaves(consenters), ids, bs, sat)
    requires forall i: nat :: AllSigners(bs)[i] <= 1
    ensures Matching(m, consenters, ids, sat) && |m| == CountMet(bs)
  {
    var leaves := ConsenterLeaves(consenters);
    forall j: nat | j in MetPositions(bs)
      ensures bs[j].Signer? && bs[j].who < |ids| && sat(ids[bs[j].who], ConsenterPrincipal(consenters[j]))
    {
      assert Meets(leaves[j], ids, bs[j], sat);
    }
    m := map j | j in MetPositions(bs) :: bs[j].who;
    assert m.Keys == MetPositions(bs);
    forall j, k | j in m && k in m && j < k ensures m[j] != m[k] {
      if m[j] == m[k] {
        SignersTwice(bs, j, k);
      }
    }
  }

  /** Acceptance by the quorum policy matches a quorum of consenters with distinct identities. */
  lemma QuorumNeeded<I(!new)>(consenters: seq<Consenter>, ids: seq<I>, sat: (I, Principal) -> bool) returns (m: map<nat, nat>)
    requires Accepts(Signature(BftPolicy(consenters)), ids, sat)
    ensures Matching(m, consenters, ids, sat) && |m| >= Quorum(|consenters|)
  {
    BftPolicyCompiles(consenters);
    var a := EvaluatorSound(Gate(Quorum(|consenters|), ConsenterLeaves(consenters)), ids, Unused(|ids|), sat);
    m := LeavesToMatching(consenters, ids, sat, a.subs);
  }

  /** No identity satisfies the principals of two consenters. */
  ghost predicate OneSeatEach<I>(consenters: seq<Consenter>, ids: seq<I>, sat: (I, Principal) -> bool) {
    forall i, j, k | 0 <= i < |ids| && 0 <= j < k < |consenters| ::
      !(sat(ids[i], ConsenterPrincipal(consenters[j])) && sat(ids[i], ConsenterPrincipal(consenters[k])))
  }

  lemma MatchingLeaf<I(!new)>(consenters: seq<Consenter>, ids: seq<I>, sat: (I, Principal) -> bool, m: map<nat, nat>, j: nat)
    requires Matching(m, consenters, ids, sat) && j in m
    ensures j < |consenters| && Meets(ConsenterLeaves(consenters)[j], ids, Signer(m[j]), sat)
  {
  }

  /** The matching as an assignment to the consenters' leaves. */
  ghost function MatchedLeaves(n: nat, m: map<nat, nat>): (bs: seq<Assignment>)
    ensures |bs| == n && forall j | 0 <= j < n :: bs[j] == if j in m then Signer(m[j]) else Unmet
  {
    seq(n, j => if j in m then Signer(m[j]) else Unmet)
  }

  lemma MatchedCount(n: nat, m: map<nat, nat>)
    requires forall j | j in m :: j < n
    ensures CountMet(MatchedLeaves(n, m)) == |m|
  {
    assert MetPositions(MatchedLeaves(n, m)) == m.Keys;
  }

  lemma {:induction false} MatchingToLeaves<I(!new)>(consenters: seq<Consenter>, ids: seq<I>, sat: (I, Principal) -> bool, m: map<nat, nat>)
    returns (bs: seq<Assignment>)
    requires Matching(m, consenters, ids, sat)
    ensures MeetsEach(ConsenterLeaves(consenters), ids, bs, sat) && CountMet(bs) == |m|
  {
    bs := MatchedLeaves(|consenters|, m);
    MatchedCount(|consenters|, m);
    forall j: nat | j < |consenters| && j in m ensures Meets(ConsenterLeaves(consenters)[j], ids, bs[j], sat) {
      MatchingLeaf(consenters, ids, sat, m, j);
    }
  }

  lemma LeavesUnambiguous<I(!new)>(consenters: seq<Consenter>, ids: seq<I>, sat: (I, Principal) -> bool, n: int)
    requires OneSeatEach(consenters, ids, sat)
    ensures Unambiguous(Gate(n, ConsenterLeaves(consenters)), ids, sat)
  {
    var leaves := ConsenterLeaves(consenters);
    forall i, j, k | 0 <= i < |ids| && 0 <= j < k < |leaves|
      ensures !(Relevant(leaves[j], ids[i], sat) && Relevant(leaves[k], ids[i], sat))
    {
      assert leaves[j] == Leaf(ConsenterPrincipal(consenters[j])) && leaves[k] == Leaf(ConsenterPrincipal(consenters[k]));
    }
  }

  /** Conversely a matched quorum is accepted, when no identity passes for two consenters. */
  lemma QuorumSuffices<I(!new)>(consenters: seq<Consenter>, ids: seq<I>, sat: (I, Principal) -> bool, m: map<nat, nat>)
    requires Matching(m, consenters, ids, sat) && |m| >= Quorum(|consenters|)
    requires OneSeatEach(consenters, ids, sat)
    ensures Accepts(Signature(BftPolicy(consenters)), ids, sat)
  {
    var gate := Gate(Quorum(|consenters|), ConsenterLeaves(consenters));
    var bs := MatchingToLeaves(consenters, ids, sat, m);
    LeavesUnambiguous(consenters, ids, sat, gate.n);
    assert Meets(gate, ids, Chosen(bs), sat);
    EvaluatorComplete(gate, ids, Unused(|ids|), sat, Chosen(bs));
    BftPolicyCompiles(consenters);
  }

  /** Two leaves held by one identity would count it twice. */
  lemma {:induction false} SignersTwice(bs: seq<Assignment>, j: nat, k: nat)
    requires j < k < |bs| && bs[j].Signer? && bs[k].Signer? && bs[j].who == bs[k].who
    ensures AllSigners(bs)[bs[k].who] >= 2
  {
    var last := |bs| - 1;
    if k == last {
      SignersOnce(bs[..last], j);
    } else {
      SignersTwice(bs[..last], j, k);
    }
  }

  lemma {:induction false} SignersOnce(bs: seq<Assignment>, j: nat)
    requires j < |bs| && bs[j].Signer?
    ensures AllSigners(bs)[bs[j].who] >= 1
  {
    var last := |bs| - 1;
    if j < last {
      SignersOnce(bs[..last], j);
    }
  }

  // ---------------------------------------------------------------------------
  // No two headers at one height
  // ---------------------------------------------------------------------------

  /** The consenter's identity has a valid signature over a payload that ends in the header. */
  ghost predicate Vouches<I>(msp: Msp<I>, c: Consenter, h: Header, id: I, sd: SignedData) {
    msp.sat(id, ConsenterPrincipal(c)) && SignsFor(sd, id, msp) && Covers(sd.data, h)
  }

  /** The consenter has an entry in the signature set that vouches for the header. */
  ghost predicate SignedIn<I>(msp: Msp<I>, c: Consenter, h: Header, sds: seq<SignedData>) {
    exists k | 0 <= k < |sds| :: msp.deserialize(sds[k].identity).Some? && Vouches(msp, c, h, msp.deserialize(sds[k].identity).value, sds[k])
  }

  /** The signature set of a header with its own metadata. */
  function SignaturesOf(v: Verifier, codec: Codec, h: Header, metadata: seq<bytes>): seq<SignedData> {
    if metadata == [] || codec.metadata(metadata[0]).None? then []
    else
      var md := codec.metadata(metadata[0]).value;
      var signed := SignatureSet(v.bft, v.consenters, codec, md.value, md.signatures, h);
      if signed.None? then [] else signed.value
  }

  /** The consenters whose signatures stand in the metadata of two different headers of one number. */
  ghost function Equivocators<I>(v: Verifier, codec: Codec, msp: Msp<I>, h: Header, metadata: seq<bytes>, k: Header, metadata': seq<bytes>)
    : set<nat>
  {
    if h == k || h.number != k.number then {}
    else
      set j | j in Range(|v.consenters|)
              && SignedIn(msp, v.consenters[j], h, SignaturesOf(v, codec, h, metadata))
              && SignedIn(msp, v.consenters[j], k, SignaturesOf(v, codec, k, metadata'))
  }

  /** A verified header carries, in its own metadata, the signatures of a quorum of the consenters. */
  lemma VerifiedBySigners<I(!new)>(v: Verifier, codec: Codec, msp: Msp<I>, h: Header, metadata: seq<bytes>) returns (s: set<nat>)
    requires v.policy == Signature(BftPolicy(v.consenters))
    requires Verified(v, codec, msp, h, metadata)
    ensures s <= Range(|v.consenters|) && |s| >= Quorum(|v.consenters|)
    ensures forall j | j in s :: SignedIn(msp, v.consenters[j], h, SignaturesOf(v, codec, h, metadata))
  {
    var sds := SignaturesOf(v, codec, h, metadata);
    var ids := ValidIdentities(sds, msp);
    var m := QuorumNeeded(v.consenters, ids, msp.sat);
    s := m.Keys;
    forall j | j in s ensures j < |v.consenters| && SignedIn(msp, v.consenters[j], h, sds) {
      var k := ValidIdentitySigned(sds, msp, m[j]);
      assert Vouches(msp, v.consenters[j], h, ids[m[j]], sds[k]);
    }
  }

  /** Without consenters nothing is verified. */
  lemma SomeConsenter(n: nat, s: set<nat>)
    requires s <= Range(n) && |s| >= Quorum(n)
    ensures n >= 1
  {
    SubsetSize(s, Range(n));
  }

  /** Two verified headers, of any content, share at least `f + 1` consenters whose signatures stand in the metadata of both. */
  lemma SharedSigners<I(!new)>(v: Verifier, codec: Codec, msp: Msp<I>, h: Header, metadata: seq<bytes>, k: Header, metadata': seq<bytes>)
    returns (s: set<nat>)
    requires v.policy == Signature(BftPolicy(v.consenters))
    requires Verified(v, codec, msp, h, metadata) && Verified(v, codec, msp, k, metadata')
    ensures s <= Range(|v.consenters|) && |s| >= FaultBound(|v.consenters|) + 1
    ensures forall j | j in s ::
      && SignedIn(msp, v.consenters[j], h, SignaturesOf(v, codec, h, metadata))
      && SignedIn(msp, v.consenters[j], k, SignaturesOf(v, codec, k, metadata'))
  {
    var a := VerifiedBySigners(v, codec, msp, h, metadata);
    var b := VerifiedBySigners(v, codec, msp, k, metadata');
    SomeConsenter(|v.consenters|, a);
    QuorumsOverlap(|v.consenters|, a, b);
    s := a * b;
  }

  /** Whichever `f` consenters are faulty, some other one has signatures in the metadata of both headers. */
  lemma CorrectSharedSigner<I(!new)>(v: Verifier, codec: Codec, msp: Msp<I>, h: Header, metadata: seq<bytes>, k: Header, metadata': seq<bytes>,
                                     faulty: set<nat>)
    returns (j: nat)
    requires v.policy == Signature(BftPolicy(v.consenters)) && |faulty| <= FaultBound(|v.consenters|)
    requires Verified(v, codec, msp, h, metadata) && Verified(v, codec, msp, k, metadata')
    ensures j < |v.consenters| && j !in faulty
    ensures SignedIn(msp, v.consenters[j], h, SignaturesOf(v, codec, h, metadata))
    ensures SignedIn(msp, v.consenters[j], k, SignaturesOf(v, codec, k, metadata'))
  {
    var s := SharedSigners(v, codec, msp, h, metadata, k, metadata');
    j := CorrectMember(s, faulty);
  }

  /** Verified headers of one number are equal exactly when at most `f` consenters signed both. */
  lemma NoFork<I(!new)>(v: Verifier, codec: Codec, msp: Msp<I>, h: Header, metadata: seq<bytes>, k: Header, metadata': seq<bytes>)
    requires v.policy == Signature(BftPolicy(v.consenters))
    requires Verified(v, codec, msp, h, metadata) && Verified(v, codec, msp, k, metadata')
    requires h.number == k.number
    ensures h == k <==> |Equivocators(v, codec, msp, h, metadata, k, metadata')| <= FaultBound(|v.consenters|)
  {
    if h != k {
      var s := SharedSigners(v, codec, msp, h, metadata, k, metadata');
      var both := Equivocators(v, codec, msp, h, metadata, k, metadata');
      assert s <= both;
      SubsetSize(s, both);
    }
  }

  /**
   An equivocator signed two different payloads, and both signatures are at hand: when the hashes have the sizes
   of a hash, no one payload can serve both headers.
   */
  lemma EquivocatorSignedTwo<I(!new)>(v: Verifier, codec: Codec, msp: Msp<I>, h: Header, metadata: seq<bytes>, k: Header, metadata': seq<bytes>, j: nat)
    returns (sd: SignedData, sd': SignedData)
    requires j in Equivocators(v, codec, msp, h, metadata, k, metadata')
    requires |h.previousHash| == |k.previousHash| && |h.dataHash| == |k.dataHash|
    ensures j < |v.consenters| && sd in SignaturesOf(v, codec, h, metadata) && sd' in SignaturesOf(v, codec, k, metadata')
    ensures sd.data != sd'.data
    ensures exists id :: Vouches(msp, v.consenters[j], h, id, sd)
    ensures exists id :: Vouches(msp, v.consenters[j], k, id, sd')
  {
    var sds, sds' := SignaturesOf(v, codec, h, metadata), SignaturesOf(v, codec, k, metadata');
    var a :| 0 <= a < |sds| && msp.deserialize(sds[a].identity).Some?
             && Vouches(msp, v.consenters[j], h, msp.deserialize(sds[a].identity).value, sds[a]);
    var b :| 0 <= b < |sds'| && msp.deserialize(sds'[b].identity).Some?
             && Vouches(msp, v.consenters[j], k, msp.deserialize(sds'[b].identity).value, sds'[b]);
    sd, sd' := sds[a], sds'[b];
    if sd.data == sd'.data {
      OnePayloadOneHeader(sd.data, h, k);
    }
  }

  /**
   One signature cannot serve two headers of one number: when a consenter's signed payload covers both,
   and the hashes have the sizes of a hash, the headers are equal.
   */
  lemma OnePayloadOneHeader(data: bytes, h: Header, k: Header)
    requires Covers(data, h) && Covers(data, k) && h.number == k.number
    requires |h.previousHash| == |k.previousHash| && |h.dataHash| == |k.dataHash|
    ensures h == k
  {
    var p, q := |data| - |HeaderBytes(h)|, |data| - |HeaderBytes(k)|;
    assert data == data[..p] + HeaderBytes(h) && data == data[..q] + HeaderBytes(k);
    PayloadFixesHeader(data[..p], h, data[..q], k);
  }
}
