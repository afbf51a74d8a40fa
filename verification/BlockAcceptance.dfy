/**
 When a verifier of a BFT channel accepts a header (protoutil/blockutils.go and common/policies/bft.go): the converse
 of what BlockSignatures proves of accepted headers.
 */
module BlockAcceptance {
  import opened BftQuorum
  import opened BlockSignatures
  import opened Bytes
  import opened HeaderEncoding
  import opened Monotonicity
  import opened PolicyConversion
  import opened SignaturePolicies
  import opened Wrappers

  /** The metadata and every signature header in it decode. */
  ghost predicate Decodes(v: Verifier, codec: Codec, h: Header, metadata: seq<bytes>) {
    && metadata != [] && codec.metadata(metadata[0]).Some?
    && var md := codec.metadata(metadata[0]).value;
       SignatureSet(v.bft, v.consenters, codec, md.value, md.signatures, h).Some?
  }

  /** The consenters with a valid signature for the header in its metadata. */
  ghost function Signing<I>(v: Verifier, codec: Codec, msp: Msp<I>, h: Header, metadata: seq<bytes>): set<nat> {
    set j | j in Range(|v.consenters|) && SignedIn(msp, v.consenters[j], h, SignaturesOf(v, codec, h, metadata))
  }

  /** Of two identities in the signature set with one key, both or neither pass for a consenter. */
  ghost predicate KeysDecide<I>(msp: Msp<I>, consenters: seq<Consenter>, sds: seq<SignedData>) {
    forall k, l, j | 0 <= k < |sds| && 0 <= l < |sds| && 0 <= j < |consenters| :: SameSeat(msp, consenters[j], sds[k], sds[l])
  }

  ghost predicate SameSeat<I>(msp: Msp<I>, c: Consenter, x: SignedData, y: SignedData) {
    var id, id' := msp.deserialize(x.identity), msp.deserialize(y.identity);
    id.Some? && id'.Some? && IdentityKey(msp, id.value) == IdentityKey(msp, id'.value)
    ==> msp.sat(id.value, ConsenterPrincipal(c)) == msp.sat(id'.value, ConsenterPrincipal(c))
  }

  /** A consenter that signed is represented among the identities kept. */
  lemma SeatTaken<I>(v: Verifier, codec: Codec, msp: Msp<I>, h: Header, metadata: seq<bytes>, j: nat) returns (i: nat)
    requires KeysDecide(msp, v.consenters, SignaturesOf(v, codec, h, metadata)) && j in Signing(v, codec, msp, h, metadata)
    ensures var ids := ValidIdentities(SignaturesOf(v, codec, h, metadata), msp);
            j < |v.consenters| && i < |ids| && msp.sat(ids[i], ConsenterPrincipal(v.consenters[j]))
  {
    var sds := SignaturesOf(v, codec, h, metadata);
    var ids := ValidIdentities(sds, msp);
    var k :| 0 <= k < |sds| && msp.deserialize(sds[k].identity).Some?
             && Vouches(msp, v.consenters[j], h, msp.deserialize(sds[k].identity).value, sds[k]);
    var id := msp.deserialize(sds[k].identity).value;
    SignerRepresented(sds, msp, k, id);
    i :| 0 <= i < |ids| && IdentityKey(msp, id) == IdentityKey(msp, ids[i]);
    var l := ValidIdentitySigned(sds, msp, i);
    assert SameSeat(msp, v.consenters[j], sds[k], sds[l]);
  }

  ghost predicate HasSeat<I>(consenters: seq<Consenter>, ids: seq<I>, sat: (I, Principal) -> bool, j: nat) {
    j < |consenters| && exists i | 0 <= i < |ids| :: sat(ids[i], ConsenterPrincipal(consenters[j]))
  }

  /** Consenters that are represented are matched, when no identity passes for two of them. */
  lemma {:induction false} SeatsTaken<I>(consenters: seq<Consenter>, ids: seq<I>, sat: (I, Principal) -> bool, s: set<nat>) returns (m: map<nat, nat>)
    requires OneSeatEach(consenters, ids, sat) && forall j | j in s :: HasSeat(consenters, ids, sat, j)
    ensures m.Keys == s && Matching(m, consenters, ids, sat)
  {
    if s == {} {
      m := map[];
    } else {
      var j :| j in s;
      var rest := SeatsTaken(consenters, ids, sat, s - {j});
      assert HasSeat(consenters, ids, sat, j);
      var i :| 0 <= i < |ids| && sat(ids[i], ConsenterPrincipal(consenters[j]));
      m := rest[j := i];
      MatchingMore(rest, consenters, ids, sat, j, i);
    }
  }

  lemma OneSeat<I>(consenters: seq<Consenter>, ids: seq<I>, sat: (I, Principal) -> bool, i: nat, j: nat, k: nat)
    requires OneSeatEach(consenters, ids, sat) && i < |ids| && j < |consenters| && k < |consenters| && j != k
    requires sat(ids[i], ConsenterPrincipal(consenters[j]))
    ensures !sat(ids[i], ConsenterPrincipal(consenters[k]))
  {
  }

  lemma MatchingMore<I>(m: map<nat, nat>, consenters: seq<Consenter>, ids: seq<I>, sat: (I, Principal) -> bool, j: nat, i: nat)
    requires Matching(m, consenters, ids, sat) && OneSeatEach(consenters, ids, sat) && j !in m
    requires j < |consenters| && i < |ids| && sat(ids[i], ConsenterPrincipal(consenters[j]))
    ensures Matching(m[j := i], consenters, ids, sat)
  {
    forall k | k in m ensures m[k] != i {
      OneSeat(consenters, ids, sat, i, j, k);
    }
  }

  /**
   A header is verified exactly when its metadata decodes and holds the signatures of a quorum of the consenters, when
   no identity passes for two of them and identities with one key pass for the same.
   */
  lemma VerifiedIff<I(!new)>(v: Verifier, codec: Codec, msp: Msp<I>, h: Header, metadata: seq<bytes>)
    requires v.policy == Signature(BftPolicy(v.consenters))
    requires KeysDecide(msp, v.consenters, SignaturesOf(v, codec, h, metadata))
    requires OneSeatEach(v.consenters, ValidIdentities(SignaturesOf(v, codec, h, metadata), msp), msp.sat)
    ensures Verified(v, codec, msp, h, metadata) <==>
      Decodes(v, codec, h, metadata) && |Signing(v, codec, msp, h, metadata)| >= Quorum(|v.consenters|)
  {
    var s := Signing(v, codec, msp, h, metadata);
    if Verified(v, codec, msp, h, metadata) {
      var t := VerifiedBySigners(v, codec, msp, h, metadata);
      SubsetSize(t, s);
    }
    if Decodes(v, codec, h, metadata) && |s| >= Quorum(|v.consenters|) {
      var ids := ValidIdentities(SignaturesOf(v, codec, h, metadata), msp);
      forall j | j in s ensures HasSeat(v.consenters, ids, msp.sat, j) {
        var i := SeatTaken(v, codec, msp, h, metadata, j);
      }
      var m := SeatsTaken(v.consenters, ids, msp.sat, s);
      assert |m| == |m.Keys|;
      QuorumSuffices(v.consenters, ids, msp.sat, m);
    }
  }

  /** Whichever `f` consenters are faulty, the signatures of the others suffice. */
  lemma CorrectConsentersSuffice<I(!new)>(v: Verifier, codec: Codec, msp: Msp<I>, h: Header, metadata: seq<bytes>, faulty: set<nat>)
    requires v.policy == Signature(BftPolicy(v.consenters)) && v.consenters != []
    requires KeysDecide(msp, v.consenters, SignaturesOf(v, codec, h, metadata))
    requires OneSeatEach(v.consenters, ValidIdentities(SignaturesOf(v, codec, h, metadata), msp), msp.sat)
    requires Decodes(v, codec, h, metadata) && |faulty| <= FaultBound(|v.consenters|)
    requires forall j | 0 <= j < |v.consenters| && j !in faulty :: SignedIn(msp, v.consenters[j], h, SignaturesOf(v, codec, h, metadata))
    ensures Verified(v, codec, msp, h, metadata)
  {
    var s := Signing(v, codec, msp, h, metadata);
    assert Range(|v.consenters|) <= s + faulty;
    OthersSuffice(|v.consenters|, s, faulty);
    VerifiedIff(v, codec, msp, h, metadata);
  }

  lemma OthersSuffice(n: nat, s: set<nat>, faulty: set<nat>)
    requires n >= 1 && Range(n) <= s + faulty && |faulty| <= FaultBound(n)
    ensures |s| >= Quorum(n)
  {
    QuorumIsLeastSafe(n);
    SubsetSize(Range(n), s + faulty);
    assert s + faulty == s + (faulty - s);
    SubsetSize(faulty - s, faulty);
  }

  // ---------------------------------------------------------------------------
  // More signatures
  // ---------------------------------------------------------------------------

  /** A quorum policy stays satisfied, whatever the identities pass for, when others are added. */
  lemma QuorumMonotone<I(!new)>(consenters: seq<Consenter>, ids: seq<I>, longer: seq<I>, at: seq<nat>, sat: (I, Principal) -> bool)
    requires Placed(ids, longer, at) && Increasing(at) && Accepts(Signature(BftPolicy(consenters)), ids, sat)
    ensures Accepts(Signature(BftPolicy(consenters)), longer, sat)
  {
    BftPolicyCompiles(consenters);
    var gate := Gate(Quorum(|consenters|), ConsenterLeaves(consenters));
    MonotoneWhenShallow(gate, ids, Unused(|ids|), longer, Unused(|longer|), at, sat);
  }

  lemma {:induction false} MoreIdentities<I>(sds: seq<SignedData>, sds': seq<SignedData>, msp: Msp<I>)
    requires sds <= sds'
    ensures ValidIdentities(sds, msp) <= ValidIdentities(sds', msp)
    decreases |sds'|
  {
    if |sds| < |sds'| {
      MoreIdentities(sds, sds'[..|sds'| - 1], msp);
    } else {
      assert sds == sds';
    }
  }

  lemma {:induction false} MoreSigned(bft: bool, consenters: seq<Consenter>, codec: Codec, value: bytes,
                                      sigs: seq<MetadataSignature>, sigs': seq<MetadataSignature>, h: Header)
    requires sigs <= sigs' && SignatureSet(bft, consenters, codec, value, sigs', h).Some?
    ensures var signed := SignatureSet(bft, consenters, codec, value, sigs, h);
            signed.Some? && signed.value <= SignatureSet(bft, consenters, codec, value, sigs', h).value
    decreases |sigs'|
  {
    if |sigs| < |sigs'| {
      MoreSigned(bft, consenters, codec, value, sigs, sigs'[..|sigs'| - 1], h);
    } else {
      assert sigs == sigs';
    }
  }

  /** Signatures added after those in the metadata of a verified header, valid or not, keep it verified as long as they decode. */
  lemma SignaturesNeverHurt<I(!new)>(v: Verifier, codec: Codec, msp: Msp<I>, h: Header, metadata: seq<bytes>, metadata': seq<bytes>)
    requires v.policy == Signature(BftPolicy(v.consenters)) && Verified(v, codec, msp, h, metadata) && Decodes(v, codec, h, metadata')
    requires var md, md' := codec.metadata(metadata[0]).value, codec.metadata(metadata'[0]).value;
             md.value == md'.value && md.signatures <= md'.signatures
    ensures Verified(v, codec, msp, h, metadata')
  {
    var md, md' := codec.metadata(metadata[0]).value, codec.metadata(metadata'[0]).value;
    MoreSigned(v.bft, v.consenters, codec, md.value, md.signatures, md'.signatures, h);
    var sds, sds' := SignaturesOf(v, codec, h, metadata), SignaturesOf(v, codec, h, metadata');
    MoreIdentities(sds, sds', msp);
    var ids, ids' := ValidIdentities(sds, msp), ValidIdentities(sds', msp);
    QuorumMonotone(v.consenters, ids, ids', seq(|ids|, i => i), msp.sat);
  }
}
