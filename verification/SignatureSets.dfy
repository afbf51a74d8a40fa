/**
 The signature set that a block verifier builds from the block metadata, and the identities it keeps of it
 (protoutil/blockutils.go and common/policies/policy.go), said entry by entry.
 */
module SignatureSets {
  import opened BlockData
  import opened BlockSignatures
  import opened Bytes
  import opened HeaderEncoding
  import opened Transactions
  import opened WireFormat
  import opened Words
  import opened Wrappers
  import PolicyConversion

  ghost predicate Increasing(at: seq<nat>) {
    forall i, j | 0 <= i < j < |at| :: at[i] < at[j]
  }

  // ---------------------------------------------------------------------------
  // Entries
  // ---------------------------------------------------------------------------

  /** The consenter is the first one with the identifier. */
  ghost predicate FirstWith(consenters: seq<Consenter>, id: nat, j: nat) {
    j < |consenters| && consenters[j].id == id && forall i | 0 <= i < j :: consenters[i].id != id
  }

  /** The search finds the first consenter with the identifier, and nothing if there is none. */
  lemma {:induction false} SearchFinds(consenters: seq<Consenter>, id: nat)
    ensures forall j: nat | FirstWith(consenters, id, j) :: SearchConsenter(consenters, id) == SerializedIdentity(consenters[j])
    ensures (forall j | 0 <= j < |consenters| :: consenters[j].id != id) ==> SearchConsenter(consenters, id) == []
  {
    if consenters != [] && consenters[0].id != id {
      var rest := consenters[1..];
      SearchFinds(rest, id);
      forall j: nat | FirstWith(consenters, id, j) ensures SearchConsenter(consenters, id) == SerializedIdentity(consenters[j]) {
        assert FirstWith(rest, id, j - 1) by {
          assert forall i | 0 <= i < j - 1 :: rest[i] == consenters[i + 1];
        }
      }
      assert forall j | 0 <= j < |rest| :: rest[j] == consenters[j + 1];
    }
  }

  /** The identity of a consenter reads back as its two fields. */
  lemma IdentityReads(c: Consenter)
    requires 0 < |c.mspId| < TWO_64 && 0 < |c.identity| < TWO_64
    ensures Unmarshal(SerializedIdentity(c)) == Some(BlockData.Envelope(c.mspId, c.identity, []))
  {
    ComposedDecodes(c.mspId, c.identity, []);
    assert LenField(10, c.mspId) + (LenField(18, c.identity) + []) == SerializedIdentity(c);
  }

  /** A consenter is asked for by its identity. */
  lemma ConsenterByIdentity(c: Consenter)
    ensures PolicyConversion.ClassName(ConsenterPrincipal(c).classification) == [73, 68, 69, 78, 84, 73, 84, 89]
    ensures ConsenterPrincipal(c).content == SerializedIdentity(c)
  {
  }

  /** A signature names its signer by number. */
  ghost predicate ByNumber(bft: bool, s: MetadataSignature) {
    bft && s.signatureHeader == [] && s.identifierHeader != []
  }

  /** What becomes of one metadata signature. */
  lemma EntryIs(bft: bool, consenters: seq<Consenter>, codec: Codec, value: bytes, s: MetadataSignature, h: Header)
    ensures var e := ToEntry(bft, consenters, codec, value, s, h);
            if ByNumber(bft, s) then
              && (codec.identifier(s.identifierHeader).None? <==> e.Malformed?)
              && forall id | codec.identifier(s.identifierHeader) == Some(id) ::
                   && ((forall j | 0 <= j < |consenters| :: consenters[j].id != id) ==> e == Skipped)
                   && forall j: nat | FirstWith(consenters, id, j) && SerializedIdentity(consenters[j]) != [] ::
                        e == Listed(SignedData(SerializedIdentity(consenters[j]), value + s.identifierHeader + HeaderBytes(h), s.signature))
            else
              && (codec.creator(s.signatureHeader).None? ==> e == Malformed)
              && forall creator | codec.creator(s.signatureHeader) == Some(creator) ::
                   e == Listed(SignedData(creator, value + s.signatureHeader + HeaderBytes(h), s.signature))
  {
    if ByNumber(bft, s) && codec.identifier(s.identifierHeader).Some? {
      SearchFinds(consenters, codec.identifier(s.identifierHeader).value);
    }
  }

  /** The signature set holds the listed entries, in order. */
  ghost predicate Collects(bft: bool, consenters: seq<Consenter>, codec: Codec, value: bytes, sigs: seq<MetadataSignature>, h: Header,
                           sds: seq<SignedData>, at: seq<nat>)
  {
    && |at| == |sds| && Increasing(at)
    && (forall i | 0 <= i < |at| :: at[i] < |sigs| && ToEntry(bft, consenters, codec, value, sigs[at[i]], h) == Listed(sds[i]))
    && (forall k | 0 <= k < |sigs| && ToEntry(bft, consenters, codec, value, sigs[k], h).Listed? :: k in at)
  }

  lemma {:induction false} SetExists(bft: bool, consenters: seq<Consenter>, codec: Codec, value: bytes, sigs: seq<MetadataSignature>, h: Header)
    ensures SignatureSet(bft, consenters, codec, value, sigs, h).Some?
       <==> forall k | 0 <= k < |sigs| :: !ToEntry(bft, consenters, codec, value, sigs[k], h).Malformed?
  {
    if sigs != [] {
      var k := |sigs| - 1;
      SetExists(bft, consenters, codec, value, sigs[..k], h);
      assert forall i | 0 <= i < k :: sigs[i] == sigs[..k][i];
    }
  }

  lemma {:induction false} SetCollects(bft: bool, consenters: seq<Consenter>, codec: Codec, value: bytes, sigs: seq<MetadataSignature>, h: Header)
    returns (at: seq<nat>)
    requires SignatureSet(bft, consenters, codec, value, sigs, h).Some?
    ensures Collects(bft, consenters, codec, value, sigs, h, SignatureSet(bft, consenters, codec, value, sigs, h).value, at)
  {
    at := [];
    if sigs != [] {
      var k := |sigs| - 1;
      at := SetCollects(bft, consenters, codec, value, sigs[..k], h);
      var e := ToEntry(bft, consenters, codec, value, sigs[k], h);
      var before := SignatureSet(bft, consenters, codec, value, sigs[..k], h).value;
      if e.Listed? {
        CollectsMore(bft, consenters, codec, value, sigs, h, before, at, e.sd);
        at := at + [k];
      } else {
        CollectsSame(bft, consenters, codec, value, sigs, h, before, at);
      }
    }
  }

  lemma CollectsSame(bft: bool, consenters: seq<Consenter>, codec: Codec, value: bytes, sigs: seq<MetadataSignature>, h: Header,
                     sds: seq<SignedData>, at: seq<nat>)
    requires sigs != [] && Collects(bft, consenters, codec, value, sigs[..|sigs| - 1], h, sds, at)
    requires !ToEntry(bft, consenters, codec, value, sigs[|sigs| - 1], h).Listed?
    ensures Collects(bft, consenters, codec, value, sigs, h, sds, at)
  {
    assert forall i | 0 <= i < |sigs| - 1 :: sigs[i] == sigs[..|sigs| - 1][i];
  }

  lemma CollectsMore(bft: bool, consenters: seq<Consenter>, codec: Codec, value: bytes, sigs: seq<MetadataSignature>, h: Header,
                     sds: seq<SignedData>, at: seq<nat>, sd: SignedData)
    requires sigs != [] && Collects(bft, consenters, codec, value, sigs[..|sigs| - 1], h, sds, at)
    requires ToEntry(bft, consenters, codec, value, sigs[|sigs| - 1], h) == Listed(sd)
    ensures Collects(bft, consenters, codec, value, sigs, h, sds + [sd], at + [|sigs| - 1])
  {
    var k := |sigs| - 1;
    var init, more := sigs[..k], at + [k];
    forall i | 0 <= i < |sigs| && ToEntry(bft, consenters, codec, value, sigs[i], h).Listed? ensures i in more {
      if i < k {
        assert init[i] == sigs[i] && i in at;
      } else {
        assert more[|at|] == i;
      }
    }
  }

  // ---------------------------------------------------------------------------
  // Identities
  // ---------------------------------------------------------------------------

  /** The entry carries a valid signature of an identity that no earlier entry of the set carries one of. */
  ghost predicate FirstValid<I>(sds: seq<SignedData>, msp: Msp<I>, k: nat) {
    && k < |sds| && msp.deserialize(sds[k].identity).Some?
    && SignsFor(sds[k], msp.deserialize(sds[k].identity).value, msp)
    && forall l | 0 <= l < k :: !SameSigner(sds, msp, l, k)
  }

  /** Both entries carry valid signatures of identities with one provider and one name, put together. */
  ghost predicate SameSigner<I>(sds: seq<SignedData>, msp: Msp<I>, l: nat, k: nat)
    requires l < |sds| && k < |sds|
  {
    var id, id' := msp.deserialize(sds[l].identity), msp.deserialize(sds[k].identity);
    && id.Some? && id'.Some? && SignsFor(sds[l], id.value, msp)
    && msp.mspid(id.value) + msp.id(id.value) == msp.mspid(id'.value) + msp.id(id'.value)
  }

  ghost predicate Keeps<I>(sds: seq<SignedData>, msp: Msp<I>, ids: seq<I>, at: seq<nat>) {
    && |at| == |ids| && Increasing(at)
    && (forall i | 0 <= i < |at| :: FirstValid(sds, msp, at[i]) && msp.deserialize(sds[at[i]].identity) == Some(ids[i]))
    && (forall k: nat | FirstValid(sds, msp, k) :: k in at)
  }

  /** The identities kept are those of the first valid signature of each signer, in order. */
  lemma {:induction false} FirstValidKept<I>(sds: seq<SignedData>, msp: Msp<I>) returns (at: seq<nat>)
    ensures Keeps(sds, msp, ValidIdentities(sds, msp), at)
  {
    at := [];
    if sds != [] {
      var k := |sds| - 1;
      var init := sds[..k];
      at := FirstValidKept(init, msp);
      var ids := ValidIdentities(init, msp);
      forall l: nat | l < k ensures FirstValid(init, msp, l) <==> FirstValid(sds, msp, l) {
        FirstValidBefore(sds, msp, l);
      }
      NewSigner(sds, msp, ids, at);
      if FirstValid(sds, msp, k) {
        at := at + [k];
        assert at[|at| - 1] == k;
      }
    }
  }

  lemma FirstValidBefore<I>(sds: seq<SignedData>, msp: Msp<I>, l: nat)
    requires sds != [] && l < |sds| - 1
    ensures FirstValid(sds[..|sds| - 1], msp, l) <==> FirstValid(sds, msp, l)
  {
    var init := sds[..|sds| - 1];
    assert forall i | 0 <= i <= l :: init[i] == sds[i];
    assert forall i: nat | i < l :: SameSigner(init, msp, i, l) <==> SameSigner(sds, msp, i, l);
  }

  /** The last entry is kept exactly when it is the first valid one of its signer. */
  lemma NewSigner<I>(sds: seq<SignedData>, msp: Msp<I>, ids: seq<I>, at: seq<nat>)
    requires sds != [] && Keeps(sds[..|sds| - 1], msp, ids, at)
    ensures var k := |sds| - 1;
            var id := msp.deserialize(sds[k].identity);
            FirstValid(sds, msp, k) <==>
            id.Some? && IdentityKey(msp, id.value) !in IdentityKeys(msp, ids) && msp.verify(id.value, sds[k].data, sds[k].signature)
  {
    var k := |sds| - 1;
    var init := sds[..k];
    var id := msp.deserialize(sds[k].identity);
    if id.Some? {
      if IdentityKey(msp, id.value) in IdentityKeys(msp, ids) {
        var i :| 0 <= i < |ids| && IdentityKey(msp, id.value) == IdentityKey(msp, ids[i]);
        assert init[at[i]] == sds[at[i]] && FirstValid(init, msp, at[i]);
        assert SameSigner(sds, msp, at[i], k);
      }
      if l: nat :| l < k && SameSigner(sds, msp, l, k) {
        assert init[l] == sds[l];
        var f := FirstOf(init, msp, l);
        var i :| 0 <= i < |at| && at[i] == f;
        assert IdentityKey(msp, id.value) == IdentityKey(msp, ids[i]);
      }
    }
  }

  /** Every valid signature has a first one of the same signer. */
  lemma {:induction false} FirstOf<I>(sds: seq<SignedData>, msp: Msp<I>, l: nat) returns (f: nat)
    requires l < |sds| && msp.deserialize(sds[l].identity).Some? && SignsFor(sds[l], msp.deserialize(sds[l].identity).value, msp)
    ensures f <= l && FirstValid(sds, msp, f)
    ensures IdentityKey(msp, msp.deserialize(sds[f].identity).value) == IdentityKey(msp, msp.deserialize(sds[l].identity).value)
  {
    if FirstValid(sds, msp, l) {
      f := l;
    } else {
      var m :| 0 <= m < l && SameSigner(sds, msp, m, l);
      f := FirstOf(sds, msp, m);
    }
  }
}
