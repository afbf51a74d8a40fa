/** Exactly which transactions and transaction lists a block verifier accepts (protoutil/blockutils.go). */
module Transactions {
  import opened BlockData
  import opened Bytes
  import opened WireFormat
  import opened Words
  import opened Wrappers

  /** A series of fields other than payload and signature, with their tags in the shortest form. */
  ghost predicate Others(u: bytes)
    decreases |u|
  {
    || u == []
    || (&& NextField(u).Some?
        && var f := NextField(u).value;
           && !(f.tag.num in {1, 2} && f.tag.typ == 2)
           && u[..f.tag.len] == EncodeVarint(8 * f.tag.num + f.tag.typ)
           && Others(u[f.len..]))
  }

  lemma OtherAbsorbed(b: bytes, e: Envelope, f: Field)
    requires NextField(b) == Some(f) && !(f.tag.num in {1, 2} && f.tag.typ == 2)
    ensures Absorb(e, b, f) == e.(unknown := e.unknown + (EncodeVarint(8 * f.tag.num + f.tag.typ) + b[f.tag.len..f.len]))
    ensures b[..f.tag.len] == EncodeVarint(8 * f.tag.num + f.tag.typ) ==> Absorb(e, b, f) == e.(unknown := e.unknown + b[..f.len])
  {
    var tag, value := EncodeVarint(8 * f.tag.num + f.tag.typ), b[f.tag.len..f.len];
    assert e.unknown + tag + value == e.unknown + (tag + value);
    assert b[..f.len] == b[..f.tag.len] + value;
  }

  /** Such fields are kept as they are. */
  lemma {:induction false} OthersKept(u: bytes, e: Envelope)
    requires Others(u)
    ensures Unmarshal(u, e) == Some(e.(unknown := e.unknown + u))
    decreases |u|
  {
    if u == [] {
      assert e.unknown + u == e.unknown;
    } else {
      var f := NextField(u).value;
      var next := e.(unknown := e.unknown + u[..f.len]);
      assert Unmarshal(u, e) == Unmarshal(u[f.len..], next) by {
        OtherAbsorbed(u, e, f);
        UnmarshalStep(u, e, f);
      }
      OthersKept(u[f.len..], next);
      assert e.unknown + u[..f.len] + u[f.len..] == e.unknown + u;
    }
  }

  lemma {:induction false} OthersAppend(u: bytes, w: bytes)
    requires Others(u) && Others(w)
    ensures Others(u + w)
    decreases |u|
  {
    if u == [] {
      assert u + w == w;
    } else {
      var f := NextField(u).value;
      SharedFirstField(u, w, f);
      assert (u + w)[..f.tag.len] == u[..f.tag.len];
      OthersAppend(u[f.len..], w);
    }
  }

  /** What the decoder keeps of an unknown field is one. */
  lemma OneOther(b: bytes, f: Field)
    requires NextField(b) == Some(f) && !(f.tag.num in {1, 2} && f.tag.typ == 2)
    ensures Others(EncodeVarint(8 * f.tag.num + f.tag.typ) + b[f.tag.len..f.len])
  {
    var tag, value := EncodeVarint(8 * f.tag.num + f.tag.typ), b[f.tag.len..f.len];
    KeptTag(f.tag.num, f.tag.typ, value);
    assert b[f.tag.len..][..f.len - f.tag.len] == value;
    FieldValuePrefix(f.tag.num, f.tag.typ, b[f.tag.len..], value, RECURSION_LIMIT);
    KeptField(tag + value, f.tag.num, f.tag.typ, |tag|, |value|);
  }

  lemma KeptTag(num: nat, typ: nat, value: bytes)
    requires 1 <= num <= MAX_FIELD_NUMBER && typ < 8
    ensures var tag := EncodeVarint(8 * num + typ);
            && ConsumeTag(tag + value, MAX_FIELD_NUMBER) == Some(Tag(num, typ, |tag|))
            && (tag + value)[|tag|..] == value && (tag + value)[..|tag|] == tag
  {
    TenBytes();
    VarintRoundTrip(8 * num + typ, value, 0);
  }

  lemma KeptField(b: bytes, num: nat, typ: nat, tagLen: nat, len: nat)
    requires ConsumeTag(b, MAX_FIELD_NUMBER) == Some(Tag(num, typ, tagLen)) && typ != END_GROUP
    requires |b| == tagLen + len && FieldValue(num, typ, b[tagLen..], RECURSION_LIMIT) == Some(len)
    requires !(num in {1, 2} && typ == 2) && b[..tagLen] == EncodeVarint(8 * num + typ)
    ensures Others(b)
  {
    assert NextField(b) == Some(Field(Tag(num, typ, tagLen), |b|));
    assert b[|b|..] == [];
  }

  lemma {:induction false} OthersCollected(b: bytes, e: Envelope)
    requires Unmarshal(b, e).Some? && Others(e.unknown)
    ensures Others(Unmarshal(b, e).value.unknown)
    decreases |b|
  {
    if b != [] {
      var f := NextField(b).value;
      if !(f.tag.num in {1, 2} && f.tag.typ == 2) {
        OneOther(b, f);
        OtherAbsorbed(b, e, f);
        OthersAppend(e.unknown, EncodeVarint(8 * f.tag.num + f.tag.typ) + b[f.tag.len..f.len]);
      }
      UnmarshalStep(b, e, f);
      OthersCollected(b[f.len..], Absorb(e, b, f));
    }
  }

  /** A transaction is a payload, a signature, and other fields. */
  ghost predicate Composed(tx: bytes, payload: bytes, signature: bytes, others: bytes) {
    && payload != [] && signature != [] && Others(others)
    && tx == [10] + EncodeVarint(|payload|) + payload + ([18] + EncodeVarint(|signature|) + signature) + others
  }

  lemma ComposedDecodes(payload: bytes, signature: bytes, others: bytes)
    requires 0 < |payload| < TWO_64 && 0 < |signature| < TWO_64 && Others(others)
    ensures Unmarshal(LenField(10, payload) + (LenField(18, signature) + others)) == Some(Envelope(payload, signature, others))
  {
    var p, s := LenField(10, payload), LenField(18, signature);
    LenFieldDecodes(1, 10, payload, s + others);
    UnmarshalStep(p + (s + others), EMPTY, Field(Tag(1, LEN, 1), |p|));
    assert Unmarshal(s + others, Envelope(payload, [], [])) == Some(Envelope(payload, signature, others)) by {
      LenFieldDecodes(2, 18, signature, others);
      UnmarshalStep(s + others, Envelope(payload, [], []), Field(Tag(2, LEN, 1), |s|));
      OthersKept(others, Envelope(payload, signature, []));
      assert [] + others == others;
    }
  }

  lemma ComposedAccepted(tx: bytes, payload: bytes, signature: bytes, others: bytes)
    requires |tx| < TWO_64 && Composed(tx, payload, signature, others)
    ensures WellFormedTx(tx) && Unmarshal(tx) == Some(Envelope(payload, signature, others))
  {
    var p, s := LenField(10, payload), LenField(18, signature);
    assert tx == p + s + others && tx == p + (s + others) && |payload| <= |tx| && |signature| <= |tx|;
    ComposedDecodes(payload, signature, others);
  }

  /** The transactions that pass are exactly those that are composed like this. */
  lemma WellFormedIff(tx: bytes)
    requires |tx| < TWO_64
    ensures WellFormedTx(tx) <==> exists payload, signature, others :: Composed(tx, payload, signature, others)
  {
    if WellFormedTx(tx) {
      var e := Unmarshal(tx).value;
      OthersCollected(tx, EMPTY);
      assert Composed(tx, e.payload, e.signature, e.unknown);
    }
    if payload, signature, others :| Composed(tx, payload, signature, others) {
      ComposedAccepted(tx, payload, signature, others);
    }
  }

  /** A list passes exactly when it is not empty and is one configuration transaction or holds only transactions that pass. */
  lemma AcceptedIff(data: seq<bytes>, isConfig: bytes -> bool)
    ensures Accepted(data, isConfig) <==>
      || (|data| == 1 && exists e :: Unmarshal(data[0]) == Some(e) && isConfig(e.payload))
      || (|data| >= 1 && forall i | 0 <= i < |data| :: WellFormedTx(data[i]))
  {
  }
}
