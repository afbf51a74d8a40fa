/**
 The commitment of a block header to its transactions: `VerifyTransactionsAreWellFormed` and
 `ComputeBlockDataHash` of protoutil/blockutils.go, over the wire format of an `Envelope`.
 */
module BlockData {
  import opened Bytes
  import opened WireFormat
  import opened Words
  import opened Wrappers

  /** A decoded `Envelope`: its two fields and the unknown fields that decoding keeps. */
  datatype Envelope = Envelope(payload: bytes, signature: bytes, unknown: bytes)

  const EMPTY: Envelope := Envelope([], [], [])

  const MAX_FIELD_NUMBER: nat := 0x1FFF_FFFF
  const RECURSION_LIMIT: int := 10000

  /** A field at the start of a byte string, and its whole length. */
  datatype Field = Field(tag: Tag, len: nat)

  function NextField(b: bytes): (f: Option<Field>)
    ensures f.Some? ==> 1 <= f.value.tag.len <= f.value.len <= |b|
    ensures f.Some? ==> f.value.tag.typ == LEN ==> ConsumeBytes(b[f.value.tag.len..]) == Some(f.value.len - f.value.tag.len)
  {
    var t := ConsumeTag(b, MAX_FIELD_NUMBER);
    if t.None? || t.value.typ == END_GROUP then None
    else
      var v := FieldValue(t.value.num, t.value.typ, b[t.value.len..], RECURSION_LIMIT);
      if v.None? then None else Some(Field(t.value, t.value.len + v.value))
  }

  predicate IsPayload(f: Field) {
    f.tag.num == 1 && f.tag.typ == LEN
  }

  predicate IsSignature(f: Field) {
    f.tag.num == 2 && f.tag.typ == LEN
  }

  /** The content of a length-delimited field. */
  function Content(b: bytes, f: Field): (c: bytes)
    requires NextField(b) == Some(f) && f.tag.typ == LEN
  {
    b[f.tag.len + ConsumeVarint(b[f.tag.len..]).value.len..f.len]
  }

  /** One round of the decoder: a later occurrence of a field replaces an earlier one. */
  function Absorb(e: Envelope, b: bytes, f: Field): Envelope
    requires NextField(b) == Some(f)
  {
    if IsPayload(f) then e.(payload := Content(b, f))
    else if IsSignature(f) then e.(signature := Content(b, f))
    else e.(unknown := e.unknown + EncodeVarint(8 * f.tag.num + f.tag.typ) + b[f.tag.len..f.len])
  }

  /** `proto.Unmarshal` into `e`. */
  function Unmarshal(b: bytes, e: Envelope := EMPTY): Option<Envelope>
    decreases |b|
  {
    if b == [] then Some(e)
    else
      var f := NextField(b);
      if f.None? then None else Unmarshal(b[f.value.len..], Absorb(e, b, f.value))
  }

  /** `proto.Marshal`: the set fields in order, then the unknown ones. */
  function Marshal(e: Envelope): bytes {
    LenField(10, e.payload) + LenField(18, e.signature) + e.unknown
  }

  /** One transaction passes the loop. */
  predicate WellFormedTx(tx: bytes) {
    var e := Unmarshal(tx);
    e.Some? && e.value.payload != [] && e.value.signature != [] && Marshal(e.value) == tx
  }

  /** `HasConfigTx`; `isConfig` decodes the payload's channel header and compares its type. */
  predicate HasConfigTx(data: seq<bytes>, isConfig: bytes -> bool) {
    |data| == 1 && Unmarshal(data[0]).Some? && isConfig(Unmarshal(data[0]).value.payload)
  }

  predicate AllWellFormed(data: seq<bytes>) {
    forall i | 0 <= i < |data| :: WellFormedTx(data[i])
  }

  predicate Accepted(data: seq<bytes>, isConfig: bytes -> bool) {
    data != [] && (HasConfigTx(data, isConfig) || AllWellFormed(data))
  }

  /** The body of the loop over the transactions, with its early error returns. */
  method VerifyTransaction(rawTx: bytes) returns (ok: bool)
    ensures ok <==> WellFormedTx(rawTx)
  {
    var env := Unmarshal(rawTx);
    if env.None? || env.value.payload == [] || env.value.signature == [] {
      return false;
    }
    var expected := Marshal(env.value);
    if |expected| < |rawTx| {
      return false;
    }
    ok := expected == rawTx;
  }

  method VerifyTransactions(data: seq<bytes>) returns (ok: bool)
    ensures ok <==> AllWellFormed(data)
  {
    for i := 0 to |data|
      invariant forall j | 0 <= j < i :: WellFormedTx(data[j])
    {
      var well := VerifyTransaction(data[i]);
      if !well {
        return false;
      }
    }
    ok := true;
  }

  /** `VerifyTransactionsAreWellFormed`. */
  method VerifyTransactionsAreWellFormed(data: seq<bytes>, isConfig: bytes -> bool) returns (ok: bool)
    ensures ok <==> Accepted(data, isConfig)
  {
    if data == [] {
      return false;
    }
    if HasConfigTx(data, isConfig) {
      return true;
    }
    ok := VerifyTransactions(data);
  }

  /** `bytes.Join(data, nil)`. */
  function Join(data: seq<bytes>): bytes {
    if data == [] then [] else data[0] + Join(data[1..])
  }

  // ---------------------------------------------------------------------------
  // A well-formed transaction holds exactly one payload field, and it comes first
  // ---------------------------------------------------------------------------

  lemma FieldPrefix(b: bytes, c: bytes)
    requires NextField(b).Some?
    requires b[..NextField(b).value.len] <= c
    ensures NextField(c) == NextField(b)
  {
    var f := NextField(b).value;
    SharedSlice(b, c, f.len, 0, f.tag.len);
    assert b[0..] == b && c[0..] == c;
    TagPrefix(b, c, MAX_FIELD_NUMBER);
    SharedSlice(b, c, f.len, f.tag.len, f.len);
    FieldValuePrefix(f.tag.num, f.tag.typ, b[f.tag.len..], c[f.tag.len..], RECURSION_LIMIT);
  }

  /** Writing a decoded length-delimited field again never takes more bytes. */
  lemma LenFieldShortest(b: bytes, f: Field, tag: byte)
    requires NextField(b) == Some(f) && f.tag.typ == LEN
    ensures |LenField(tag, Content(b, f))| <= f.len
  {
    EncodingShortest(b[f.tag.len..], 0);
  }

  lemma TagShortest(b: bytes, f: Field)
    requires NextField(b) == Some(f)
    ensures |EncodeVarint(8 * f.tag.num + f.tag.typ)| <= f.tag.len
  {
    EncodingShortest(b, 0);
    var v := ConsumeVarint(b).value.value;
    assert 8 * (v / 8) + v % 8 == v;
  }

  /** Absorbing a field grows the canonical form by at most the field; overwriting a payload by less. */
  lemma AbsorbSize(e: Envelope, b: bytes, f: Field)
    requires NextField(b) == Some(f)
    ensures |Marshal(Absorb(e, b, f))| <= |Marshal(e)| + f.len
    ensures IsPayload(f) && e.payload != [] ==> |Marshal(Absorb(e, b, f))| < |Marshal(e)| + f.len
  {
    if IsPayload(f) {
      LenFieldShortest(b, f, 10);
    } else if IsSignature(f) {
      LenFieldShortest(b, f, 18);
    } else {
      TagShortest(b, f);
    }
  }

  /** Some field of the byte string is a payload. */
  ghost predicate HasPayload(b: bytes)
    decreases |b|
  {
    b != [] && NextField(b).Some? && (IsPayload(NextField(b).value) || HasPayload(b[NextField(b).value.len..]))
  }

  lemma {:induction false} UnmarshalSize(b: bytes, e: Envelope)
    requires Unmarshal(b, e).Some?
    ensures |Marshal(Unmarshal(b, e).value)| <= |Marshal(e)| + |b|
    ensures e.payload != [] && HasPayload(b) ==> |Marshal(Unmarshal(b, e).value)| < |Marshal(e)| + |b|
    decreases |b|
  {
    if b != [] {
      var f := NextField(b).value;
      AbsorbSize(e, b, f);
      UnmarshalSize(b[f.len..], Absorb(e, b, f));
    }
  }

  /** The byte 10 is the tag of a payload field. */
  lemma PayloadTag(b: bytes)
    requires b != [] && b[0] == 10
    ensures ConsumeTag(b, MAX_FIELD_NUMBER) == Some(Tag(1, LEN, 1))
  {
    assert ConsumeVarint(b) == Some(Varint(10, 1));
  }

  lemma OnePayload(tx: bytes)
    requires WellFormedTx(tx)
    ensures tx != [] && tx[0] == 10
    ensures NextField(tx).Some? && IsPayload(NextField(tx).value) && !HasPayload(tx[NextField(tx).value.len..])
  {
    var e := Unmarshal(tx).value;
    assert Marshal(e)[0] == LenField(10, e.payload)[0] == 10;
    PayloadTag(tx);
    var f := NextField(tx).value;
    var first := Absorb(EMPTY, tx, f);
    AbsorbSize(EMPTY, tx, f);
    UnmarshalSize(tx[f.len..], first);
  }

  /** Decoding `a + z` passes the boundary after `a`, so a payload tag there is a payload field. */
  lemma {:induction false} PayloadAtBoundary(a: bytes, z: bytes, e: Envelope, e': Envelope)
    requires Unmarshal(a, e).Some? && Unmarshal(a + z, e').Some?
    requires z != [] && z[0] == 10
    ensures HasPayload(a + z)
    decreases |a|
  {
    if a == [] {
      assert a + z == z;
      PayloadTag(z);
    } else {
      var f := NextField(a).value;
      SharedFirstField(a, z, f);
      UnmarshalStep(a, e, f);
      UnmarshalStep(a + z, e', f);
      PayloadAtBoundary(a[f.len..], z, Absorb(e, a, f), Absorb(e', a + z, f));
    }
  }

  lemma UnmarshalStep(b: bytes, e: Envelope, f: Field)
    requires b != [] && NextField(b) == Some(f)
    ensures Unmarshal(b, e) == Unmarshal(b[f.len..], Absorb(e, b, f))
  {
  }

  lemma SharedFirstField(x: bytes, z: bytes, f: Field)
    requires x != [] && NextField(x) == Some(f)
    ensures NextField(x + z) == Some(f) && (x + z)[f.len..] == x[f.len..] + z
  {
    FieldPrefix(x, x + z);
  }

  lemma SecondPayload(x: bytes, y: bytes, z: bytes, f: Field)
    requires x != [] && NextField(x) == Some(f)
    requires y != [] && NextField(y) == Some(f) && y[f.len..] == x[f.len..] + z
    requires Unmarshal(x).Some? && Unmarshal(y).Some?
    requires z != [] && z[0] == 10
    ensures HasPayload(y[f.len..])
  {
    UnmarshalStep(x, EMPTY, f);
    UnmarshalStep(y, EMPTY, f);
    PayloadAtBoundary(x[f.len..], z, Absorb(EMPTY, x, f), Absorb(EMPTY, y, f));
  }

  /** No well-formed transaction is a proper prefix of another one that goes on with a transaction. */
  lemma NoProperPrefix(x: bytes, y: bytes, z: bytes)
    requires WellFormedTx(x) && WellFormedTx(y)
    requires y == x + z
    ensures z == [] || z[0] != 10
  {
    if z != [] && z[0] == 10 {
      OnePayload(x);
      OnePayload(y);
      SharedFirstField(x, z, NextField(x).value);
      SecondPayload(x, y, z, NextField(x).value);
    }
  }

  lemma JoinStart(data: seq<bytes>)
    requires AllWellFormed(data)
    ensures data != [] ==> Join(data) != [] && Join(data)[0] == 10
  {
    if data != [] {
      OnePayload(data[0]);
    }
  }

  lemma FirstTxEqual(x: bytes, r: bytes, y: bytes, s: bytes)
    requires WellFormedTx(x) && WellFormedTx(y) && |x| <= |y|
    requires x + r == y + s
    requires r == [] || r[0] == 10
    ensures x == y && r == s
  {
    SplitPrefix(x, r, y, s);
    NoProperPrefix(x, y, y[|x|..]);
  }

  /** Transaction lists that pass the loop and have the same concatenation are the same list. */
  lemma {:induction false} ConcatenationFixesList(xs: seq<bytes>, ys: seq<bytes>)
    requires AllWellFormed(xs) && AllWellFormed(ys)
    requires Join(xs) == Join(ys)
    ensures xs == ys
  {
    JoinStart(xs);
    JoinStart(ys);
    if xs != [] && ys != [] {
      JoinStart(xs[1..]);
      JoinStart(ys[1..]);
      if |xs[0]| <= |ys[0]| {
        FirstTxEqual(xs[0], Join(xs[1..]), ys[0], Join(ys[1..]));
      } else {
        FirstTxEqual(ys[0], Join(ys[1..]), xs[0], Join(xs[1..]));
      }
      ConcatenationFixesList(xs[1..], ys[1..]);
    }
  }

  // ---------------------------------------------------------------------------
  // The data hash, with and without configuration blocks
  // ---------------------------------------------------------------------------

  /** `ComputeBlockDataHash`. */
  function DataHash(data: seq<bytes>, hash: bytes -> bytes): bytes {
    hash(Join(data))
  }

  /** The hash does not collide on the two byte strings. */
  ghost predicate Separates(hash: bytes -> bytes, x: bytes, y: bytes) {
    hash(x) == hash(y) ==> x == y
  }

  /**
   Two accepted lists with the same data hash are the same list exactly when both are configuration
   blocks or neither is.  In particular the hash fixes the list of a data block.
   */
  lemma DataHashFixesList(xs: seq<bytes>, ys: seq<bytes>, hash: bytes -> bytes, isConfig: bytes -> bool)
    requires Accepted(xs, isConfig) && Accepted(ys, isConfig)
    requires DataHash(xs, hash) == DataHash(ys, hash) && Separates(hash, Join(xs), Join(ys))
    ensures xs == ys <==> (HasConfigTx(xs, isConfig) <==> HasConfigTx(ys, isConfig))
  {
    if HasConfigTx(xs, isConfig) && HasConfigTx(ys, isConfig) {
      assert xs == [xs[0]] && ys == [ys[0]];
      assert xs[0] == Join(xs) && ys[0] == Join(ys);
    } else if !HasConfigTx(xs, isConfig) && !HasConfigTx(ys, isConfig) {
      ConcatenationFixesList(xs, ys);
    }
  }

  /** Decoding a concatenation decodes the parts one after the other. */
  lemma {:induction false} UnmarshalConcatenation(a: bytes, b: bytes, e: Envelope)
    requires Unmarshal(a, e).Some?
    ensures Unmarshal(a + b, e) == Unmarshal(b, Unmarshal(a, e).value)
    decreases |a|
  {
    if a == [] {
      assert a + b == b;
    } else {
      var f := NextField(a).value;
      FieldPrefix(a, a + b);
      assert (a + b)[f.len..] == a[f.len..] + b;
      assert Absorb(e, a + b, f) == Absorb(e, a, f) by {
        AbsorbPrefix(e, a, b, f);
      }
      UnmarshalConcatenation(a[f.len..], b, Absorb(e, a, f));
    }
  }

  lemma AbsorbPrefix(e: Envelope, a: bytes, b: bytes, f: Field)
    requires NextField(a) == Some(f) && NextField(a + b) == Some(f)
    ensures Absorb(e, a + b, f) == Absorb(e, a, f)
  {
    SliceOfFirst(a, b, f.tag.len, f.len);
    if f.tag.typ == LEN {
      var v := ConsumeVarint(a[f.tag.len..]).value;
      VarintPrefix(a[f.tag.len..], (a + b)[f.tag.len..], 0);
      SliceOfFirst(a, b, f.tag.len + v.len, f.len);
    }
  }

  /** A payload field decides the payload, whatever the decoder held before. */
  lemma {:induction false} LastPayloadWins(b: bytes, e: Envelope, e': Envelope)
    requires Unmarshal(b, e).Some?
    requires HasPayload(b) || e.payload == e'.payload
    ensures Unmarshal(b, e').Some? && Unmarshal(b, e').value.payload == Unmarshal(b, e).value.payload
    decreases |b|
  {
    if b != [] {
      var f := NextField(b).value;
      LastPayloadWins(b[f.len..], Absorb(e, b, f), Absorb(e', b, f));
    }
  }

  lemma ConcatenationIsConfig(t: bytes, config: bytes, isConfig: bytes -> bool)
    requires WellFormedTx(t) && WellFormedTx(config) && isConfig(Unmarshal(config).value.payload)
    ensures HasConfigTx([t + config], isConfig)
  {
    OnePayload(config);
    UnmarshalConcatenation(t, config, EMPTY);
    LastPayloadWins(config, EMPTY, Unmarshal(t).value);
  }

  /**
   Why the condition is there: when the last of two well-formed transactions is a configuration
   transaction, their concatenation alone is accepted as a configuration block, the two together are
   accepted as a data block, and both have one data hash.
   */
  lemma ConfigurationShadowsList(t: bytes, config: bytes, isConfig: bytes -> bool)
    requires WellFormedTx(t) && WellFormedTx(config) && isConfig(Unmarshal(config).value.payload)
    ensures Accepted([t + config], isConfig) && Accepted([t, config], isConfig)
    ensures Join([t + config]) == Join([t, config]) && [t + config] != [t, config]
  {
    ConcatenationIsConfig(t, config, isConfig);
    assert AllWellFormed([t, config]);
    assert [t, config][1..] == [config] && [config][1..] == [] && [t + config][1..] == [];
    assert Join([config]) == config;
  }

  // ---------------------------------------------------------------------------
  // Every envelope a client builds passes
  // ---------------------------------------------------------------------------

  /** The field's tag is one byte. */
  lemma TagDecodes(num: nat, tag: byte, value: bytes)
    requires num == 1 || num == 2
    requires tag == 8 * num + LEN
    ensures ConsumeTag([tag] + value, MAX_FIELD_NUMBER) == Some(Tag(num, LEN, 1))
  {
    assert ConsumeVarint([tag] + value) == Some(Varint(tag, 1));
  }

  /** Its value is the length and then the content. */
  lemma ValueDecodes(content: bytes, rest: bytes)
    requires |content| < TWO_64
    ensures var b := EncodeVarint(|content|) + (content + rest);
            && ConsumeVarint(b) == Some(Varint(|content|, |EncodeVarint(|content|)|))
            && ConsumeBytes(b) == Some(|EncodeVarint(|content|)| + |content|)
  {
    TenBytes();
    VarintRoundTrip(|content|, content + rest, 0);
  }

  lemma LenFieldDecodes(num: nat, tag: byte, content: bytes, rest: bytes)
    requires num == 1 || num == 2
    requires tag == 8 * num + LEN && 0 < |content| < TWO_64
    ensures var b := LenField(tag, content) + rest;
            var f := Field(Tag(num, LEN, 1), |LenField(tag, content)|);
            && NextField(b) == Some(f) && Content(b, f) == content && b[f.len..] == rest
  {
    var length := EncodeVarint(|content|);
    var value := length + (content + rest);
    var b := [tag] + value;
    FieldParts(tag, length, content, rest);
    TagDecodes(num, tag, value);
    ValueDecodes(content, rest);
    NextLenField(b, num, |length| + |content|);
  }

  lemma FieldParts(tag: byte, length: bytes, content: bytes, rest: bytes)
    ensures var b := [tag] + (length + (content + rest));
            && b == [tag] + length + content + rest && b[1..] == length + (content + rest)
            && b[1 + |length|..1 + |length| + |content|] == content && b[1 + |length| + |content|..] == rest
  {
  }

  lemma NextLenField(b: bytes, num: nat, n: nat)
    requires ConsumeTag(b, MAX_FIELD_NUMBER) == Some(Tag(num, LEN, 1)) && ConsumeBytes(b[1..]) == Some(n)
    ensures NextField(b) == Some(Field(Tag(num, LEN, 1), 1 + n))
  {
  }

  /** Marshalling an envelope with a payload and a signature gives a well-formed transaction. */
  lemma ClientEncodingAccepted(payload: bytes, signature: bytes)
    requires 0 < |payload| < TWO_64 && 0 < |signature| < TWO_64
    ensures Unmarshal(Marshal(Envelope(payload, signature, []))) == Some(Envelope(payload, signature, []))
    ensures WellFormedTx(Marshal(Envelope(payload, signature, [])))
  {
    var p, s := LenField(10, payload), LenField(18, signature);
    var tx := Marshal(Envelope(payload, signature, []));
    assert tx == p + s && s == s + [];
    LenFieldDecodes(1, 10, payload, s);
    LenFieldDecodes(2, 18, signature, []);
    assert Unmarshal(s, Envelope(payload, [], [])) == Some(Envelope(payload, signature, []));
  }
}
