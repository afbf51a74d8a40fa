/**
 The block verifier of a BFT channel put together: header encoding, data commitment, quorum policy and
 the verification state machine.
 */
module ChainSafety {
  import opened BftQuorum
  import opened BlockData
  import BlockSignatures
  import opened BlockVerification
  import opened Bytes
  import opened HeaderEncoding
  import opened PolicyConversion
  import opened Wrappers

  /** The parts of a channel that come from outside the model. */
  datatype Channel<!I> = Channel(
    hash: bytes -> bytes,
    isConfig: bytes -> bool,
    decode: bytes -> Option<ConfigTx>,
    assemble: (bytes, string) -> Option<BlockSignatures.Verifier>,
    lastConfigIndex: Block -> Option<nat>,
    codec: BlockSignatures.Codec,
    msp: BlockSignatures.Msp<I>)

  /** The first transaction of a block, decoded as a configuration. */
  function FirstConfig<I>(c: Channel<I>, data: seq<bytes>): Option<ConfigTx> {
    if data == [] || Unmarshal(data[0]).None? then None else c.decode(Unmarshal(data[0]).value.payload)
  }

  /** The configuration of a block is what the payload of its first transaction decodes to. */
  lemma FirstConfigIff<I>(c: Channel<I>, data: seq<bytes>, tx: ConfigTx)
    ensures FirstConfig(c, data) == Some(tx) <==> data != [] && exists e :: Unmarshal(data[0]) == Some(e) && c.decode(e.payload) == Some(tx)
  {
  }

  /** The environment of the channel's block verifier. */
  function Environment<I>(c: Channel<I>): Env<BlockSignatures.Verifier> {
    Env(
      (h: Header) => c.hash(HeaderBytes(h)),
      (d: seq<bytes>) => Accepted(d, c.isConfig),
      (d: seq<bytes>) => DataHash(d, c.hash),
      (d: seq<bytes>) => HasConfigTx(d, c.isConfig),
      (d: seq<bytes>) => FirstConfig(c, d),
      c.assemble,
      (v: BlockSignatures.Verifier, h: Header, m: seq<bytes>) => BlockSignatures.Verified(v, c.codec, c.msp, h, m),
      c.lastConfigIndex)
  }

  /** The verifier asks for a quorum of its consenters. */
  ghost predicate BftVerifier(v: BlockSignatures.Verifier) {
    v.policy == Signature(BlockSignatures.BftPolicy(v.consenters))
  }

  /** The consenters whose signatures stand in the metadata of both blocks, if they are different headers of one number. */
  ghost function Equivocators<I>(c: Channel<I>, v: BlockSignatures.Verifier, x: Block, y: Block): set<nat> {
    if x.header.None? || y.header.None? || x.metadata.None? || y.metadata.None? then {}
    else BlockSignatures.Equivocators(v, c.codec, c.msp, x.header.value, x.metadata.value, y.header.value, y.metadata.value)
  }

  ghost predicate FewEquivocate<I>(c: Channel<I>, v: BlockSignatures.Verifier, x: Block, y: Block) {
    |Equivocators(c, v, x, y)| <= FaultBound(|v.consenters|)
  }

  /** A BFT verifier with at most `f` equivocators among its consenters does not accept a fork. */
  lemma BftVerifierSafe<I(!new)>(c: Channel<I>, s: State<BlockSignatures.Verifier>, x: Block, y: Block)
    requires BftVerifier(s.verifier) && FewEquivocate(c, s.verifier, x, y)
    ensures NoForkAt(Environment(c), Some(s), x, y)
  {
    var env := Environment(c);
    if && x.header.Some? && y.header.Some? && x.metadata.Some? && y.metadata.Some? && x.header.value.number == y.header.value.number
       && env.check(s.verifier, x.header.value, x.metadata.value) && env.check(s.verifier, y.header.value, y.metadata.value) {
      BlockSignatures.NoFork(s.verifier, c.codec, c.msp, x.header.value, x.metadata.value, y.header.value, y.metadata.value);
    }
  }

  /** The hash does not collide on the data of the two blocks. */
  ghost predicate DataSeparates<I>(c: Channel<I>, x: Block, y: Block) {
    x.data.Some? && y.data.Some? ==> Separates(c.hash, Join(x.data.value), Join(y.data.value))
  }

  /** Both blocks are configuration blocks, or neither is. */
  ghost predicate SameKind<I>(c: Channel<I>, x: Block, y: Block) {
    IsConfigBlock(Environment(c), x) <==> IsConfigBlock(Environment(c), y)
  }

  /** Acceptable data with one hash is bound exactly when both or neither are a configuration block's. */
  lemma DataBoundIff<I>(c: Channel<I>, x: Block, y: Block)
    requires DataSeparates(c, x, y)
    ensures Bound(Environment(c), x.data, y.data) <==>
      (&& x.data.Some? && y.data.Some?
       && Accepted(x.data.value, c.isConfig) && Accepted(y.data.value, c.isConfig)
       && DataHash(x.data.value, c.hash) == DataHash(y.data.value, c.hash)
       ==> SameKind(c, x, y))
  {
    var env := Environment(c);
    if x.data.Some? && y.data.Some? && env.wellFormed(x.data.value) && env.wellFormed(y.data.value)
       && env.dataHash(x.data.value) == env.dataHash(y.data.value) {
      DataHashFixesList(x.data.value, y.data.value, c.hash, c.isConfig);
    }
  }

  /** The verifier in force at height `i` of the stream is a BFT one. */
  ghost predicate BftAt<I>(c: Channel<I>, s: State<BlockSignatures.Verifier>, xs: seq<Block>, i: nat)
    requires i < |xs|
  {
    var t := Run(Environment(c), s, FullEvents(xs[..i]));
    t.Some? ==> BftVerifier(t.value.verifier)
  }

  /** At most `f` of its consenters signed both blocks at that height. */
  ghost predicate FewEquivocateAt<I>(c: Channel<I>, s: State<BlockSignatures.Verifier>, xs: seq<Block>, ys: seq<Block>, i: nat)
    requires i < |xs| == |ys|
  {
    var t := Run(Environment(c), s, FullEvents(xs[..i]));
    t.Some? ==> FewEquivocate(c, t.value.verifier, xs[i], ys[i])
  }

  /**
   No two blocks at one height: two verifiers that start equal and accept streams of full blocks of one length,
   while every verifier that the first one installs is a BFT one and at most `f` of its consenters signed both
   blocks of its height, hold the same headers and transactions exactly when at every height both blocks are
   configuration blocks or neither is; and then they stand in the same state.
   */
  lemma OneBlockPerHeight<I(!new)>(c: Channel<I>, s: State<BlockSignatures.Verifier>, xs: seq<Block>, ys: seq<Block>)
    requires |xs| == |ys|
    requires forall i | 0 <= i < |xs| :: BftAt(c, s, xs, i) && FewEquivocateAt(c, s, xs, ys, i)
    requires forall i | 0 <= i < |xs| :: DataSeparates(c, xs[i], ys[i])
    requires Run(Environment(c), s, FullEvents(xs)).Some? && Run(Environment(c), s, FullEvents(ys)).Some?
    ensures SameBlocks(xs, ys) <==> forall i | 0 <= i < |xs| :: SameKind(c, xs[i], ys[i])
    ensures SameBlocks(xs, ys) ==> Run(Environment(c), s, FullEvents(xs)) == Run(Environment(c), s, FullEvents(ys))
  {
    var env := Environment(c);
    if forall i | 0 <= i < |xs| :: SameKind(c, xs[i], ys[i]) {
      forall i | 0 <= i < |xs|
        ensures NoForkAt(env, Run(env, s, FullEvents(xs[..i])), xs[i], ys[i]) && Bound(env, xs[i].data, ys[i].data)
      {
        assert BftAt(c, s, xs, i) && FewEquivocateAt(c, s, xs, ys, i);
        DataBoundIff(c, xs[i], ys[i]);
        if Run(env, s, FullEvents(xs[..i])).Some? {
          BftVerifierSafe(c, Run(env, s, FullEvents(xs[..i])).value, xs[i], ys[i]);
        }
      }
      StreamsAgree(env, s, xs, ys);
    }
    if SameBlocks(xs, ys) {
      forall i | 0 <= i < |xs| ensures SameKind(c, xs[i], ys[i]) {
        assert xs[i].data == ys[i].data;
      }
    }
  }

  /** One header over two different lists of transactions with one concatenation, of which exactly one is a configuration block's. */
  ghost predicate Shadowed<I>(c: Channel<I>, x: Block, y: Block) {
    && x.header == y.header && x.data.Some? && y.data.Some? && x.data != y.data
    && Join(x.data.value) == Join(y.data.value) && !SameKind(c, x, y)
  }

  /** Two blocks that one state accepts differ in one of two ways only. */
  lemma AcceptedApart<I(!new)>(c: Channel<I>, s: State<BlockSignatures.Verifier>, x: Block, y: Block)
    requires BftVerifier(s.verifier) && DataSeparates(c, x, y) && !(x.header == y.header && x.data == y.data)
    requires Step(Environment(c), s, Full(x)).Some? && Step(Environment(c), s, Full(y)).Some?
    ensures |Equivocators(c, s.verifier, x, y)| > FaultBound(|s.verifier.consenters|) || Shadowed(c, x, y)
  {
    var env := Environment(c);
    assert env.check(s.verifier, x.header.value, x.metadata.value) && env.check(s.verifier, y.header.value, y.metadata.value);
    if FewEquivocate(c, s.verifier, x, y) {
      BftVerifierSafe(c, s, x, y);
      assert x.header == y.header;
      DataHashFixesList(x.data.value, y.data.value, c.hash, c.isConfig);
    }
  }

  /**
   A fork is evidence: where two accepted streams first part ways, either more than `f` consenters of the verifier in
   force signed two headers, and both signatures stand in the metadata of the two blocks; or the headers are equal and
   exactly one of the blocks is a configuration block, over the same concatenation.
   */
  lemma ForkShowsEquivocators<I(!new)>(c: Channel<I>, s: State<BlockSignatures.Verifier>, xs: seq<Block>, ys: seq<Block>)
    returns (i: nat)
    requires |xs| == |ys| && !SameBlocks(xs, ys)
    requires forall i | 0 <= i < |xs| :: BftAt(c, s, xs, i) && DataSeparates(c, xs[i], ys[i])
    requires Run(Environment(c), s, FullEvents(xs)).Some? && Run(Environment(c), s, FullEvents(ys)).Some?
    ensures i < |xs| && SameBlocks(xs[..i], ys[..i]) && Run(Environment(c), s, FullEvents(xs[..i])).Some?
    ensures var v := Run(Environment(c), s, FullEvents(xs[..i])).value.verifier;
            |Equivocators(c, v, xs[i], ys[i])| > FaultBound(|v.consenters|) || Shadowed(c, xs[i], ys[i])
  {
    i := FirstDifference(xs, ys);
    var t := DifferenceAccepted(Environment(c), s, xs, ys, i);
    assert BftAt(c, s, xs, i);
    AcceptedApart(c, t, xs[i], ys[i]);
  }

  /** Header hashes of a channel do not collide on headers whose bytes do not. */
  lemma HeaderHashesSeparate<I>(c: Channel<I>, hs: seq<Header>, ks: seq<Header>)
    requires forall i, j | 0 <= i < |hs| && 0 <= j < |ks| :: Separates(c.hash, HeaderBytes(hs[i]), HeaderBytes(ks[j]))
    ensures Collisionless(Environment(c), hs, ks)
  {
    var env := Environment(c);
    forall i, j | 0 <= i < |hs| && 0 <= j < |ks| && env.headerHash(hs[i]) == env.headerHash(ks[j]) ensures hs[i] == ks[j] {
      HeaderBytesInjective(hs[i], ks[j]);
    }
  }
}
