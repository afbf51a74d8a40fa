/**
 The block stream verifier of common/deliverclient/block_verification.go: a hash-chain state machine
 whose signature verifier is replaced by every configuration block.
 */
module BlockVerification {
  import opened Bytes
  import opened HeaderEncoding
  import opened Words
  import opened Wrappers

  datatype Block = Block(header: Option<Header>, data: Option<seq<bytes>>, metadata: Option<seq<bytes>>)

  /** The channel and the configuration carried by a configuration transaction. */
  datatype ConfigTx = ConfigTx(channel: string, config: bytes)

  /**
   What the verifier is built on: the header hash (`BlockHeaderHash`), the well-formedness of block data
   (`VerifyTransactionsAreWellFormed`), the data hash (`ComputeBlockDataHash`), the test for a
   configuration block (`HasConfigTx`), the decoder of its first transaction, the assembly of a signature
   verifier from a configuration, the signature verifier itself, and the decoder of a block's last
   configuration index.
   */
  datatype Env<!V> = Env(
    headerHash: Header -> bytes,
    wellFormed: seq<bytes> -> bool,
    dataHash: seq<bytes> -> bytes,
    hasConfig: seq<bytes> -> bool,
    configTx: seq<bytes> -> Option<ConfigTx>,
    assemble: (bytes, string) -> Option<V>,
    check: (V, Header, seq<bytes>) -> bool,
    lastConfigIndex: Block -> Option<nat>)

  datatype State<V> = State(channel: string, verifier: V, configHeader: Option<Header>, last: Header, lastHash: bytes)

  const METADATA_ENTRIES := 5

  /** `IsConfigBlock`. */
  predicate IsConfigBlock<V>(env: Env<V>, b: Block) {
    b.data.Some? && env.hasConfig(b.data.value)
  }

  /** `verifyHeader`: the number follows, and so does the hash unless none is known. */
  predicate HeaderFollows<V>(s: State<V>, b: Option<Block>) {
    && b.Some? && b.value.header.Some?
    && b.value.header.value.number == Increment(s.last.number)
    && (s.lastHash != [] ==> b.value.header.value.previousHash == s.lastHash)
  }

  /** `verifyMetadata`. */
  predicate HasMetadata(b: Block) {
    b.metadata.Some? && |b.metadata.value| >= METADATA_ENTRIES
  }

  function Advance<V>(env: Env<V>, s: State<V>, h: Header): State<V> {
    s.(last := h, lastHash := env.headerHash(h))
  }

  /** The state after a successful `VerifyBlockAttestation`, or `None` on error. */
  function Attested<V>(env: Env<V>, s: State<V>, b: Option<Block>): Option<State<V>> {
    if HeaderFollows(s, b) && HasMetadata(b.value) && env.check(s.verifier, b.value.header.value, b.value.metadata.value)
    then Some(Advance(env, s, b.value.header.value)) else None
  }

  /** The header commits to the data, and the data is acceptable. */
  predicate DataMatches<V>(env: Env<V>, b: Block) {
    && b.header.Some? && b.data.Some? && env.wellFormed(b.data.value)
    && env.dataHash(b.data.value) == b.header.value.dataHash
  }

  /** The state after a successful `VerifyBlock`, or `None` on error. */
  function Verified<V>(env: Env<V>, s: State<V>, b: Option<Block>): Option<State<V>> {
    if b.Some? && DataMatches(env, b.value) then Attested(env, s, b) else None
  }

  /** The state after a successful `UpdateConfig`, or `None` on error. */
  function Reconfigured<V>(env: Env<V>, s: State<V>, b: Block): Option<State<V>>
    requires b.header.Some?
  {
    var tx := if b.data.None? then None else env.configTx(b.data.value);
    if tx.None? || tx.value.channel != s.channel then None
    else
      var v := env.assemble(tx.value.config, s.channel);
      if v.None? then None
      else Some(Advance(env, s, b.header.value).(configHeader := b.header, verifier := v.value))
  }

  /** `NewBlockVerificationAssistant`: from a configuration block and the last block. */
  function FromBlocks<V>(env: Env<V>, configBlock: Option<Block>, lastBlock: Option<Block>): Option<State<V>> {
    if configBlock.None? || configBlock.value.header.None? || !IsConfigBlock(env, configBlock.value) then None
    else
      var number := configBlock.value.header.value.number;
      if env.lastConfigIndex(configBlock.value) != Some(number) then None
      else if lastBlock.None? || lastBlock.value.header.None? || lastBlock.value.header.value.number < number then None
      else if env.lastConfigIndex(lastBlock.value) != Some(number) then None
      else
        var last := lastBlock.value.header.value;
        var tx := env.configTx(configBlock.value.data.value);
        if tx.None? then None
        else
          var v := env.assemble(tx.value.config, tx.value.channel);
          if v.None? then None
          else Some(State(tx.value.channel, v.value, configBlock.value.header, last, env.headerHash(last)))
  }

  /** `NewBlockVerificationAssistantFromConfig`: from a configuration, a number and a header hash. */
  function FromConfig<V>(env: Env<V>, config: Option<bytes>, lastNumber: uint64, lastHash: bytes, channel: string): Option<State<V>>
  {
    if config.None? || lastHash == [] then None
    else
      var v := env.assemble(config.value, channel);
      if v.None? then None else Some(State(channel, v.value, None, Header(lastNumber, [], []), lastHash))
  }

  /** The verifier itself. */
  class BlockVerificationAssistant<V> {
    const env: Env<V>
    const channelID: string
    var sigVerifier: V
    var configBlockHeader: Option<Header>
    var lastBlockHeader: Header
    var lastBlockHeaderHash: bytes

    constructor (env: Env<V>, s: State<V>)
      ensures Contents() == s && this.env == env
    {
      this.env := env;
      channelID, sigVerifier, configBlockHeader := s.channel, s.verifier, s.configHeader;
      lastBlockHeader, lastBlockHeaderHash := s.last, s.lastHash;
    }

    function Contents(): State<V>
      reads this
    {
      State(channelID, sigVerifier, configBlockHeader, lastBlockHeader, lastBlockHeaderHash)
    }

    method Clone() returns (c: BlockVerificationAssistant<V>)
      ensures fresh(c) && c.env == env && c.Contents() == Contents()
    {
      c := new BlockVerificationAssistant(env, Contents());
    }

    method VerifyHeader(block: Option<Block>) returns (ok: bool)
      ensures ok == HeaderFollows(Contents(), block)
    {
      if block.None? || block.value.header.None? {
        return false;
      }
      var header := block.value.header.value;
      if Increment(lastBlockHeader.number) != header.number {
        return false;
      }
      ok := !(|lastBlockHeaderHash| != 0 && header.previousHash != lastBlockHeaderHash);
    }

    method UpdateBlockHeader(block: Block)
      requires block.header.Some?
      modifies this
      ensures Contents() == Advance(env, old(Contents()), block.header.value)
    {
      lastBlockHeader := block.header.value;
      lastBlockHeaderHash := env.headerHash(block.header.value);
    }

    /** A failed call changes nothing. */
    method VerifyBlockAttestation(block: Option<Block>) returns (ok: bool)
      modifies this
      ensures ok == Attested(env, old(Contents()), block).Some?
      ensures Contents() == if ok then Attested(env, old(Contents()), block).value else old(Contents())
    {
      ok := VerifyHeader(block);
      if !ok || !HasMetadata(block.value) {
        return false;
      }
      ok := env.check(sigVerifier, block.value.header.value, block.value.metadata.value);
      if ok {
        UpdateBlockHeader(block.value);
      }
    }

    method VerifyBlock(block: Option<Block>) returns (ok: bool)
      modifies this
      ensures ok == Verified(env, old(Contents()), block).Some?
      ensures Contents() == if ok then Verified(env, old(Contents()), block).value else old(Contents())
    {
      ok := VerifyHeader(block);
      if !ok || !HasMetadata(block.value) {
        return false;
      }
      var header := block.value.header.value;
      if block.value.data.None? {
        return false;
      }
      if !env.wellFormed(block.value.data.value) || env.dataHash(block.value.data.value) != header.dataHash {
        return false;
      }
      ok := env.check(sigVerifier, header, block.value.metadata.value);
      if ok {
        UpdateBlockHeader(block.value);
      }
    }

    method UpdateConfig(configBlock: Block) returns (ok: bool)
      requires configBlock.header.Some?
      modifies this
      ensures ok == Reconfigured(env, old(Contents()), configBlock).Some?
      ensures Contents() == if ok then Reconfigured(env, old(Contents()), configBlock).value else old(Contents())
    {
      if configBlock.data.None? {
        return false;
      }
      var tx := env.configTx(configBlock.data.value);
      if tx.None? || tx.value.channel != channelID {
        return false;
      }
      var verifier := env.assemble(tx.value.config, tx.value.channel);
      if verifier.None? {
        return false;
      }
      configBlockHeader := configBlock.header;
      lastBlockHeader := configBlock.header.value;
      lastBlockHeaderHash := env.headerHash(configBlock.header.value);
      sigVerifier := verifier.value;
      ok := true;
    }
  }

  /** `NewBlockVerificationAssistant`; null is any of its errors. */
  method NewBlockVerificationAssistant<V>(env: Env<V>, configBlock: Option<Block>, lastBlock: Option<Block>)
    returns (a: BlockVerificationAssistant?<V>)
    ensures a != null <==> FromBlocks(env, configBlock, lastBlock).Some?
    ensures a != null ==> fresh(a) && a.env == env && Some(a.Contents()) == FromBlocks(env, configBlock, lastBlock)
  {
    if configBlock.None? || configBlock.value.header.None? || !IsConfigBlock(env, configBlock.value) {
      return null;
    }
    var number := configBlock.value.header.value.number;
    var configIndex := env.lastConfigIndex(configBlock.value);
    if configIndex.None? || configIndex.value != number {
      return null;
    }
    if lastBlock.None? || lastBlock.value.header.None? || lastBlock.value.header.value.number < number {
      return null;
    }
    var lastBlockConfigIndex := env.lastConfigIndex(lastBlock.value);
    if lastBlockConfigIndex.None? || lastBlockConfigIndex.value != number {
      return null;
    }
    var tx := env.configTx(configBlock.value.data.value);
    if tx.None? {
      return null;
    }
    var verifier := env.assemble(tx.value.config, tx.value.channel);
    if verifier.None? {
      return null;
    }
    var last := lastBlock.value.header.value;
    a := new BlockVerificationAssistant(env, State(tx.value.channel, verifier.value, configBlock.value.header, last, env.headerHash(last)));
  }

  /** `NewBlockVerificationAssistantFromConfig`; null is any of its errors. */
  method NewBlockVerificationAssistantFromConfig<V>(env: Env<V>, config: Option<bytes>, lastNumber: uint64, lastHash: bytes, channel: string)
    returns (a: BlockVerificationAssistant?<V>)
    ensures a != null <==> FromConfig(env, config, lastNumber, lastHash, channel).Some?
    ensures a != null ==> fresh(a) && a.env == env && Some(a.Contents()) == FromConfig(env, config, lastNumber, lastHash, channel)
  {
    if config.None? || |lastHash| == 0 {
      return null;
    }
    var verifier := env.assemble(config.value, channel);
    if verifier.None? {
      return null;
    }
    a := new BlockVerificationAssistant(env, State(channel, verifier.value, None, Header(lastNumber, [], []), lastHash));
  }

  // ---------------------------------------------------------------------------
  // Disciplined runs
  // ---------------------------------------------------------------------------

  /** A full block goes to `VerifyBlock`, and to `UpdateConfig` when it is a configuration block. */
  datatype Event = Full(block: Block) | Attestation(block: Block)

  /** The state after an event, or `None` when one of its calls fails. */
  function Step<V>(env: Env<V>, s: State<V>, e: Event): (t: Option<State<V>>)
    ensures t.Some? ==> e.block.header.Some?
  {
    match e
    case Attestation(b) => Attested(env, s, Some(b))
    case Full(b) =>
      var t := Verified(env, s, Some(b));
      if t.None? || !IsConfigBlock(env, b) then t else Reconfigured(env, t.value, b)
  }

  function Run<V>(env: Env<V>, s: State<V>, events: seq<Event>): (t: Option<State<V>>)
    ensures t.Some? ==> forall i | 0 <= i < |events| :: events[i].block.header.Some?
  {
    if events == [] then Some(s)
    else
      var t := Run(env, s, events[..|events| - 1]);
      if t.None? then None else Step(env, t.value, events[|events| - 1])
  }

  /** The headers of accepted events. */
  ghost function Headers(events: seq<Event>): (hs: seq<Header>)
    requires forall i | 0 <= i < |events| :: events[i].block.header.Some?
    ensures |hs| == |events|
  {
    seq(|events|, i requires 0 <= i < |events| => events[i].block.header.value)
  }

  ghost predicate NeverEmpty(headerHash: Header -> bytes) {
    forall h: Header :: headerHash(h) != []
  }

  /** Both constructors set a hash, so the empty-hash bypass of `verifyHeader` starts out unreachable. */
  lemma CreatedWithHash<V>(env: Env<V>, configBlock: Option<Block>, lastBlock: Option<Block>,
                           config: Option<bytes>, lastNumber: uint64, lastHash: bytes, channel: string)
    requires NeverEmpty(env.headerHash)
    ensures var s := FromBlocks(env, configBlock, lastBlock); s.Some? ==> s.value.lastHash != []
    ensures var s := FromConfig(env, config, lastNumber, lastHash, channel); s.Some? ==> s.value.lastHash != []
  {
  }

  /** An accepted event moves to its own header, which follows the previous one in number and hash. */
  lemma StepFollows<V>(env: Env<V>, s: State<V>, e: Event)
    requires Step(env, s, e).Some?
    ensures var h, t := e.block.header.value, Step(env, s, e).value;
            && h.number == Increment(s.last.number)
            && (s.lastHash != [] ==> h.previousHash == s.lastHash)
            && t.last == h && t.lastHash == env.headerHash(h) && t.channel == s.channel
  {
  }

  /** The block has the next number, links to the last header if one is known, and carries enough metadata and its signatures. */
  ghost predicate Attests<V>(env: Env<V>, s: State<V>, b: Block) {
    && b.header.Some? && b.metadata.Some? && |b.metadata.value| >= 5
    && b.header.value.number == Increment(s.last.number) && (s.lastHash == [] || b.header.value.previousHash == s.lastHash)
    && env.check(s.verifier, b.header.value, b.metadata.value)
  }

  /** The configuration that the block carries for the channel gives the verifier. */
  ghost predicate Gives<V>(env: Env<V>, channel: string, b: Block, v: V) {
    && b.data.Some? && env.configTx(b.data.value).Some? && env.configTx(b.data.value).value.channel == channel
    && env.assemble(env.configTx(b.data.value).value.config, channel) == Some(v)
  }

  ghost predicate GivesSome<V(!new)>(env: Env<V>, channel: string, b: Block) {
    exists v :: Gives(env, channel, b, v)
  }

  ghost predicate Reconfigures<V>(env: Env<V>, e: Event) {
    e.Full? && e.block.data.Some? && env.hasConfig(e.block.data.value)
  }

  /**
   An attestation is accepted exactly when it attests; a full block also needs well-formed data that the header commits
   to and, if it is a configuration block, a configuration of the channel that gives a verifier.
   */
  lemma AcceptedIff<V(!new)>(env: Env<V>, s: State<V>, e: Event)
    ensures Step(env, s, e).Some? <==>
      && Attests(env, s, e.block)
      && (e.Full? ==> e.block.data.Some? && env.wellFormed(e.block.data.value) && env.dataHash(e.block.data.value) == e.block.header.value.dataHash)
      && (Reconfigures(env, e) ==> GivesSome(env, s.channel, e.block))
  {
    if Reconfigures(env, e) && env.configTx(e.block.data.value).Some? {
      var tx := env.configTx(e.block.data.value).value;
      var v := env.assemble(tx.config, s.channel);
      if tx.channel == s.channel && v.Some? {
        assert Gives(env, s.channel, e.block, v.value);
      }
    }
  }

  /** A configuration block installs the verifier that its configuration gives; every other event keeps the one in force. */
  lemma StepVerifier<V>(env: Env<V>, s: State<V>, e: Event)
    requires Step(env, s, e).Some?
    ensures var t := Step(env, s, e).value;
            if Reconfigures(env, e) then Gives(env, s.channel, e.block, t.verifier) && t.configHeader == e.block.header
            else t.verifier == s.verifier && t.configHeader == s.configHeader
  {
  }

  /** The position of the last configuration block among the events. */
  ghost function LastReconfiguration<V>(env: Env<V>, events: seq<Event>): (last: Option<nat>)
    ensures last.None? ==> forall i | 0 <= i < |events| :: !Reconfigures(env, events[i])
    ensures last.Some? ==> last.value < |events| && Reconfigures(env, events[last.value])
    ensures last.Some? ==> forall i | last.value < i < |events| :: !Reconfigures(env, events[i])
  {
    if events == [] then None
    else if Reconfigures(env, events[|events| - 1]) then Some(|events| - 1)
    else LastReconfiguration(env, events[..|events| - 1])
  }

  /** The verifier in force after a run is the one that the last configuration block of the run gave, or the initial one. */
  ghost predicate InForce<V>(env: Env<V>, s: State<V>, events: seq<Event>, t: State<V>) {
    var last := LastReconfiguration(env, events);
    && t.channel == s.channel
    && if last.None? then t.verifier == s.verifier && t.configHeader == s.configHeader
       else Gives(env, s.channel, events[last.value].block, t.verifier) && t.configHeader == events[last.value].block.header
  }

  lemma {:induction false} RunVerifier<V>(env: Env<V>, s: State<V>, events: seq<Event>)
    requires Run(env, s, events).Some?
    ensures InForce(env, s, events, Run(env, s, events).value)
  {
    if events != [] {
      var k := |events| - 1;
      RunVerifier(env, s, events[..k]);
      var t := Run(env, s, events[..k]).value;
      StepFollows(env, t, events[k]);
      StepVerifier(env, t, events[k]);
    }
  }

  /** What the two constructors ask for, and the state they create. */
  lemma CreatedFromBlocks<V(!new)>(env: Env<V>, configBlock: Option<Block>, lastBlock: Option<Block>)
    ensures FromBlocks(env, configBlock, lastBlock).Some? <==>
      && configBlock.Some? && lastBlock.Some? && configBlock.value.header.Some? && lastBlock.value.header.Some?
      && configBlock.value.data.Some? && env.hasConfig(configBlock.value.data.value)
      && configBlock.value.header.value.number <= lastBlock.value.header.value.number
      && env.lastConfigIndex(configBlock.value) == env.lastConfigIndex(lastBlock.value) == Some(configBlock.value.header.value.number)
      && exists channel: string :: GivesSome(env, channel, configBlock.value)
    ensures FromBlocks(env, configBlock, lastBlock).Some? ==>
      var s := FromBlocks(env, configBlock, lastBlock).value;
      && Gives(env, s.channel, configBlock.value, s.verifier) && s.configHeader == configBlock.value.header
      && s.last == lastBlock.value.header.value && s.lastHash == env.headerHash(lastBlock.value.header.value)
  {
    if configBlock.Some? && configBlock.value.data.Some? {
      var tx := env.configTx(configBlock.value.data.value);
      if tx.Some? && env.assemble(tx.value.config, tx.value.channel).Some? {
        assert Gives(env, tx.value.channel, configBlock.value, env.assemble(tx.value.config, tx.value.channel).value);
        assert GivesSome(env, tx.value.channel, configBlock.value);
      }
    }
  }

  lemma CreatedFromConfig<V>(env: Env<V>, config: Option<bytes>, lastNumber: uint64, lastHash: bytes, channel: string)
    ensures FromConfig(env, config, lastNumber, lastHash, channel).Some? <==> config.Some? && lastHash != [] && env.assemble(config.value, channel).Some?
    ensures FromConfig(env, config, lastNumber, lastHash, channel).Some? ==>
      var s := FromConfig(env, config, lastNumber, lastHash, channel).value;
      && s.channel == channel && env.assemble(config.value, channel) == Some(s.verifier) && s.configHeader.None?
      && s.last.number == lastNumber && s.lastHash == lastHash
  {
  }

  /** Updating the block header after an accepted event is redundant. */
  lemma UpdateBlockHeaderRedundant<V>(env: Env<V>, s: State<V>, e: Event)
    requires Step(env, s, e).Some?
    ensures Advance(env, Step(env, s, e).value, e.block.header.value) == Step(env, s, e).value
  {
    StepFollows(env, s, e);
  }

  /** The header follows a number and a hash. */
  ghost predicate Follows(h: Header, number: uint64, hash: bytes) {
    h.number == Increment(number) && h.previousHash == hash
  }

  /** Consecutive numbers and hash links, from a number and a hash on. */
  ghost predicate Chained<V>(env: Env<V>, number: uint64, hash: bytes, hs: seq<Header>) {
    && (hs != [] ==> Follows(hs[0], number, hash))
    && (forall i | 0 < i < |hs| :: Follows(hs[i], hs[i - 1].number, env.headerHash(hs[i - 1])))
  }

  lemma ChainExtends<V>(env: Env<V>, number: uint64, hash: bytes, hs: seq<Header>, h: Header)
    requires Chained(env, number, hash, hs)
    requires if hs == [] then Follows(h, number, hash) else Follows(h, hs[|hs| - 1].number, env.headerHash(hs[|hs| - 1]))
    ensures Chained(env, number, hash, hs + [h])
  {
  }

  /** The state stands at the end of the chain. */
  ghost predicate AtEnd<V>(env: Env<V>, s: State<V>, hs: seq<Header>, t: State<V>) {
    if hs == [] then t == s else t.last == hs[|hs| - 1] && t.lastHash == env.headerHash(t.last)
  }

  /** In every disciplined run the accepted headers form one chain, and the bypass stays unreachable. */
  lemma {:induction false} RunIsChain<V>(env: Env<V>, s: State<V>, events: seq<Event>)
    requires NeverEmpty(env.headerHash) && s.lastHash != []
    requires Run(env, s, events).Some?
    ensures Chained(env, s.last.number, s.lastHash, Headers(events))
    ensures AtEnd(env, s, Headers(events), Run(env, s, events).value) && Run(env, s, events).value.lastHash != []
  {
    if events != [] {
      var k := |events| - 1;
      RunIsChain(env, s, events[..k]);
      var hs, h := Headers(events[..k]), events[k].block.header.value;
      StepFollows(env, Run(env, s, events[..k]).value, events[k]);
      assert Headers(events) == hs + [h];
      ChainExtends(env, s.last.number, s.lastHash, hs, h);
    }
  }

  /** The numbers count up from the start, modulo 2^64. */
  lemma {:induction false} ChainNumber<V>(env: Env<V>, number: uint64, hash: bytes, hs: seq<Header>, i: nat)
    requires Chained(env, number, hash, hs) && i < |hs|
    ensures hs[i].number == (number + 1 + i) % TWO_64
  {
    if i > 0 {
      ChainNumber(env, number, hash, hs, i - 1);
      assert Follows(hs[i], hs[i - 1].number, env.headerHash(hs[i - 1]));
    }
  }

  /** No two different headers of the two sequences have one hash. */
  ghost predicate Collisionless<V>(env: Env<V>, hs: seq<Header>, ks: seq<Header>) {
    forall i, j | 0 <= i < |hs| && 0 <= j < |ks| && env.headerHash(hs[i]) == env.headerHash(ks[j]) :: hs[i] == ks[j]
  }

  /** Walking back from a common last header, two chains agree as far as both go. */
  lemma {:induction false} ChainsAgreeBackwards<V>(env: Env<V>, number: uint64, hash: bytes, hs: seq<Header>, ks: seq<Header>, d: nat)
    requires Chained(env, number, hash, hs) && Chained(env, number, hash, ks) && Collisionless(env, hs, ks)
    requires d < |hs| && d < |ks| && hs[|hs| - 1] == ks[|ks| - 1]
    ensures hs[|hs| - 1 - d] == ks[|ks| - 1 - d]
    decreases d
  {
    if d > 0 {
      ChainsAgreeBackwards(env, number, hash, hs, ks, d - 1);
      var i, j := |hs| - 1 - d, |ks| - 1 - d;
      assert Follows(hs[i + 1], hs[i].number, env.headerHash(hs[i])) && Follows(ks[j + 1], ks[j].number, env.headerHash(ks[j]));
    }
  }

  lemma CongruentLengths(number: nat, a: nat, b: nat)
    requires (number + a) % TWO_64 == (number + b) % TWO_64
    ensures a % TWO_64 == b % TWO_64
    ensures a < TWO_64 && b < TWO_64 ==> a == b
  {
  }

  /** Two chains with a common start and a common end. */
  lemma ChainsToOneHeader<V>(env: Env<V>, number: uint64, hash: bytes, hs: seq<Header>, ks: seq<Header>)
    requires Chained(env, number, hash, hs) && Chained(env, number, hash, ks) && Collisionless(env, hs, ks)
    requires hs != [] && ks != [] && hs[|hs| - 1] == ks[|ks| - 1]
    ensures |hs| % TWO_64 == |ks| % TWO_64
    ensures |hs| <= |ks| ==> hs == ks[|ks| - |hs|..]
    ensures |hs| < TWO_64 && |ks| < TWO_64 ==> hs == ks
  {
    assert (number + |hs|) % TWO_64 == (number + |ks|) % TWO_64 by {
      ChainNumber(env, number, hash, hs, |hs| - 1);
      ChainNumber(env, number, hash, ks, |ks| - 1);
    }
    CongruentLengths(number, |hs|, |ks|);
    if |hs| <= |ks| {
      forall i | 0 <= i < |hs| ensures hs[i] == ks[|ks| - |hs|..][i] {
        ChainsAgreeBackwards(env, number, hash, hs, ks, |hs| - 1 - i);
      }
    }
  }

  /** The accepted headers of a run. */
  ghost predicate AcceptsHeaders<V>(env: Env<V>, s: State<V>, hs: seq<Header>) {
    exists events: seq<Event> :: Run(env, s, events).Some? && Headers(events) == hs
  }

  lemma AcceptedHeadersChain<V>(env: Env<V>, s: State<V>, hs: seq<Header>)
    requires NeverEmpty(env.headerHash) && s.lastHash != [] && AcceptsHeaders(env, s, hs)
    ensures Chained(env, s.last.number, s.lastHash, hs)
  {
    var events: seq<Event> :| Run(env, s, events).Some? && Headers(events) == hs;
    RunIsChain(env, s, events);
  }

  /**
   Two runs from one state that end at the same header accepted the same headers: the shorter sequence
   is the end of the longer one, and they are equal unless the block numbers wrapped around in between.
   */
  lemma RunsToOneHeaderAgree<V>(env: Env<V>, s: State<V>, hs: seq<Header>, ks: seq<Header>)
    requires NeverEmpty(env.headerHash) && s.lastHash != []
    requires AcceptsHeaders(env, s, hs) && AcceptsHeaders(env, s, ks)
    requires hs != [] && ks != [] && hs[|hs| - 1] == ks[|ks| - 1]
    requires Collisionless(env, hs, ks)
    ensures |hs| % TWO_64 == |ks| % TWO_64
    ensures |hs| <= |ks| ==> hs == ks[|ks| - |hs|..]
    ensures |hs| < TWO_64 && |ks| < TWO_64 ==> hs == ks
  {
    AcceptedHeadersChain(env, s, hs);
    AcceptedHeadersChain(env, s, ks);
    ChainsToOneHeader(env, s.last.number, s.lastHash, hs, ks);
  }

  // ---------------------------------------------------------------------------
  // Attestations simulate full blocks
  // ---------------------------------------------------------------------------

  /** What the deliver server sends for HEADER_WITH_SIG: data blocks lose their data. */
  function Stripped<V>(env: Env<V>, b: Block): Block {
    if IsConfigBlock(env, b) then b else Block(b.header, None, b.metadata)
  }

  /** A configuration block is sent whole; any other block without its data, and with everything else. */
  lemma StrippedIs<V>(env: Env<V>, b: Block)
    ensures Stripped(env, b).header == b.header && Stripped(env, b).metadata == b.metadata
    ensures Stripped(env, b).data == if b.data.Some? && env.hasConfig(b.data.value) then b.data else None
  {
  }

  /** The client's event for a stripped block. */
  function StrippedEvent<V>(env: Env<V>, b: Block): Event {
    if IsConfigBlock(env, b) then Full(Stripped(env, b)) else Attestation(Stripped(env, b))
  }

  function FullEvents(blocks: seq<Block>): (es: seq<Event>)
    ensures |es| == |blocks|
  {
    seq(|blocks|, i requires 0 <= i < |blocks| => Full(blocks[i]))
  }

  function StrippedEvents<V>(env: Env<V>, blocks: seq<Block>): (es: seq<Event>)
    ensures |es| == |blocks|
  {
    seq(|blocks|, i requires 0 <= i < |blocks| => StrippedEvent(env, blocks[i]))
  }

  lemma RunFullStep<V>(env: Env<V>, s: State<V>, blocks: seq<Block>)
    requires blocks != []
    ensures var init := Run(env, s, FullEvents(blocks[..|blocks| - 1]));
            Run(env, s, FullEvents(blocks)) == if init.None? then None else Step(env, init.value, Full(blocks[|blocks| - 1]))
  {
    var k := |blocks| - 1;
    assert FullEvents(blocks)[..k] == FullEvents(blocks[..k]) && FullEvents(blocks)[k] == Full(blocks[k]);
  }

  lemma RunStrippedStep<V>(env: Env<V>, s: State<V>, blocks: seq<Block>)
    requires blocks != []
    ensures var init := Run(env, s, StrippedEvents(env, blocks[..|blocks| - 1]));
            Run(env, s, StrippedEvents(env, blocks)) ==
            if init.None? then None else Step(env, init.value, StrippedEvent(env, blocks[|blocks| - 1]))
  {
    var k := |blocks| - 1;
    var es := StrippedEvents(env, blocks);
    assert es[..k] == StrippedEvents(env, blocks[..k]) && es[k] == StrippedEvent(env, blocks[k]);
  }

  lemma {:induction false} StrippedRunEqual<V>(env: Env<V>, s: State<V>, blocks: seq<Block>)
    requires Run(env, s, FullEvents(blocks)).Some?
    ensures Run(env, s, StrippedEvents(env, blocks)) == Run(env, s, FullEvents(blocks))
  {
    if blocks != [] {
      var k := |blocks| - 1;
      RunFullStep(env, s, blocks);
      RunStrippedStep(env, s, blocks);
      StrippedRunEqual(env, s, blocks[..k]);
      var t := Run(env, s, FullEvents(blocks[..k])).value;
      assert Step(env, t, Full(blocks[k])).Some? ==> Step(env, t, StrippedEvent(env, blocks[k])) == Step(env, t, Full(blocks[k]));
    }
  }

  lemma {:induction false} PrefixAccepted<V>(env: Env<V>, s: State<V>, blocks: seq<Block>, k: nat)
    requires Run(env, s, FullEvents(blocks)).Some? && k <= |blocks|
    ensures Run(env, s, FullEvents(blocks[..k])).Some?
  {
    if k == |blocks| {
      assert blocks[..k] == blocks;
    } else {
      RunFullStep(env, s, blocks);
      assert blocks[..|blocks| - 1][..k] == blocks[..k];
      PrefixAccepted(env, s, blocks[..|blocks| - 1], k);
    }
  }

  /**
   A stream of full blocks that a verifier accepts is also accepted, stripped, by a clone that uses
   attestations for the data blocks, and the two states are equal after every block.
   */
  lemma AttestationSimulates<V>(env: Env<V>, s: State<V>, blocks: seq<Block>, k: nat)
    requires Run(env, s, FullEvents(blocks)).Some? && k <= |blocks|
    ensures Run(env, s, FullEvents(blocks[..k])).Some?
    ensures Run(env, s, StrippedEvents(env, blocks[..k])) == Run(env, s, FullEvents(blocks[..k]))
  {
    PrefixAccepted(env, s, blocks, k);
    StrippedRunEqual(env, s, blocks[..k]);
  }

  // ---------------------------------------------------------------------------
  // Two verifiers of one channel never part ways
  // ---------------------------------------------------------------------------

  /** In this state the verifier does not accept both blocks as different headers of one number. */
  ghost predicate NoForkAt<V>(env: Env<V>, t: Option<State<V>>, x: Block, y: Block) {
    && t.Some? && x.header.Some? && y.header.Some? && x.metadata.Some? && y.metadata.Some?
    && x.header.value.number == y.header.value.number
    && env.check(t.value.verifier, x.header.value, x.metadata.value) && env.check(t.value.verifier, y.header.value, y.metadata.value)
    ==> x.header == y.header
  }

  /** If both are acceptable and have one hash, they are the same. */
  ghost predicate Bound<V>(env: Env<V>, d: Option<seq<bytes>>, d': Option<seq<bytes>>) {
    d.Some? && d'.Some? && env.wellFormed(d.value) && env.wellFormed(d'.value) && env.dataHash(d.value) == env.dataHash(d'.value) ==> d == d'
  }

  /** One block accepted by two equal verifiers is one block, and the verifiers stay equal. */
  lemma StepAgrees<V>(env: Env<V>, s: State<V>, x: Block, y: Block)
    requires NoForkAt(env, Some(s), x, y) && Bound(env, x.data, y.data)
    requires Step(env, s, Full(x)).Some? && Step(env, s, Full(y)).Some?
    ensures x.header == y.header && x.data == y.data
    ensures Step(env, s, Full(x)) == Step(env, s, Full(y))
  {
    assert env.check(s.verifier, x.header.value, x.metadata.value) && env.check(s.verifier, y.header.value, y.metadata.value);
  }

  /** At every height, the verifier in force there does not accept the two blocks as a fork, and their data is bound. */
  ghost predicate NoForks<V>(env: Env<V>, s: State<V>, xs: seq<Block>, ys: seq<Block>)
    requires |xs| == |ys|
  {
    forall i | 0 <= i < |xs| :: NoForkAt(env, Run(env, s, FullEvents(xs[..i])), xs[i], ys[i]) && Bound(env, xs[i].data, ys[i].data)
  }

  lemma NoForksBefore<V>(env: Env<V>, s: State<V>, xs: seq<Block>, ys: seq<Block>, k: nat)
    requires k <= |xs| == |ys| && NoForks(env, s, xs, ys)
    ensures NoForks(env, s, xs[..k], ys[..k])
  {
    forall i | 0 <= i < k
      ensures NoForkAt(env, Run(env, s, FullEvents(xs[..k][..i])), xs[..k][i], ys[..k][i]) && Bound(env, xs[..k][i].data, ys[..k][i].data)
    {
      assert xs[..k][..i] == xs[..i];
    }
  }

  ghost predicate SameBlocks(xs: seq<Block>, ys: seq<Block>)
    requires |xs| == |ys|
  {
    forall i | 0 <= i < |xs| :: xs[i].header == ys[i].header && xs[i].data == ys[i].data
  }

  lemma SameBlocksMore(xs: seq<Block>, ys: seq<Block>, k: nat)
    requires |xs| == |ys| == k + 1 && SameBlocks(xs[..k], ys[..k])
    requires xs[k].header == ys[k].header && xs[k].data == ys[k].data
    ensures SameBlocks(xs, ys)
  {
    forall i | 0 <= i < k ensures xs[i].header == ys[i].header && xs[i].data == ys[i].data {
      assert xs[i] == xs[..k][i] && ys[i] == ys[..k][i];
    }
  }

  /**
   Two verifiers that start equal and follow two streams of full blocks, whoever sends them, accept the
   same headers and the same data for as long as both go on, across all changes of configuration, when at
   each height the verifier in force there does not accept the two blocks as a fork.
   */
  lemma {:induction false} StreamsAgree<V>(env: Env<V>, s: State<V>, xs: seq<Block>, ys: seq<Block>)
    requires |xs| == |ys| && NoForks(env, s, xs, ys)
    requires Run(env, s, FullEvents(xs)).Some? && Run(env, s, FullEvents(ys)).Some?
    ensures SameBlocks(xs, ys)
    ensures Run(env, s, FullEvents(xs)) == Run(env, s, FullEvents(ys))
  {
    if xs != [] {
      var k := |xs| - 1;
      RunFullStep(env, s, xs);
      RunFullStep(env, s, ys);
      NoForksBefore(env, s, xs, ys, k);
      StreamsAgree(env, s, xs[..k], ys[..k]);
      StepAgrees(env, Run(env, s, FullEvents(xs[..k])).value, xs[k], ys[k]);
      SameBlocksMore(xs, ys, k);
    }
  }

  /** Streams of the same headers and data lead to one state. */
  lemma SameBlocksSameState<V>(env: Env<V>, s: State<V>, xs: seq<Block>, ys: seq<Block>)
    requires |xs| == |ys| && SameBlocks(xs, ys)
    requires Run(env, s, FullEvents(xs)).Some? && Run(env, s, FullEvents(ys)).Some?
    ensures Run(env, s, FullEvents(xs)) == Run(env, s, FullEvents(ys))
  {
    assert NoForks(env, s, xs, ys);
    StreamsAgree(env, s, xs, ys);
  }

  /** The height at which two streams first differ. */
  lemma {:induction false} FirstDifference(xs: seq<Block>, ys: seq<Block>) returns (i: nat)
    requires |xs| == |ys| && !SameBlocks(xs, ys)
    ensures i < |xs| && SameBlocks(xs[..i], ys[..i]) && !(xs[i].header == ys[i].header && xs[i].data == ys[i].data)
  {
    var k := |xs| - 1;
    if SameBlocks(xs[..k], ys[..k]) {
      i := k;
    } else {
      i := FirstDifference(xs[..k], ys[..k]);
      assert xs[..k][..i] == xs[..i] && ys[..k][..i] == ys[..i];
    }
  }

  /** At the first difference of two accepted streams one state accepts both blocks. */
  lemma DifferenceAccepted<V>(env: Env<V>, s: State<V>, xs: seq<Block>, ys: seq<Block>, i: nat) returns (t: State<V>)
    requires |xs| == |ys| && i < |xs| && SameBlocks(xs[..i], ys[..i])
    requires Run(env, s, FullEvents(xs)).Some? && Run(env, s, FullEvents(ys)).Some?
    ensures Run(env, s, FullEvents(xs[..i])) == Some(t) && Step(env, t, Full(xs[i])).Some? && Step(env, t, Full(ys[i])).Some?
  {
    PrefixAccepted(env, s, xs, i);
    PrefixAccepted(env, s, ys, i);
    PrefixAccepted(env, s, xs, i + 1);
    PrefixAccepted(env, s, ys, i + 1);
    SameBlocksSameState(env, s, xs[..i], ys[..i]);
    t := Run(env, s, FullEvents(xs[..i])).value;
    RunFullStep(env, s, xs[..i + 1]);
    RunFullStep(env, s, ys[..i + 1]);
    assert xs[..i + 1][..i] == xs[..i] && ys[..i + 1][..i] == ys[..i];
  }
}
