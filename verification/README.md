# Fabric trust core, modelled and verified in Dafny

This project models the parts of Hyperledger Fabric that decide which signatures, configuration updates, blocks
and requests are accepted, and proves what those decisions guarantee.  `dafny verify dfyconfig.toml` checks the
whole project.

| component | modules |
|---|---|
| signature policies | `SignaturePolicies`, `Monotonicity`, `Interning`, `PolicyConversion` |
| BFT quorums and block signatures | `BftQuorum`, `BlockSignatures`, `SignatureSets`, `BlockAcceptance`, `HeaderEncoding`, `HeaderDecoding` |
| block data and the block verifier | `WireFormat`, `WireReading`, `BlockData`, `Transactions`, `BlockVerification`, `ChainSafety` |
| configuration updates | `Paths`, `ConfigTree`, `ConfigMaps`, `ConfigRebuild`, `ConfigUpdates`, `ConfigRuns`, `ConfigAcceptance`, `ConfigLoops` |
| the policy manager | `PolicyManager`, `ModificationPolicies`, `PolicyMeaning` |
| threshold trees | `Combinations`, `TreeSelections`, `TreeExpansion`, `TreePruning`, `TreePermutations` |
| the discovery authorisation cache | `AuthCache`, `AuthCacheRuns`, `AuthCacheProgress`, `AuthCacheSizes` |
| query batching and block delivery | `QuerySessions`, `QueryBatching`, `BlockDelivery` |
| shared types | `Bytes`, `Words`, `Wrappers`, `Outcomes` |

Code that changes things in place is modelled by classes, arrays and loops, each method proved against a function
of the old state; what the source promises is then proved about those functions and over whole runs.  What each such
function computes is also said without it: which updates, blocks, transactions and requests are accepted is an
equivalence over the configuration tree, the blocks or the rounds alone, and what is written is read back by an
independent reader.

Conventions:

- Hashing, signature verification, certificate validity, principal matching and most decoding are function
  parameters.  Where a proof needs that a hash does not collide, it asks so of the byte strings at hand only, and
  who signed what is read off the signatures in the block metadata at hand only.
- Go iterates over maps in no fixed order; the loops here take any remaining key.
- 64-bit and 32-bit wrap-around is written out where a counter can reach it (versions, configuration sequence
  numbers, block numbers, ledger heights, query limits).
- A lock-protected section is one atomic step, except where it reads what the lock does not protect.
- Errors that only differ in their text are one error.

What the proofs show about the code, beyond what its comments say:

- The greedy evaluator is sound, but neither complete nor monotone in the signers: `2-of(AND(A, B, C), A, B)`
  accepts the signers a and b and rejects a, b and c.  It decides exactly whether an assignment exists when no
  identity matches two leaves (`AcceptsIffAssignable`), and then every list that holds satisfying signers satisfies
  (`MonotoneWhenUnambiguous`).  Whatever the identities match, further signers keep a threshold over leaves satisfied,
  all of several such policies, and one of several of those (`MonotoneWhenShallow`); so they keep whole policies, and
  further signatures never invalidate a BFT block (`PolicyMonotone`, `SignaturesNeverHurt`).
- An implicit meta policy counts down to exactly zero, so with a rule outside ANY, ALL and MAJORITY it accepts only
  when no sub-policy does (`CountdownIsThreshold`).
- Converting a meta policy keeps its meaning when no identity satisfies principals of two signature policies.
  Otherwise the two can differ either way: one identity in two sub-policies makes the conversion reject what the meta
  policy accepts (`SharedIdentityDiverges`), and ALL of C and `2-of(AND(A, B, C), A, B)` with the signers a, b and c
  makes it accept what the meta policy rejects (`TrappedMetaDiverges`).  The second way is closed as soon as no
  identity matches two leaves of one signature policy (`ConvertedAcceptsLess`).
- Two streams of blocks that verifiers of a BFT channel accept, while at most f consenters have signatures for two
  headers of a height in the blocks, hold the same headers and transactions exactly when at each height both blocks are
  configuration blocks or neither is (`OneBlockPerHeight`).  Without the bound on the consenters, the first difference
  shows more than f of them, with their signatures, or one header over a configuration block and a data block
  (`ForkShowsEquivocators`).
- The data hash fixes the transaction list of a data block.  A configuration block is not checked for canonical
  encoding, so its single transaction can be the concatenation of the transactions of a data block; lists with one
  hash are equal exactly when both or neither are configuration blocks (`DataHashFixesList`,
  `ConfigurationShadowsList`).
- `GetPolicy` says it strips the manager's path and a slash, but it strips the path and whatever character follows,
  and slices out of range when nothing follows.  `AbsoluteLookupIff` gives the exact condition under which it does
  what the comment says.
- `Evaluate` of a delivery session forgets a refusal at the same sequence; deliveries are safe because they end at
  the first refusal (`RefusalForgotten`, `SentWasAllowed`).
- An element whose modification policy is empty or points nowhere can never be written (`ChangeNeedsTreePolicy`).  It
  can be taken out with its group, by whoever satisfies the policy of a group above it: the policy of the root group
  is enough to take out everything else (`MembershipNeedsTreePolicy`, `ClearingUpdate`).  And once the orderer
  capabilities are in the configuration, the upgrade replaces an empty policy by `Admins`.
- The policy manager, with its flattened index and its implicit meta policies, decides exactly what the configuration
  tree means: an ordinary policy is satisfied when its provider's is, a meta policy when some, all or more than half of
  the sub-groups satisfy the policy its name points to (`PolicyMeans`).  With `AcceptedIff` this says of the trees alone
  which updates are accepted.
- The path of the root group is a modification policy that passes validation, and an update of an element that has it
  panics in the lookup (`ItemPolicyFromTree`, `PanicInstalled`, `NextUpdatePanics`).
- Calls to the authorisation cache cannot block each other for good: after every interleaving, every request can be
  answered with the verdict of the configuration there is (`EveryRequestCanBeAnswered`).
- The authorisation cache stays within its maximum size over every series of calls exactly when the maximum is
  positive and a purge evicts something (`RunSizeBoundIff`); when a purge evicts nothing, as with a retention ratio of
  one, n calls can fill it with n entries (`GrowsWithoutBound`, `SizeBoundRatio`).  Concurrent calls can overgrow it,
  as its comment says, but by at most one less than the number of calls between their check and their store
  (`OvergrowthBounded`).
- Versions are 64-bit counters that wrap around; over a run the versions of an element only grow exactly when its
  counter does not (`VersionsGrowIff`).

## Model

| member | source | states |
|---|---|---|
| SignaturePolicies.Compile | common/cauthdsl/cauthdsl.go:24-92 | compilation succeeds exactly on the policies whose elements are set, known and refer to existing principals |
| SignaturePolicies.Evaluate | common/cauthdsl/cauthdsl.go:40-88 | the closures over the in-place flag array, with copy and rollback, give the verdict and flags of the evaluator function, also on failure |
| SignaturePolicies.CopyFlags | common/cauthdsl/cauthdsl.go:44-50 | the scratch flags become equal to the caller's |
| SignaturePolicies.EvaluatorSound | common/cauthdsl/cauthdsl.go:40-88 | acceptance gives an assignment of matching, previously unused identities to leaves that meets every threshold, and the flags newly set are exactly its image, each once |
| SignaturePolicies.GateSound | common/cauthdsl/cauthdsl.go:40-60 | a gate counts the sub-policies that are met and consumes what those consume; failed ones consume nothing |
| SignaturePolicies.LeavesOthersAlone | common/cauthdsl/cauthdsl.go:66-88 | no flag of an identity that matches no leaf is touched |
| SignaturePolicies.DependsOnlyOnRelevant | common/cauthdsl/cauthdsl.go:40-88 | flags of identities that match no leaf influence neither the verdict nor the other flags |
| SignaturePolicies.IndependentGate | common/cauthdsl/cauthdsl.go:40-60 | sub-policies that no identity has in common are counted as if each ran alone |
| SignaturePolicies.EvaluatorComplete | common/cauthdsl/cauthdsl.go:40-88 | when no identity matches two leaves, any assignment of unused identities is found |
| SignaturePolicies.AcceptsIffAssignable | common/cauthdsl/cauthdsl.go:40-88 | then acceptance is exactly the existence of an assignment |
| SignaturePolicies.TrapAcceptsTwo | common/cauthdsl/cauthdsl.go:40-88 | for any three principals with one signer each, 2-of(AND(A, B, C), A, B) accepts the signers a and b |
| SignaturePolicies.TrapRejectsThree | common/cauthdsl/cauthdsl.go:40-88 | it rejects a, b and c |
| SignaturePolicies.TrapAcceptsUsed | common/cauthdsl/cauthdsl.go:40-88 | it accepts a, b and c again when c is already used |
| SignaturePolicies.TrapStaysAssignable | common/cauthdsl/cauthdsl.go:40-88 | although an assignment exists then |
| SignaturePolicies.NotMonotone | common/cauthdsl/cauthdsl.go:40-88 | concrete principals and signers on which one more signer turns acceptance into rejection |
| Monotonicity.MonotoneWhenUnambiguous | common/cauthdsl/cauthdsl.go:40-88 | when no identity matches two leaves, every list that holds the signers of an accepted one, in any order and with any others, is accepted |
| Monotonicity.MonotoneWhenShallow | common/cauthdsl/cauthdsl.go:40-88 | whatever the identities match, signers put anywhere between accepted ones keep a threshold over leaves satisfied, all of several such policies, and one of several of those to any depth |
| Monotonicity.SteadyFrees | common/cauthdsl/cauthdsl.go:40-60 | one more unused identity keeps such a policy satisfied and leaves at most one identity more unused |
| Monotonicity.SpreadRuns | common/cauthdsl/cauthdsl.go:66-88 | identities that are used from the start might as well not be there, for the verdict and for the other flags |
| Monotonicity.OrderMatters | common/cauthdsl/cauthdsl.go:66-88 | AND(A, B) accepts two signers in one order and rejects them in the other |
| Monotonicity.PolicyMonotone | common/policies/implicitmeta.go:107-144 | further signers keep a whole policy satisfied when its signature policies are of these kinds and no meta policy with sub-policies has threshold 0 |
| Monotonicity.NoneAskedFor | common/policies/implicitmeta.go:44-58 | with threshold 0 a signer turns acceptance into rejection |
| Interning.InternRepresents | common/policies/convert.go:61-86 | every merged principal is represented by a table entry with its key, no key is added twice, earlier entries stay |
| Interning.InternInto | common/policies/convert.go:61-86 | the two loops that fill the principal table and the index maps compute that merge |
| PolicyConversion.KeyClash | common/policies/convert.go:65-86 | principals with one deduplication key are equal unless both have unknown classifications |
| PolicyConversion.DigitsRead | common/policies/convert.go:65-86 | that form reads back as the number |
| PolicyConversion.NewPolicyIff | common/cauthdsl/policy.go:31-54 | an evaluator is built exactly from an envelope of version 0 whose rule refers to existing principals |
| PolicyConversion.EvaluateIdentities | common/policies/implicitmeta.go:107-144 | the count-down loop and the signature evaluator give the verdict of the policy |
| PolicyConversion.CountdownIsThreshold | common/policies/implicitmeta.go:44-58 | the count-down means "at least the threshold" exactly for the three defined rules or without sub-policies |
| PolicyMeaning.RuleMetIff | common/policies/implicitmeta.go:44-58 | threshold and count-down decide exactly some, all or more than half of the sub-groups, and nothing is asked without sub-groups |
| PolicyConversion.MergeTarget.Merge | common/policies/convert.go:61-94 | merging in place adds the principals and the remapped rule and keeps what was there |
| PolicyConversion.Convert | common/policies/convert.go:98-129 | the loop over the sub-policies yields the merged envelope, or an error when one is not convertible |
| PolicyConversion.ConvertSucceedsIff | common/policies/convert.go:98-129 | conversion succeeds exactly when no reject-all placeholder occurs inside |
| PolicyConversion.LargerTableSameEvaluator | common/cauthdsl/cauthdsl.go:61-88 | a rule compiles to the same evaluator in any extension of its principal table |
| PolicyConversion.MergedRuleSameRun | common/policies/convert.go:21-94 | a remapped rule against the merged table gives the verdict and the flags of the original against its own table, from any flags |
| PolicyConversion.ConvertPreservesMeaning | common/policies/convert.go:98-129 | when no identity satisfies principals of two signature policies, the converted policy accepts exactly what the meta policy accepts |
| PolicyConversion.SharedIdentityDiverges | common/policies/convert.go:98-129 | one identity satisfying both sub-policies of ALL is accepted by the meta policy and rejected by its conversion |
| PolicyConversion.TrappedMetaDiverges | common/policies/convert.go:98-129 | ALL of C and 2-of(AND(A, B, C), A, B) with the signers a, b and c is rejected by the meta policy and accepted by its conversion |
| PolicyConversion.ConversionAcceptsMore | common/policies/convert.go:98-129 | concrete principals and signers on which it happens |
| PolicyConversion.ConvertedAcceptsLess | common/policies/convert.go:98-129 | whoever signs for whichever sub-policies, what the converted policy accepts the meta policy accepts, when no identity matches two leaves of one signature policy |
| BftQuorum.QuorumIsLeastSafe | common/policies/bft.go:55-57 | the quorum is the least size for which two quorums overlap in more than f nodes, and n - f nodes reach it, for every n from 1 on |
| BftQuorum.FaultBoundIs | common/policies/bft.go:22-24 | f is the largest number less than a third of n |
| BftQuorum.QuorumsOverlap | common/policies/bft.go:55-57 | two quorums of n consenters share at least f + 1 |
| BftQuorum.CorrectMember | common/policies/bft.go:22-57 | more members than there are faulty ones include a correct one |
| BlockSignatures.SignatureSetToValidIdentities | common/policies/policy.go:363-395 | the loop with its seen-set keeps the identities in order of their first valid signature |
| BlockSignatures.ValidIdentitiesDistinct | common/policies/policy.go:363-395 | no two kept identities have one identifier |
| BlockSignatures.ValidIdentitySigned | common/policies/policy.go:363-395 | each kept identity has a valid signature in the set |
| BlockSignatures.SignerRepresented | common/policies/policy.go:363-395 | every identity with a valid signature is kept under its identifier, wherever invalid signatures stand |
| SignatureSets.FirstValidKept | common/policies/policy.go:363-395 | the identities kept are exactly those of the first valid signature of each signer, in order, where a signer is the provider and the name put together |
| BlockSignatures.CollectSignatures | protoutil/blockutils.go:256-292 | the loop over the metadata signatures builds the signature set, or fails on a header that does not decode |
| SignatureSets.SearchFinds | protoutil/blockutils.go:298-308 | the search finds the first consenter with the identifier, and nothing if there is none |
| SignatureSets.EntryIs | protoutil/blockutils.go:257-292 | what becomes of one metadata signature: by number only in BFT mode with an identifier header alone, over value, header and block header, by the consenter's identity; otherwise by the creator; skipped for an unknown number, malformed if a header does not decode |
| SignatureSets.SetExists | protoutil/blockutils.go:256-292 | there is a signature set exactly when no entry is malformed |
| SignatureSets.SetCollects | protoutil/blockutils.go:256-292 | it holds exactly the listed entries, in order |
| SignatureSets.IdentityReads | protoutil/blockutils.go:298-308 | the identity of a consenter reads back as its provider and its certificate |
| SignatureSets.ConsenterByIdentity | common/policies/bft.go:30-42 | the principal of a consenter is of the identity class and holds that identity |
| BlockSignatures.VerifySignatures | protoutil/blockutils.go:245-296 | the verifier closure accepts exactly when the signature set satisfies the policy |
| BlockSignatures.OrdererGroup.EncodeBFTBlockVerificationPolicy | common/policies/bft.go:22-53 | the block validation policy becomes one signature each of a quorum of the consenters; its modification policy and the other policies stay |
| BlockSignatures.QuorumNeeded | common/policies/bft.go:22-53 | acceptance by that policy matches a quorum of distinct consenters with distinct identities |
| BlockSignatures.QuorumSuffices | common/policies/bft.go:22-53 | a matched quorum is accepted when no identity passes for two consenters |
| BlockSignatures.VerifiedBySigners | protoutil/blockutils.go:245-308 | the metadata of a verified header holds valid signatures of a quorum of consenters over payloads that end in the header |
| BlockSignatures.SharedSigners | protoutil/blockutils.go:245-308 | any two verified headers share at least f + 1 distinct consenters with signatures in the metadata of both |
| BlockSignatures.CorrectSharedSigner | protoutil/blockutils.go:245-308 | whichever f consenters are faulty, another one has signatures in the metadata of both |
| BlockSignatures.NoFork | protoutil/blockutils.go:245-308 | two verified headers of one number are equal exactly when at most f consenters have signatures for two headers in their metadata |
| BlockSignatures.EquivocatorSignedTwo | protoutil/blockutils.go:257-292 | a consenter counted as signing two headers has valid signatures over two different payloads in the two metadata |
| BlockSignatures.OnePayloadOneHeader | protoutil/blockutils.go:257-292 | one signed payload cannot serve two headers of one number |
| BlockAcceptance.VerifiedIff | protoutil/blockutils.go:245-308 | a header is verified exactly when its metadata decodes and holds signatures of a quorum of the consenters, when no identity passes for two of them and identities with one key pass for the same |
| BlockAcceptance.CorrectConsentersSuffice | common/policies/bft.go:22-57 | whichever f consenters are faulty, the signatures of the others suffice |
| BlockAcceptance.QuorumMonotone | common/policies/bft.go:22-53 | further identities keep the quorum policy satisfied, whatever they pass for |
| BlockAcceptance.SignaturesNeverHurt | protoutil/blockutils.go:245-308 | signatures added after those in the metadata of a verified header, valid or not, keep it verified as long as they decode |
| HeaderEncoding.BigEndianRoundTrip | protoutil/blockutils.go:48-62 | the octets of a number read back as the number |
| HeaderEncoding.LengthUnique | protoutil/blockutils.go:48-62 | a DER length is read back from any byte string that starts with it |
| HeaderEncoding.TlvUnique | protoutil/blockutils.go:48-62 | so is a tagged value |
| HeaderEncoding.HeaderBytesInjective | protoutil/blockutils.go:48-62 | different headers have different bytes |
| HeaderDecoding.HeaderReads | protoutil/blockutils.go:48-62 | an independent reader of the encoding reads number, previous hash and data hash back, each in its place |
| HeaderEncoding.PayloadFixesHeader | protoutil/blockutils.go:257-292 | a byte string that ends in a header's bytes determines the header among those of one number and hash sizes |
| WireFormat.VarintRoundTrip | vendor/google.golang.org/protobuf/encoding/protowire/wire.go:267-367 | what the varint encoder writes for a 64-bit number the decoder reads back, whatever follows |
| WireFormat.EncodingShortest | vendor/google.golang.org/protobuf/encoding/protowire/wire.go:185-263 | the encoder's form is the shortest the decoder reads as the number |
| WireFormat.FieldValuePrefix | vendor/google.golang.org/protobuf/encoding/protowire/wire.go:112-114 | the extent of a field value, groups included, depends only on the bytes it covers |
| WireFormat.GroupValuePrefix | vendor/google.golang.org/protobuf/encoding/protowire/wire.go:475-491 | so does the extent of a group up to its matching end marker |
| WireReading.VarintIs | vendor/google.golang.org/protobuf/encoding/protowire/wire.go:267-367 | a number is read exactly up to the first byte below 128 among at most ten, the tenth below 2, and fits 64 bits |
| WireReading.TagReads | vendor/google.golang.org/protobuf/encoding/protowire/wire.go:168-180 | a tag as it is written is read exactly if its field number is in range |
| WireReading.WrittenIsRead | vendor/google.golang.org/protobuf/encoding/protowire/wire.go:116-159 | every value as it is written, with groups in groups no deeper than the limit, is read to its end whatever follows |
| WireReading.AllRead | vendor/google.golang.org/protobuf/encoding/protowire/wire.go:130-153 | so are all fields of a group up to its end marker |
| WireReading.TruncatedIsRefused | vendor/google.golang.org/protobuf/encoding/protowire/wire.go:116-159 | a value cut short anywhere is refused |
| WireReading.NoSuchValue | vendor/google.golang.org/protobuf/encoding/protowire/wire.go:116-159 | no value is read for a type that no value has, and no group below the limit |
| BlockData.VerifyTransaction | protoutil/blockutils.go:321-347 | one round of the loop accepts exactly the transactions that decode, have payload and signature, and marshal back to themselves |
| BlockData.VerifyTransactions | protoutil/blockutils.go:321-347 | the loop accepts exactly the lists of such transactions |
| BlockData.VerifyTransactionsAreWellFormed | protoutil/blockutils.go:310-350 | configuration blocks pass unchecked, other lists exactly when every transaction passes |
| Transactions.WellFormedIff | protoutil/blockutils.go:321-347 | a transaction passes exactly when it is a non-empty payload field, a non-empty signature field, and other fields with shortest tags |
| Transactions.AcceptedIff | protoutil/blockutils.go:310-350 | a list passes exactly when it is one configuration transaction or one or more transactions that pass |
| BlockData.OnePayload | protoutil/blockutils.go:321-347 | a well-formed transaction starts with its payload field and has no second one |
| BlockData.NoProperPrefix | protoutil/blockutils.go:321-347 | no well-formed transaction followed by another one is a well-formed transaction |
| BlockData.ConcatenationFixesList | protoutil/blockutils.go:310-350 | lists that pass the loop and have one concatenation are one list |
| BlockData.DataHashFixesList | protoutil/blockutils.go:76-79 | accepted lists with one data hash are equal exactly when both or neither are configuration blocks |
| BlockData.ConfigurationShadowsList | protoutil/commonutils.go:202-232 | a configuration transaction whose bytes are two transactions is accepted, as are the two, with one data hash |
| BlockData.ClientEncodingAccepted | protoutil/blockutils.go:321-347 | every envelope with a payload and a signature that a client marshals passes |
| BlockVerification.NewBlockVerificationAssistant | common/deliverclient/block_verification.go:72-150 | a verifier is created exactly when the last block is not before the configuration block and both name it as the last configuration, and stands at the last header |
| BlockVerification.NewBlockVerificationAssistantFromConfig | common/deliverclient/block_verification.go:155-183 | a verifier is created exactly from a configuration that assembles and a hash that is not empty, at the given number and hash |
| BlockVerification.BlockVerificationAssistant.Clone | common/deliverclient/block_verification.go:185-196 | a different object in the same state |
| BlockVerification.BlockVerificationAssistant.VerifyHeader | common/deliverclient/block_verification.go:311-331 | the number and, unless none is known, the previous hash must follow the last header |
| BlockVerification.BlockVerificationAssistant.VerifyBlock | common/deliverclient/block_verification.go:243-273 | a block is accepted and the state moves to it exactly when header, metadata, data and signatures pass; a failed call changes nothing |
| BlockVerification.BlockVerificationAssistant.VerifyBlockAttestation | common/deliverclient/block_verification.go:278-294 | the same without the data |
| BlockVerification.BlockVerificationAssistant.UpdateConfig | common/deliverclient/block_verification.go:200-240 | a configuration block installs its verifier and moves to its header; a failed call changes nothing |
| BlockVerification.BlockVerificationAssistant.UpdateBlockHeader | common/deliverclient/block_verification.go:298-301 | the state moves to the header |
| BlockVerification.CreatedWithHash | common/deliverclient/block_verification.go:72-183 | both constructors set a header hash, so the empty-hash bypass starts out unreachable |
| BlockVerification.CreatedFromBlocks | common/deliverclient/block_verification.go:72-150 | exactly which pairs of blocks a verifier is created from, and that it holds the verifier of the configuration block at the last header |
| BlockVerification.CreatedFromConfig | common/deliverclient/block_verification.go:155-183 | exactly which configurations and hashes a verifier is created from, and the state it starts in |
| BlockVerification.StepFollows | common/deliverclient/block_verification.go:243-331 | an accepted block follows the previous header in number and hash and becomes the last one |
| BlockVerification.AcceptedIff | common/deliverclient/block_verification.go:200-331 | an event is accepted exactly when number, hash link, metadata and signatures are right, the data of a full block is well formed and committed to, and a configuration block carries a configuration of the channel that gives a verifier |
| BlockVerification.StepVerifier | common/deliverclient/block_verification.go:200-240 | a configuration block installs the verifier its configuration gives; every other event keeps the one in force |
| BlockVerification.RunVerifier | common/deliverclient/block_verification.go:200-331 | after every run the verifier in force is the one that the last configuration block of the run gave, or the initial one |
| BlockVerification.UpdateBlockHeaderRedundant | common/deliverclient/block_verification.go:298-301 | updating the header after an accepted block changes nothing |
| BlockVerification.RunIsChain | common/deliverclient/block_verification.go:200-331 | in every run the accepted headers form one chain of consecutive numbers and hash links, and the bypass stays unreachable |
| BlockVerification.ChainNumber | common/deliverclient/block_verification.go:311-331 | the k-th accepted header has the start number plus k, modulo 2^64 |
| BlockVerification.RunsToOneHeaderAgree | common/deliverclient/block_verification.go:200-331 | two runs from one state that end at one header accepted the same headers, short of a wrap-around of the block number |
| BlockVerification.AttestationSimulates | common/deliver/deliver.go:333-341 | a stream of full blocks that is accepted is accepted, stripped of data as the server does, by a clone, with equal states after every block |
| BlockVerification.StreamsAgree | common/deliverclient/block_verification.go:200-301 | two verifiers that start equal and accept streams of one length, whoever sends them, accept the same headers and data and end in one state, when at each height the verifier in force there does not accept the two blocks as a fork |
| BlockVerification.DifferenceAccepted | common/deliverclient/block_verification.go:200-301 | where two accepted streams from one state first differ, one state accepts both blocks |
| ChainSafety.BftVerifierSafe | protoutil/blockutils.go:245-308 | a verifier with the BFT policy accepts two blocks of one number only with one header, when at most f consenters have signatures for two headers in the two blocks |
| ChainSafety.DataBoundIff | protoutil/blockutils.go:76-79 | acceptable data with one hash is equal exactly when both blocks are configuration blocks or neither is |
| ChainSafety.OneBlockPerHeight | common/deliverclient/block_verification.go:200-301 | two verifiers of a BFT channel that start equal and accept streams of one length hold the same headers and transactions at every height, through every reconfiguration, exactly when at each height both blocks are configuration blocks or neither is; asked of the verifiers that the run installs, and of the signatures in the blocks |
| ChainSafety.ForkShowsEquivocators | common/deliverclient/block_verification.go:200-301 | where accepted streams first differ, either more than f consenters of the verifier in force have signatures for two headers in the two blocks, or the headers are equal and exactly one block is a configuration block, over the same concatenation |
| ChainSafety.HeaderHashesSeparate | protoutil/blockutils.go:48-67 | header hashes separate headers whose bytes do not collide |
| Paths.SlashedInjective | common/configtx/configmap.go:44-71 | different paths of separator-free names have different strings |
| ConfigTree.FacesDetermineTree | common/configtx/compare.go:46-72 | a tree is determined by what every position shows: version, modification policy, member names, content |
| ConfigTree.PresentIffListed | common/configtx/configmap.go:74-101 | an element is present exactly when its parent group lists it |
| ConfigTree.FaceAtUpgraded | common/configtx/configmap.go:166-187 | the upgrade of empty modification policies changes nothing else at any position |
| ConfigMaps.ValidateConfigID | common/configtx/validator.go:48-68 | the leftmost-match test accepts exactly the names of allowed characters and length other than "." and ".." |
| ConfigMaps.ValidIDIff | common/configtx/validator.go:24-68 | the valid names by length and character codes |
| ConfigMaps.RunFound | common/configtx/validator.go:48-68 | the leftmost match starts at the first allowed character |
| ConfigMaps.ValidChannelIDIff | common/configtx/validator.go:82-100 | the leftmost-match test accepts exactly the channel names of 1 to 249 lower-case letters, digits, dots and dashes that start with a letter |
| ConfigMaps.ValidIDPlain | common/configtx/validator.go:48-68 | a valid name holds no separator |
| ConfigMaps.FqInjective | common/configtx/configmap.go:44-71 | different kinds or positions get different path keys |
| ConfigMaps.ItemsDistinct | common/configtx/configmap.go:74-101 | no two elements of a tree share a path key |
| ConfigMaps.MapHas | common/configtx/configmap.go:32-41 | every element of the tree is in its map, under the key of its position |
| ConfigMaps.MapOnly | common/configtx/configmap.go:32-41 | and nothing else is |
| ConfigRebuild.RebuildTotal | common/configtx/configmap.go:112-190 | a map that holds every listed member rebuilds without a missing path |
| ConfigRebuild.RebuiltFace | common/configtx/configmap.go:112-190 | every position of the rebuilt tree shows what the map holds there, up to the upgrade |
| ConfigRebuild.RebuiltNamesValid | common/configtx/configmap.go:112-190 | all names of the rebuilt tree are valid |
| ConfigRebuild.RoundTrip | common/configtx/configmap.go:105-190 | rebuilding the map of a tree gives the tree, with empty modification policies replaced when the orderer capabilities are in it |
| ConfigUpdates.WriteSetCovered | common/configtx/update.go:104-111 | after the read set matched, the final completeness check cannot fail |
| ConfigUpdates.AuthorizedRebuilds | common/configtx/update.go:115-159 | an authorised update always rebuilds, so no missing path is reported |
| ConfigUpdates.ProposedIff | common/configtx/validator.go:136-159 | an update is proposed exactly when it decodes, is for this channel and signed, has valid names, and its read set matches and its delta set is allowed |
| ConfigAcceptance.AcceptedIff | common/configtx/update.go:18-159 | of the trees alone: an update is accepted exactly when it decodes, is signed, for this channel and has valid names, everything it read stands at the version read, it writes something, and everything it writes is new at 0 or one up with its policy satisfied and has a valid new policy |
| ConfigAcceptance.OutcomeFace | common/configtx/update.go:193-203 | each position of the new tree shows what was written there, or else what stood there, up to the upgrade |
| ConfigAcceptance.OutcomePresent | common/configtx/configmap.go:112-157 | an element is in the new tree exactly when the group above it is and lists it |
| ConfigAcceptance.UpgradesIff | common/configtx/configmap.go:166-187 | the upgrade is on exactly when the root is the channel and the capabilities of the orderer stand in the old tree or are written |
| ConfigAcceptance.PanicsIff | common/configtx/update.go:67-159 | an update can panic exactly when it gets to its delta set and writes an existing element, one up and with a valid new policy, whose policy lookup panics |
| ConfigAcceptance.ValidModPolicyIff | common/configtx/update.go:48-65 | a modification policy is valid exactly when it is a path of valid names, with or without a separator in front |
| ConfigAcceptance.ValidNamesIff | common/configtx/configmap.go:44-101 | the names of a tree pass exactly when every element below the root has a valid one |
| ConfigUpdates.ValidateIffProposed | common/configtx/validator.go:162-196 | validation accepts exactly the configuration that proposing the same update yields |
| ConfigAcceptance.ValidatedForChannel | common/configtx/validator.go:162-196 | a validated configuration comes with an update made for the channel that leads to it |
| ConfigUpdates.ProposedInstalls | common/configtx/validator.go:102-128 | a validator can always be created from a proposed configuration |
| ConfigUpdates.SurvivorAuthorised | common/configtx/update.go:67-102 | an element in both trees is unchanged up to the upgrade, or one version up with its old modification policy satisfied |
| ConfigUpdates.AddedAtZero | common/configtx/update.go:67-102 | an added element starts at version 0 |
| ConfigUpdates.MembershipAuthorised | common/configtx/configmap.go:112-157 | an element added or removed lies below a group that survived and was bumped with its policy satisfied |
| ConfigUpdates.ReplayRefused | common/configtx/update.go:18-102 | an update that changed the tree beyond the upgrade is refused on the resulting configuration |
| ConfigUpdates.ConflictRefused | common/configtx/update.go:18-102 | of two updates that bump one existing element, the second is refused after the first, also when the first takes the element out |
| ConfigUpdates.LoneRootUpdate | common/configtx/update.go:115-159 | bumping a configuration of only its root group is accepted exactly when the group's modification policy is satisfied |
| ConfigUpdates.ClearingUpdate | common/configtx/update.go:67-159 | for every configuration, an update that reads nothing and writes the root group one up without members is accepted, and takes everything else out, exactly when the root group's policy is satisfied and its new policy is valid |
| ConfigRuns.RunContinues | common/configtx/validator.go:102-159 | a validator can be created from every configuration of a run |
| ConfigRuns.SequenceCounts | common/configtx/validator.go:136-159 | over a run the sequence grows by one per step, modulo 2^64 |
| ConfigAcceptance.RunOfChannel | common/configtx/update.go:115-130 | every change of a run was made for the channel |
| ConfigRuns.VersionStep | common/configtx/update.go:67-102 | a surviving element keeps its version or is one up, and drops only where the counter wraps around |
| ConfigRuns.VersionNeverDrops | common/configtx/update.go:67-102 | over a run an element that stays present never loses version while its counter does not wrap around |
| ConfigRuns.VersionsGrowIff | common/configtx/update.go:67-102 | over every run the versions of an element that stays only grow exactly when its 64-bit counter never wraps around |
| ConfigRuns.NoImmediateReplay | common/configtx/update.go:18-102 | no change that altered the tree is accepted twice in a row, whatever policies are then in force |
| ConfigRuns.NoLaterReplay | common/configtx/update.go:18-102 | over every run a change that wrote an element is refused at every later configuration while the element stays and its counter does not wrap around, short of a counter that went from 0 to the largest version, whatever policies are then in force |
| ConfigRuns.SomethingWritten | common/configtx/update.go:67-102 | every change that alters the tree beyond the upgrade writes an element that is there before and after |
| ConfigLoops.ConfigMapBuilder.AddToMap | common/configtx/configmap.go:44-71 | a valid name enters the map under its path key, an invalid one leaves the map alone |
| ConfigLoops.ConfigMapBuilder.AddValues | common/configtx/configmap.go:88-92 | the loop enters exactly the values of the group, or stops at an invalid name |
| ConfigLoops.ConfigMapBuilder.AddPolicies | common/configtx/configmap.go:94-98 | the loop enters exactly the policies |
| ConfigLoops.ConfigMapBuilder.AddGroups | common/configtx/configmap.go:79-86 | the loop enters exactly the elements of the sub-groups |
| ConfigLoops.ConfigMapBuilder.RecurseConfig | common/configtx/configmap.go:74-101 | the recursion succeeds exactly on valid names and adds exactly the elements of the tree |
| ConfigLoops.MapConfigInPlace | common/configtx/configmap.go:32-41 | filling the shared map gives the map of the tree |
| ConfigLoops.RecurseConfigMap | common/configtx/configmap.go:112-190 | filling new groups gives the rebuilt tree, or an error on a missing path |
| ConfigLoops.VerifyReadSet | common/configtx/update.go:18-30 | the scan accepts exactly the read sets whose versions are all current |
| ConfigLoops.ComputeDeltaSet | common/configtx/update.go:32-46 | the loop collects exactly the written elements whose version differs from the one read |
| ConfigLoops.VerifyDeltaSet | common/configtx/update.go:67-102 | the scan accepts exactly the non-empty deltas whose elements are new at 0 or one up and authorised; an error means a refused element, a panic one whose policy lookup panics |
| ConfigLoops.ComputeUpdateResult | common/configtx/update.go:193-203 | the loops overlay the changes on the current map |
| ConfigLoops.AuthorizeUpdateInPlace | common/configtx/update.go:115-159 | the whole check, with its early returns, gives the authorised map exactly when there is one, panics only where a lookup that panics is reached, and panics for certain when no element is refused |
| PolicyManager.NewManagerImpl | common/policies/policy.go:185-245 | a manager is built exactly when every policy compiles, and it mirrors the configuration group; an error means a policy that fails, a panic one that panics, here or below |
| PolicyManager.BuildableIff | common/policies/policy.go:185-245 | a manager can be built exactly when nothing at or below the group fails or panics |
| PolicyMeaning.BuiltIff | common/policies/policy.go:185-245 | a manager can be built exactly when every policy of the tree is of a type whose provider builds it, or a meta policy that decodes and is not named after a sub-group's path, and no provider claims meta policies |
| PolicyManager.NewPolicies | common/policies/policy.go:202-232 | the group's own policies are built exactly when all compile; an error or a panic comes from one that fails or panics |
| PolicyManager.GatherSubPolicies | common/policies/implicitmeta.go:36-42 | an implicit meta policy takes one sub-policy from every sub-manager, reject-all where there is none |
| PolicyManager.Flatten | common/policies/policy.go:234-238 | the index holds the group's own policies and those of every sub-manager under its name, and nothing else |
| PolicyManager.AbsoluteLookupIff | common/policies/policy.go:330-358 | the exact identifiers for which an absolute lookup does what its comment says |
| PolicyManager.SiblingMistaken | common/policies/policy.go:330-358 | an identifier with another character in place of the separator finds the manager's own policy |
| PolicyManager.EntryBelow | common/policies/policy.go:234-238 | an index entry with a separator is the entry of the sub-manager it starts with |
| PolicyManager.IndexIsWalk | common/policies/policy.go:258-273 | for separator-free names, looking a path up in the index is walking the sub-managers and looking up the last name |
| ModificationPolicies.ManagerPerGroup | common/policies/policy.go:258-273 | there is a manager exactly where there is a group, and it mirrors that group |
| ModificationPolicies.PolicyFromTree | common/policies/policy.go:185-245 | the index finds exactly the policies of the configuration tree, as their own group built them |
| ModificationPolicies.RelativeIsAbsolute | common/configtx/update.go:161-190 | a relative modification policy resolves as the absolute path through the element's group does at the root |
| ModificationPolicies.ImplicitMetaCounts | common/policies/implicitmeta.go:30-66 | a meta policy is satisfied exactly when enough sub-groups hold, in the same index, a satisfied policy where the sub-policy name, whatever its form, points below them |
| PolicyMeaning.PolicyMeans | common/policies/policy.go:185-273 | at every place the index finds a policy that is satisfied exactly when the policy of the tree there is, read off the tree alone |
| PolicyMeaning.ProvidedMeans | common/policies/policy.go:202-232 | an ordinary policy is satisfied exactly when the one its provider built is |
| PolicyMeaning.MetaMeans | common/policies/implicitmeta.go:30-66 | a meta policy is satisfied exactly when some, all or more than half of the sub-groups satisfy the policy its sub-policy name points to |
| ModificationPolicies.ItemPolicyFromTree | common/configtx/update.go:161-190 | the modification policy of an element, relative, absolute or empty, resolves to exactly the policy that the tree holds where it points, or to none; the lookup panics exactly when it is the path of the root |
| ModificationPolicies.ChangeNeedsTreePolicy | common/configtx/update.go:67-102 | an accepted update that writes an existing element at a new version carries signatures that satisfy the policy which the old tree holds where the element's modification policy, relative or absolute, points; with an empty one it cannot be written |
| PolicyMeaning.AuthorizedIff | common/configtx/update.go:161-190 | the policy check on an element passes exactly when the policy of the tree that guards it is satisfied |
| PolicyMeaning.WrittenIsGuarded | common/configtx/update.go:67-102 | an accepted update carries, for every existing element it writes, signatures that satisfy the policy of the old tree that guards it |
| ModificationPolicies.MembershipNeedsTreePolicy | common/configtx/configmap.go:112-157 | an accepted update that adds or takes out an element bumps a group above it and carries signatures that satisfy the policy which the old tree holds where that group's modification policy points |
| ModificationPolicies.PanicInstalled | common/configtx/update.go:48-65 | the path of the root group passes as a modification policy, so it can be installed exactly by whoever satisfies the root group's policy |
| ModificationPolicies.NextUpdatePanics | common/configtx/update.go:67-102 | then the next update of the root group panics in the lookup, whoever signed it |
| Combinations.Choose | common/graph/choose.go:50-65 | the recursion appends to the shared list exactly the ways to complete the current choice |
| Combinations.ChooseKoutOfN | common/graph/choose.go:40-48 | every strictly increasing list of k indices below n, each once, binomial(n, k) in number |
| Combinations.ChosenMembers | common/graph/choose.go:50-65 | membership in the list is exactly extending the current choice by larger indices |
| Combinations.BinomialFactorial | common/graph/choose.go:29-38 | the coefficient counted is n! / (k! (n-k)!) |
| Combinations.ExceedIff | common/graph/choose.go:29-38 | the test for too many combinations compares the number of combinations there are with the bound |
| TreeSelections.ReplaceInjective | common/graph/tree.go:89-97 | where the old children are known, replacing them loses nothing |
| TreeSelections.ChoiceHandles | common/graph/perm.go:74-89 | replacing a vertex's children by a choice of them turns a partial selection into one that handles the vertex |
| TreeSelections.HandledByChoice | common/graph/perm.go:74-89 | every partial selection that handles a vertex comes from an earlier one by a choice there |
| TreeSelections.HandledEverywhere | common/graph/perm.go:43-97 | when all internal vertices are handled, the partial selections are the selections |
| TreeExpansion.ExpandLists | common/graph/perm.go:57-89 | one round turns the duplicate-free list of partial selections into that of the next vertex |
| TreeExpansion.ChoicesListed | common/graph/perm.go:122-125 | the combinations of a vertex give each choice of its children once |
| TreeExpansion.NextPending | common/graph/tree.go:135-144 | breadth-first order handles every internal vertex once, parents before children |
| TreePruning.PrunedUnique | common/graph/perm.go:115-119 | pruning keeps identifiers unique |
| TreePruning.PrunedSelection | common/graph/perm.go:115-119 | every selection of a pruned tree is a selection of the tree |
| TreePruning.NothingPruned | common/graph/perm.go:115-119 | a tree within the bound is not pruned |
| TreePruning.PrunedWithinBound | common/graph/perm.go:115-119 | a pruned tree has at most the bound of combinations at every vertex |
| TreePermutations.TreeVertex.Find | common/graph/tree.go:55-65 | a vertex is found exactly when the identifier occurs |
| TreePermutations.TreeVertex.Clone | common/graph/tree.go:74-85 | the copy looks the same and shares no vertex with anything |
| TreePermutations.TreeVertex.Replace | common/graph/tree.go:89-97 | only vertices of the tree itself are written to, and its outline is the replaced one |
| TreePermutations.Partition | common/graph/perm.go:59-67 | the permutations are split by whether they hold the vertex, in order |
| TreePermutations.ExpandVertex | common/graph/perm.go:57-89 | clone and replace give, in order, one permutation per choice |
| TreePermutations.Prune | common/graph/perm.go:115-119 | the loop terminates, keeps the order, leaves as many descendants as the bound on combinations allows, and the threshold's number where there were that many |
| TreePermutations.Select | common/graph/perm.go:122-125 | one list of descendants per combination |
| TreePermutations.Permuter.constructor | common/graph/perm.go:32-39 | the root is the only permutation |
| TreePermutations.Permuter.ComputeDescendantPermutations | common/graph/perm.go:101-127 | only descendant lists of the tree change; the tree becomes a pruned one, with the choices of every internal vertex recorded |
| TreePermutations.Permuter.ExpandAll | common/graph/perm.go:43-97 | the result lists every selection of the pruned tree once, and no vertex of the tree is written to |
| TreePermutations.Permute | common/graph/tree.go:111-113 | the returned trees are the selections of the pruned tree, each once; all are selections of the original, and the original is unchanged where no vertex exceeds the bound |
| AuthCache.AccessCache.ConfigChange | discovery/authcache.go:172-178 | the sequence is replaced and the entries dropped |
| AuthCache.AccessCache.Purge | discovery/authcache.go:145-164 | the loop evicts the computed number of entries, all of them for a negative number, and keeps the others |
| AuthCache.AccessCache.EligibleForService | discovery/authcache.go:100-137 | an undisturbed call answers from a valid entry or computes, purges, and stores only at an unchanged sequence |
| AuthCache.NewSequenceComputes | discovery/authcache.go:100-137 | at a new sequence a call answers what it computes, and the cache then holds that verdict or nothing |
| AuthCache.NextCallHits | discovery/authcache.go:100-137 | a verdict computed at an unchanged sequence answers the next call for it |
| AuthCache.PurgeRetains | discovery/authcache.go:145-164 | a purge of a full cache leaves the number of entries to retain, rounded down |
| AuthCache.SizeBoundIff | discovery/authcache.go:145-164 | one undisturbed call keeps the size within the maximum exactly when that is positive and a purge evicts something |
| AuthCache.RunSizeBoundIff | discovery/authcache.go:100-164 | every series of undisturbed calls stays within the maximum exactly when that is positive and a purge evicts something |
| AuthCache.GrowsWithoutBound | discovery/authcache.go:145-164 | n calls can fill a new cache with n entries up to its maximum size, and past it when a purge evicts nothing |
| AuthCache.SizeBoundRatio | discovery/authcache.go:150-154 | in configuration terms, exactly when ratio times maximum, as floating point gives it, does not truncate to the maximum |
| AuthCacheRuns.LockStep | discovery/authcache.go:123-133 | a verdict goes on to be stored only if it was computed at the sequence read under the lock |
| AuthCacheRuns.StoreStep | discovery/authcache.go:123-136 | what is stored is the verdict of the sequence recorded with it, no older than the last sequence of the cache, although the configuration may have changed since the read |
| AuthCacheRuns.CallStepKeeps | discovery/authcache.go:65-186 | every atomic step of every call keeps the invariant, with caches created by racing calls |
| AuthCacheRuns.VerdictsAreFresh | discovery/authcache.go:100-137 | in every interleaving a returned verdict was computed at a sequence the channel had during the call, no older than the one the call read; entries are at least as new as the last sequence of their cache |
| AuthCacheRuns.AloneIsCalled | discovery/authcache.go:100-137 | the atomic steps of a call that nothing interrupts add up to what the code run on its own does to the cache and answers |
| AuthCacheRuns.UninterruptedIsCalled | discovery/authcache.go:100-137 | so they do from every state that a run of concurrent calls reaches |
| AuthCacheProgress.EveryRequestCanBeAnswered | discovery/authcache.go:65-137 | after every interleaving, at every configuration that may follow, every request can be answered: with an error exactly if the cache is on and the request has no key, otherwise with the verdict of that configuration |
| AuthCacheProgress.EveryCallCanFinish | discovery/authcache.go:65-137 | in every interleaving every call can still be taken to its end; a lock across steps is held only by a call that can store at once |
| AuthCacheProgress.StepCounts | discovery/authcache.go:65-137 | a call ends after at most ten steps |
| AuthCacheProgress.NoCacheWhenOff | discovery/authcache.go:65-68 | with the cache switched off there is never a cache and no call fails |
| AuthCacheProgress.DirectoryHasNewest | discovery/authcache.go:69-81 | in every interleaving the directory has exactly the channels with a cache, and the newest cache of each |
| AuthCacheProgress.LaterCallsShare | discovery/authcache.go:69-81 | no call that comes after its channel has a cache creates another |
| AuthCacheSizes.OvergrowthBounded | discovery/authcache.go:115-136 | in every interleaving with at most k calls at a time between the size check and the store, a positive maximum and a purge that evicts, the cache holds at most maximum - 1 + k entries |
| QuerySessions.BuildConserves | core/chaincode/query_response_generator.go:20-63 | what a call sends and leaves pending are the pending results and the next ones, in order |
| QuerySessions.SessionConserves | core/chaincode/query_response_generator.go:20-82 | over a whole session every batch but the last is full and announces more; the batches are the first results up to the limit, or a beginning of them followed by an error |
| QuerySessions.QueryDelivers | core/chaincode/handler.go:801-832 | a query without iterator errors delivers exactly the first min(limit, available) results |
| QuerySessions.BatchesFit | core/chaincode/query_response_generator.go:42-53 | with a positive batch limit no batch exceeds it |
| QuerySessions.PageDelivers | core/chaincode/query_response_generator.go:65-82 | a page holds the results up to its limit in one response, with their number and the bookmark of what is left |
| QuerySessions.TotalReturnLimit | core/chaincode/handler.go:988-997 | a page size can only lower the configured limit, and does when it is smaller |
| QueryBatching.PendingQueryResult.Cut | core/chaincode/pending_query_result.go:20-24 | the pending results are handed over and forgotten |
| QueryBatching.PendingQueryResult.Add | core/chaincode/pending_query_result.go:26-39 | a result that can be marshalled is appended |
| QueryBatching.TransactionContext.InitializeQueryContext | core/chaincode/transaction_context.go:63-79 | a fresh session is opened, the others stay |
| QueryBatching.TransactionContext.CleanupQueryContext | core/chaincode/transaction_context.go:102-112 | an open query is forgotten and its iterator closed; a second cleanup closes nothing |
| QueryBatching.TransactionContext.CleanupQueryContextWithBookmark | core/chaincode/transaction_context.go:114-128 | the query is forgotten; an iterator that gives bookmarks is closed and its bookmark returned, another one is left open with an empty bookmark |
| QueryBatching.QueryResponseGenerator.CreateQueryResponse | core/chaincode/query_response_generator.go:65-82 | the last batch, with count and bookmark for a page, and the query cleaned up |
| QueryBatching.QueryResponseGenerator.BuildQueryResponse | core/chaincode/query_response_generator.go:20-63 | the loop answers as the session function says; the query stays open in that state while there is more, and is otherwise forgotten and closed once |
| QueryBatching.HandleGetHistoryForKey | core/chaincode/handler.go:919-958 | the query is opened and its first batch answered; it stays open while there is more, and is otherwise forgotten and closed once |
| QueryBatching.HandleQueryStateNext | core/chaincode/handler.go:801-832 | an unknown query is an error; a query that ends, by success, iterator error or marshalling error, is closed exactly once |
| QueryBatching.QueryToTheEnd | core/chaincode/handler.go:801-958 | opening a query and asking for the next batch while there is more gives exactly the responses of the session; the other queries stay open, and the iterator is closed once |
| BlockDelivery.SessionAccessControl.Evaluate | common/deliver/acl.go:58-76 | the policy is consulted on first use and at every newer sequence |
| BlockDelivery.EvaluationIff | common/deliver/acl.go:58-76 | exactly when the policy is consulted and when an evaluation succeeds, and what it remembers |
| BlockDelivery.AllOkIff | common/deliver/acl.go:58-76 | a series of evaluations is successful exactly when the identity never expires and the policy allows at the first and at every newer sequence |
| BlockDelivery.SuccessWasChecked | common/deliver/acl.go:58-76 | a series of successful evaluations consulted the policy at the newest sequence it saw, and it allowed |
| BlockDelivery.RefusalForgotten | common/deliver/acl.go:58-76 | right after a refusal an evaluation succeeds exactly when the identity is valid and the sequence is not newer or the policy allows |
| BlockDelivery.DeliverBlocks | common/deliver/deliver.go:200-359 | the server's early rejections and send loop give the delivery that the rounds determine |
| BlockDelivery.StartedIff | common/deliver/deliver.go:200-286 | a delivery is started exactly for a complete request of an authorised client whose range is not reversed, with the stop number of the position it names |
| BlockDelivery.RejectedWith | common/deliver/deliver.go:200-286 | the status of every rejection |
| BlockDelivery.SendLoop | common/deliver/deliver.go:288-354 | the loop sends what the delivery function says |
| BlockDelivery.SentIff | common/deliver/deliver.go:288-354 | a round sends a block exactly when the block is there or need not be, nothing cancels or fails, the cursor succeeds and the client is still authorised |
| BlockDelivery.EndedWith | common/deliver/deliver.go:288-354 | the status with which any other round ends the delivery |
| BlockDelivery.SentInOrder | common/deliver/deliver.go:288-354 | the blocks of the first rounds are sent, and success means the last of them, and no other, is the stop block |
| BlockDelivery.RangeOnSuccess | common/deliver/deliver.go:252-358 | on success exactly the blocks from start to stop were sent, once each and in order |
| BlockDelivery.RequestDelivers | common/deliver/deliver.go:264-286 | a successful request got the range its start and stop positions name, also where the type of the stop is not given, each block whole or stripped as asked |
| BlockDelivery.RangeAlways | common/deliver/deliver.go:252-358 | in every run the blocks sent have no gaps and do not pass the stop number |
| BlockDelivery.SuccessIff | common/deliver/deliver.go:252-358 | a delivery succeeds exactly when a range is asked for, every round of it is clear, and every evaluation in it succeeds |
| BlockDelivery.RequestSucceedsIff | common/deliver/deliver.go:200-358 | a request succeeds exactly when its range is not reversed, every round of it is clear, and at each evaluation the identity has not expired and the policy allows if it is the first or at a newer sequence |
| BlockDelivery.SentWasAllowed | common/deliver/deliver.go:318-347 | every block sent follows a policy check that passed at the newest sequence the session had observed |

## Left out

- The UDP sequencer, command lines, operations endpoints, metrics, logging and network transport: only I/O.
- X.509, idemix and BCCSP: identity validity, `SatisfiesPrincipal` and `Verify` are parameters.
- The policy language parser: policies are the N-out-of trees it produces.
- Protocol Buffers apart from the wire form of the envelope: other messages decode through parameters; unset
  entries of configuration maps are not modelled.
- `CloseQueryIterators` at the end of a transaction, and collection access caching: single-branch facts.
- The rest of `common/configtx/compare.go`: structural equality by case split.
- `SatisfiedBy` and principal set arithmetic of the discovery service: outside the decisions modelled here.
- Consensus itself: blocks come from whoever sends them.
- Assembling a block verifier from a configuration (common/deliverclient/verifier_assembler.go) is a parameter; the
  chain theorems ask of the verifiers it returns on the way that they use the BFT policy.
- How an iterator makes its bookmark, and how a later query resumes at one: the bookmark is a function of what is left.
- AuthCacheRuns.VerdictsAreFresh: sequences are natural numbers that only grow; a wrap-around of the 64-bit sequence is not modelled.
- BlockDelivery.DeliverBlocks: parsing the request and finding the channel are given as outcomes; the select over channels takes one event per round.
- BlockDelivery.RangeOnSuccess: the cursor is taken to give consecutive blocks, as the ledger's iterator promises.
- TreePermutations.Permute: asks for unique identifiers, thresholds that are not negative and a bound of at least 1; with others the enumeration is ambiguous or does not end.
