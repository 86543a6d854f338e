# A model of Spring's finality, tallies, codecs and reflection check

Spring is an Antelope node. This project models the parts of it that are hardest to get
right and proves what they are for. It is a set of Dafny modules, one per component.

**Savanna finality** (`Policies`, `Blocks`, `FinalityCore`, `PolicyPipeline`,
`HeaderStates`, `ChainTracking`, `PolicyHistory`, `Finalizers`, `Certificates`,
`Protocol`, `Safety`, `Runs`, `Progress`, `Liveness`, `Witness`). Blocks form a tree; each
claims a quorum certificate for an ancestor; finalizers vote strong or weak by three stored fields;
finalizer policies move from proposed to pending to active as blocks become final. The
main result is `Runs.RunsAreSafe`: in every run in which the faulty weight of each policy in
force stays below its quorum overlap 2t - W, whatever the faulty finalizers sign and however
policies change, no two blocks ever held final conflict. Its partner is
`Liveness.FinalityCanMove`: as long as the honest finalizers have started and reach the
thresholds of the policies in force, their votes alone can make a new block final from every
reachable system, so no lock ever stops the chain. `Witness.FinalizingRun` shows that the
assumptions hold together in runs of any length in which finality moves, a policy is replaced
and a faulty key signs on a fork.

**Vote tallies** (`Tally`, `TallyProofs`, `JointTally`, `ReceivedQcs`). The incremental count
of votes under one policy and under two, its state machine, and the certificates taken from it
and from certificates received in blocks.

**Policy diffs and Merkle trees** (`OrderedDiff`, `Merkle`). Diffing and patching ordered
containers; the incremental Merkle tree against the root of all digests at once.

**ABI codec** (`AbiCodec`, `AbiRoundTrip`, `AbiDepth`, `AbiProperties`, `AbiMinimal`,
`AbiCanonical`, `AbiFormat`). Encoding and decoding values by the tables of an ABI, with bases,
optionals, variants, arrays and binary extensions, at every recursion depth, and the round trip
in both directions.

**Reflection check** (`ReflectionMatcher`, `ReflectionProofs`, `ReflectionStore`,
`ScopeParser`, `NameResolution`). The script that compares classes with their reflection
macros: its field matcher, its store, its brace scanner and its name lookup.

`Options` and `Arithmetic` hold what several modules share.

## How the model reads the source

- A block is its whole header chain, so equal blocks have equal identifiers. An aggregate
  signature is the multiset of the signatures in it, a hash is an uninterpreted tree.
- Sums of weights are taken modulo 2^64 where the source adds 64-bit numbers; block
  numbers, timestamps and depths are unbounded.
- An honest node accepts a block when its header state can be computed and its claim is
  either the parent's or proved by a certificate (libraries/chain/controller.cpp:4053-4165).
- A policy is trusted when the weight of its faulty finalizers is below the overlap 2t - W
  of two quorums.
- The basic check of a certificate reads the pending bitset before its size is checked; a
  bit past the end is read as clear, and the size check that follows rejects it.
- The ABI's recursion depth is a parameter. Types are trees: `x?[]` is an array of optional
  x. Values are JSON-like; numbers are those in range of their type.
- For encoding what was decoded, the tables are unambiguous: no struct repeats a field name of
  its own or its bases, a base is a struct only, and equal tags of a variant name equal types.
- Class, field and comment patterns of the script are parameters: the field lists, the
  names after a mark, and the brace that ends a class head.

## Where the code and its description differ

- The state after a weak vote is compared with `>=` once quorum is reached and with `>`
  before. A weak vote that lands exactly on the limit makes the tally weak-final although a
  strong quorum is still possible: `TallyProofs.StrongQuorumCanBeMissed`. Over any run of votes
  a strong quorum goes unreported exactly then: `TallyProofs.StrongIsReported`.
- The limit itself is summed in a 32-bit integer: `Tally.MaxWeakSumIsExact` says for which
  totals it is the intended one, `Tally.LimitCanBeTooHigh` shows one for which it is not.
  It is never too low, so it never costs a strong quorum.
- A certificate taken from two tallies of different strength is rejected if and only if a
  finalizer of both policies voted weak: `JointTally.JointCertificateVerifiesExactly` and
  `JointTally.MixedStrengthsCanFail`. Received certificates are
  stored half by half, so the one offered may mix two of them, or one and the own tally:
  `ReceivedQcs.TwoCertificatesCanClash`, `ReceivedQcs.OwnAndReceivedCanClash`, and exactly when
  it is rejected: `ReceivedQcs.ReceivedCertificateVerifiesExactly`.
- Values whose last fields encode to no bytes, and objects without members, encode but do
  not decode: `AbiProperties.EmptyFieldIsLost`; `AbiRoundTrip.Readable` is the exact
  condition in `AbiRoundTrip.RoundTrip`, and `AbiProperties.SolidIsReadable` gives a condition
  on the ABI alone under which it always holds.
- Decoding spends two levels of recursion on a struct, encoding one, under one limit:
  `AbiProperties.DepthDiffers`, and exactly when a value is restored: `AbiDepth.OneLimit`.
- A struct given as a short array skips the check on later fields that an object gets:
  `AbiProperties.ShortRowIsAccepted`. It is refused before an optional field that an object may
  lack: `AbiProperties.ShortRowIsRefused`. `AbiProperties.RowMeansObject` says exactly when the
  two agree.
- The decoder accepts numbers with more bytes than needed and presence flags other than 0 and
  1: `AbiMinimal.LongZeroIsAccepted`, `AbiCanonical.OtherFlagIsAccepted`. `AbiCanonical.ValueRecoded`
  says exactly when encoding again gives the same bytes.
- The reflection script merges the fields of a base only if the base has no entry, and then
  cannot look it up, so nothing is ever merged: `ReflectionStore.Reflections.AddMacro` and
  `ReflectionStore.MergeNeverSucceeds`. A qualified name is looked up whole among a base's
  children and never found: `NameResolution.QualifiedSkipsBase`, with an example in
  `NameResolution.NestedInBaseIsMissed`.

## Model

| member | source | states |
|---|---|---|
| `Policies.QuorumIntersection` | libraries/chain/qc.cpp:136-166 | two vote sets that each pass the weight check of one policy share weight at least 2t - W, a third of W when 3t >= 2W |
| `Policies.HonestOverlap` | libraries/chain/qc.cpp:136-166 | if the faulty weight is below that overlap, any two quorums share an honest finalizer |
| `Blocks.QcBlock` | libraries/chain/include/eosio/chain/finality_core.hpp:51-57 | the claimed block exists on the branch, at the claimed number and below the claimer |
| `Blocks.LibMonotone` | libraries/chain/finality_core.cpp:209-252 | along a branch the last final block never moves back or sideways |
| `Blocks.ClaimsNeverRegress` | libraries/chain/include/eosio/chain/finality_core.hpp:171-172 | along a branch claims never go back, and a strong claim is never made weak again |
| `Blocks.LibIsFromStrongClaim` | libraries/chain/finality_core.cpp:209-252 | a final block other than the root is what a strongly claimed block claims, two links down from some block on the branch |
| `FinalityCore.GenesisCore` | libraries/chain/finality_core.cpp:22-39 | the genesis core satisfies the nine documented invariants |
| `FinalityCore.WindowSizes` | libraries/chain/include/eosio/chain/finality_core.hpp:73-87 | invariants 8 and 9 follow from 1 to 7 |
| `FinalityCore.GetBlockReference` | libraries/chain/finality_core.cpp:131-148 | in range the lookup returns the reference with the number asked for |
| `FinalityCore.GetQcLinkFrom` | libraries/chain/finality_core.cpp:184-200 | in range the lookup returns the link that starts at the number asked for |
| `FinalityCore.GetNewBlockNumbers` | libraries/chain/finality_core.cpp:209-252 | the new last final number and first link bound each other and the claim, and the first is the target of the second |
| `FinalityCore.NextLinks` | libraries/chain/finality_core.cpp:282-382 | links are trimmed to the new front and end with the new block's link, in order |
| `FinalityCore.NextRefs` | libraries/chain/finality_core.cpp:282-382 | references are trimmed to the new last final block and end with the parent, in order |
| `FinalityCore.NextCore` | libraries/chain/finality_core.cpp:282-382 | all invariants are kept, the number grows by one, the claim becomes the latest, and finality does not fall or pass the claim |
| `FinalityCore.NextCoreReference` | libraries/chain/finality_core.cpp:282-382 | every reference still in the window is the one the parent had, and the parent's own is the one given |
| `FinalityCore.NextCoreLink` | libraries/chain/finality_core.cpp:282-382 | every link still in the window is the one the parent had, and the last is the new one |
| `PolicyPipeline.FindFirstReversible` | libraries/chain/block_header_state.cpp:237-297 | the loop finds the first proposal above the last final block |
| `PolicyPipeline.NextHeaderState.constructor` | libraries/chain/block_header_state.cpp:329-357 | the state that is about to be filled: active policy carried over, nothing pending or proposed |
| `PolicyPipeline.NextHeaderState.EvaluateForPromotion` | libraries/chain/block_header_state.cpp:237-297 | the in-place evaluation computes the promotion function: pending to active at or below LIB, latest final proposal to pending if the slot is open, later ones kept |
| `PolicyPipeline.RunKeepsOrder` | libraries/chain/block_header_state.cpp:237-297 | over any run, active, pending and proposed policies keep increasing generations and block numbers |
| `PolicyPipeline.ActiveNeverReturns` | libraries/chain/block_header_state.cpp:237-297 | over any run the active generation never falls and a replaced policy is never active again |
| `PolicyPipeline.PendingIsNextActive` | unittests/block_header_state_tests.cpp:94-111 | over any run a pending policy keeps its slot until LIB reaches its stamp, and the first such block activates exactly it |
| `PolicyPipeline.ExactLatency` | unittests/block_header_state_tests.cpp:357-383 | with LIB a fixed lag behind, the whole state in every block: pending after one lag, active after two, the old policy until then |
| `PolicyPipeline.PromotionTiming` | unittests/block_header_state_tests.cpp:94-133 | proposed at or below LIB before pending, pending at or below LIB before active, and LIB below the block that acts |
| `PolicyPipeline.StepPendingStart` | libraries/chain/block_header_state.cpp:237-297 | the start of the pending period is set to this block's time if and only if a policy becomes pending in it |
| `PolicyPipeline.NothingLost` | unittests/block_header_state_tests.cpp:135-245 | over any run a proposal is still queued, was promoted, or was dropped for a later one that was at or below LIB |
| `HeaderStates.FinishNext` | libraries/chain/block_header_state.cpp:329-437 | the new core sits at the new block, the generation counter rises exactly when the block proposes, and a proposal that does not raise it is refused |
| `HeaderStates.State` | libraries/chain/block_header_state.cpp:439-540 | folding that along a chain gives a core that sits at the block, or none where a check throws |
| `ChainTracking.CoreTracksChain` | libraries/chain/finality_core.cpp:282-382 | the core's window is exactly the references and links of the block's real ancestors from the last final one on |
| `ChainTracking.CoreFinalBlock` | libraries/chain/finality_core.cpp:58-63 | the last final number in the core is the block the two-chain rule makes final on that branch |
| `ChainTracking.QcTimestampTracks` | libraries/chain/finality_core.cpp:93-97 | the QC timestamp in the core is that of the claimed ancestor |
| `ChainTracking.ExtendsIsAncestry` | libraries/chain/finality_core.cpp:104-111 | extends holds if and only if the id is a strict ancestor not below the last final block |
| `PolicyHistory.OrderedAlongChain` | libraries/chain/block_header_state.cpp:372-389 | in every valid block the pipeline is in order |
| `PolicyHistory.PolicyWindow` | libraries/chain/block_header_state.cpp:237-297 | from a block to a descendant whose last final block is not above it, nothing changed but possibly the activation of what was pending there; anything pending since is stamped later |
| `PolicyHistory.AtMostOneActivation` | libraries/chain/block_header_state.cpp:391-410 | between the claimed block and the head at most one activation happened, and it activated what was pending |
| `PolicyHistory.RetrievalIsExact` | libraries/chain/block_header_state.cpp:148-189 | the lookup by generation never reaches its logic error and returns exactly the policies of the block asked for |
| `PolicyHistory.ClaimPolicyAlongChain` | libraries/chain/block_header_state.cpp:391-410 | the remembered policy of the claimed block is the one active there, in every valid block |
| `PolicyHistory.RejectedOnlyForGeneration` | libraries/chain/block_header_state.cpp:372-389 | a well-linked header is rejected if and only if it proposes a generation that does not exceed the last one |
| `PolicyHistory.PendingSince` | unittests/block_header_state_tests.cpp:194-220 | a pending policy was pending beside the same active one in every block since its stamp |
| `PolicyHistory.PendingStartTracks` | libraries/chain/block_header_state.cpp:281-281 | along any chain the remembered start is the time of the block in which the pending policy became pending |
| `PolicyHistory.PoliciesAreProposed` | libraries/chain/block_header_state.cpp:237-297 | every active or pending policy is the genesis one or was proposed on the branch in a block that is final there |
| `PolicyHistory.JointQuorum` | unittests/block_state_tests.cpp:227-261 | when B replaces A, the newly final block and the strongly certified block that made it final were both voted on under A and B together |
| `Finalizers.Finalizer.constructor` | libraries/chain/controller.cpp:2127-2141 | starts from the given safety information |
| `Finalizers.Finalizer.DecideVote` | libraries/chain/finalizer.cpp:8-114 | decision, three check results and whole new safety information, stated over the block tree instead of the core |
| `Finalizers.Finalizer.MaybeUpdateFsi` | libraries/chain/finalizer.cpp:118-127 | evidence is taken if and only if it is later than lock and last vote; the whole new safety information |
| `Finalizers.QcReferenceTracks` | libraries/chain/finalizer.cpp:75-95 | the reference a finalizer locks on is the claimed block's own |
| `Finalizers.AlwaysStrongOnOneBranch` | libraries/chain/finalizer.cpp:8-114 | a finalizer that votes on every block of one branch votes strong every time and stays locked on the claimed block |
| `Certificates.SumWeights` | libraries/chain/qc.cpp:136-150 | the loop adds the set weights modulo 2^64 |
| `Certificates.VerifyVoteFormat` | libraries/chain/qc.cpp:100-134 | accepts if and only if some bitset is there, sizes fit the policy, and nobody votes both ways |
| `Certificates.VerifyWeights` | libraries/chain/qc.cpp:136-166 | accepts if and only if the strong weight, or for a weak signature all weight, reaches the threshold; the sums do not wrap |
| `Certificates.VerifyDualFinalizersVotes` | libraries/chain/qc.cpp:26-51 | accepts if and only if every finalizer of both policies shows the same vote in both |
| `Certificates.VerifyBasic` | libraries/chain/qc.cpp:66-83 | accepts if and only if all of these hold for the policies in force |
| `Certificates.BasicOkExactly` | libraries/chain/qc.cpp:66-166 | a certificate passes if and only if it has signatures for exactly the policies in force, none without a bitset, of the wrong size, with a finalizer in both bitsets or too light, and no finalizer of both policies shown differently |
| `Protocol.ClaimsAreBacked` | libraries/chain/controller.cpp:4053-4165 | every claim on an accepted chain is backed by a certificate that verifies under the claimed block's own policies, strong if the claim is |
| `Protocol.NewClaimExactly` | libraries/chain/controller.cpp:4053-4165 | a claim other than the parent's is accepted if and only if a certificate of just that strength verifies for the claimed block under its own policies |
| `Safety.HonestVoterInBoth` | libraries/chain/qc.cpp:136-166 | certificates for two blocks that share a policy in force share an honest voter |
| `Safety.FinalIsSealed` | libraries/chain/finality_core.cpp:209-252 | a final block is the root or is claimed by a strongly certified accepted block |
| `Safety.CommonPolicy` | libraries/chain/block_header_state.cpp:148-189 | two blocks whose last final blocks lie at or below a common ancestor have a policy in force in common |
| `Safety.FinalBlockIsExtended` | libraries/chain/finalizer.cpp:8-114 | once a block is strongly certified, every certified accepted block that is not older than the block it claims descends from that block |
| `Safety.NoConflictingFinality` | libraries/chain/finalizer.cpp:8-114 | with honest finalizers bound by the voting rule and faulty weight below the quorum overlap, no two accepted blocks hold conflicting blocks final, policy changes included |
| `Runs.VoteFitsHistory` | libraries/chain/finalizer.cpp:8-114 | from the three stored fields alone, a vote keeps the rule against every earlier vote of the same key |
| `Runs.VoteKeepsDiscipline` | libraries/chain/finalizer.cpp:8-114 | each vote keeps the whole voting history within the rule and the stored fields faithful to it |
| `Runs.MayVoteExactly` | libraries/chain/finalizer.cpp:8-60 | a record faithful to a voting history votes if and only if the block is later than every ballot and claims something later than the lock or extends it |
| `Runs.VoteIsStrongExactly` | libraries/chain/finalizer.cpp:70-88 | and votes strong if and only if, besides, every ballot later than the claimed block is on the same branch |
| `Runs.VoteEarnsLock` | libraries/chain/finalizer.cpp:89-98 | the lock moves if and only if the vote is strong and claims something later, and then to that; every lock was claimed by a strong ballot or is the LIB started from |
| `Runs.VoteKeepsOther` | libraries/chain/finalizer.cpp:70-98 | a nonzero time for other branches stays that of a ballot that is off the branch of the last one |
| `Runs.RunsVoteExactly` | libraries/chain/finalizer.cpp:70-88 | in every reachable system an honest finalizer votes strong on a block it may vote on if and only if all its ballots since the claimed block are on that branch |
| `Runs.RecordRestoredExactly` | libraries/chain/finalizer.cpp:118-127 | what evidence of a strong vote leaves behind is faithful to the voting history if and only if that vote was the latest |
| `Runs.EventKeepsGood` | libraries/chain/finalizer.cpp:8-127 | starting, voting, evidence, recovery of a lost record and any faulty signature keep that for every honest key |
| `Runs.RunIsGood` | libraries/chain/finalizer.cpp:8-127 | so does every run from the empty system, and ballots only grow |
| `Runs.RunsAreSafe` | libraries/chain/finalizer.cpp:8-127 | in every run in which the faulty weight of each policy in force stays below its quorum overlap 2t - W, what anyone holds final at any time never conflicts with what anyone holds final at any other time |
| `Progress.StrongVotesCertify` | libraries/chain/qc.cpp:66-83 | strong ballots that reach every threshold make a strong certificate that passes all checks |
| `Progress.ClaimIsAccepted` | libraries/chain/controller.cpp:4053-4165 | a certified block can be extended by a block that claims it |
| `Progress.QuorumsFinalize` | libraries/chain/finality_core.cpp:209-252 | strong quorums on a block and on the next block that claims it make it final in the block after |
| `Liveness.GroundedSameTime` | libraries/chain/finalizer.cpp:27-46 | two blocks of one time that anyone may be locked on are the same block |
| `Liveness.EveryoneMayVote` | libraries/chain/finalizer.cpp:27-46 | no deadlock: in every reachable system some accepted block, as late as one likes, gets a vote from every honest finalizer, however stale its lock |
| `Liveness.HonestVotesCertify` | libraries/chain/qc.cpp:66-83 | honest votes, strong and weak mixed, that reach every threshold make a certificate that passes all checks |
| `Liveness.StrongFollows` | libraries/chain/finalizer.cpp:60-100 | whoever voted on a block votes strong on a child that claims it |
| `Liveness.FinalityCanMove` | libraries/chain/finalizer.cpp:8-114 | every run in which the honest finalizers have started and reach the thresholds can be continued, by their votes alone, to one in which a block later than any given time is final |
| `Witness.FinalizingRun` | libraries/chain/finalizer.cpp:8-114 | for every n, a run that meets all assumptions of the safety and of the liveness theorem in which block n is final while a faulty key has signed a conflicting block |
| `Witness.PoliciesAlongTrunk` | libraries/chain/block_header_state.cpp:237-297 | the whole pipeline in every block of that run: proposed in block 1, pending from block 3, active from block 5 |
| `Witness.PolicyIsReplaced` | unittests/block_state_tests.cpp:227-261 | in block 5 of that run the old policy is replaced by the new one after joint voting |
| `Tally.ComputeMaxWeakSum` | libraries/chain/include/eosio/chain/finalizer_policy.hpp:44-52 | the loop, with its 32-bit accumulator and 64-bit difference |
| `Tally.MaxWeakSumIsExact` | libraries/chain/include/eosio/chain/finalizer_policy.hpp:44-52 | the limit is never below W - t, and equals it if and only if W is below 2^31 or within 2^31 of 2^64 |
| `Tally.LimitCanBeTooHigh` | libraries/chain/include/eosio/chain/finalizer_policy.hpp:44-52 | one finalizer of weight 2^31: the limit should be zero and is not |
| `Tally.AggregatingQcSig.constructor` | libraries/chain/qc.cpp:240-252 | no votes, nothing received |
| `Tally.AggregatingQcSig.AddStrongVote` | libraries/chain/qc.cpp:267-292 | the in-place update computes the tally function |
| `Tally.AggregatingQcSig.AddWeakVote` | libraries/chain/qc.cpp:295-324 | the in-place update computes the tally function |
| `Tally.AggregatingQcSig.Add` | libraries/chain/qc.cpp:327-345 | a finalizer that has voted is a duplicate and changes nothing, otherwise one of the two updates |
| `Tally.AggregatingQcSig.GetBestQc` | libraries/chain/qc.cpp:365-388 | strong beats weak, and the received signature wins a tie |
| `Tally.AggregatingQcSig.SetReceived` | libraries/chain/qc.cpp:390-397 | a received signature replaces another if and only if it is the first or the first strong one |
| `TallyProofs.CastKeepsCount` | libraries/chain/qc.cpp:267-324 | sums, bitsets and aggregate signature stay those of the same voters; a repeated vote changes nothing |
| `TallyProofs.CastKeepsState` | libraries/chain/include/eosio/chain/qc.hpp:120-126 | quorum is reported if and only if the accepted weight reaches the threshold; what each state says about the sums |
| `TallyProofs.StrongRuledOutExactly` | libraries/chain/include/eosio/chain/qc.hpp:120-126 | over any messages the documented meaning of the restricted and weak-final states holds if and only if no weak vote has landed on the limit or more weak weight has followed |
| `TallyProofs.StrongQuorumCanBeMissed` | libraries/chain/qc.cpp:313-316 | the same five votes in two orders: one ends weak-final with a strong quorum of votes, the other ends strong |
| `TallyProofs.StrongIsReported` | libraries/chain/include/eosio/chain/qc.hpp:120-126 | over any messages strong is reported if and only if the strong votes weigh the threshold and no counted weak vote had landed on the limit |
| `TallyProofs.StateExactly` | libraries/chain/qc.cpp:267-324 | over any messages the two sums tell the state: unrestricted or restricted by the limit before quorum, weak below the limit and weak for good above it after, strong only with enough strong weight |
| `TallyProofs.ReachableOk` | libraries/chain/qc.cpp:327-345 | counts and states are truthful after any messages |
| `TallyProofs.BitsAreFirstVotes` | libraries/chain/qc.cpp:327-345 | in one policy's tally a finalizer's bits are its first properly signed vote, whatever else arrived |
| `TallyProofs.QuorumIsVoterWeight` | libraries/chain/qc.cpp:327-345 | one policy's quorum is met if and only if the finalizers with a properly signed vote weigh the threshold |
| `TallyProofs.QuorumStaysMet` | libraries/chain/qc.cpp:267-324 | one policy's quorum once met stays met |
| `TallyProofs.OrderIsIrrelevant` | libraries/chain/qc.cpp:327-345 | one policy's quorum depends only on who has a properly signed vote |
| `JointTally.AddVoteTo` | libraries/chain/qc.cpp:443-500 | one policy's half: unknown key, duplicate, bad signature or an added vote |
| `JointTally.AggregatingQc.constructor` | libraries/chain/include/eosio/chain/qc.hpp:246-255 | an empty tally per policy |
| `JointTally.AggregatingQc.AggregateVote` | libraries/chain/qc.cpp:443-500 | the in-place update of both tallies and the reported status compute the joint function, and received signatures are untouched |
| `JointTally.OutcomeExactly` | libraries/chain/qc.cpp:484-500 | what is reported on any next message, from the messages alone: key in no policy in force, else a properly signed vote before, else not properly signed, else success |
| `JointTally.AggregatingQc.IsQuorumMet` | libraries/chain/qc.cpp:530-532 | quorum in the active and, if any, the pending tally |
| `JointTally.AggregatingQc.GetBestQc` | libraries/chain/qc.cpp:408-422 | a certificate if and only if every policy in force has a signature to offer, made of the best ones |
| `JointTally.AggregatingQc.SetReceivedQc` | libraries/chain/qc.cpp:424-434 | each policy keeps its half on its own, the votes are untouched, and the answer is whether anything stored changed; a missing half stops the call before anything is stored |
| `JointTally.ReachableJointOk` | libraries/chain/qc.cpp:443-500 | after any messages both tallies are truthful and no finalizer of both policies differs in them |
| `JointTally.JointIsBoth` | libraries/chain/qc.cpp:484-493 | after any messages the joint tally is each policy's own tally of all of them, although a call may end before the pending one is tried |
| `JointTally.JointBitsAreFirstVotes` | unittests/block_state_tests.cpp:53-139 | in both tallies a finalizer's bits are its first properly signed vote |
| `JointTally.JointQuorumIsVoterWeight` | unittests/block_state_tests.cpp:142-308 | joint quorum is met if and only if the finalizers with a properly signed vote weigh the threshold in every policy in force |
| `JointTally.JointQuorumStaysMet` | unittests/block_state_tests.cpp:142-308 | a joint quorum once met stays met |
| `JointTally.JointOrderIsIrrelevant` | unittests/block_state_tests.cpp:142-308 | the joint answer depends only on which known finalizers have a properly signed vote |
| `JointTally.SinglePolicyCertificateVerifies` | libraries/chain/qc.cpp:348-363 | without a pending policy, what a tally with quorum yields always verifies |
| `JointTally.JointCertificateVerifiesExactly` | libraries/chain/qc.cpp:26-51 | with a pending policy and nothing received, it verifies if and only if both signatures have the same strength or no finalizer of both policies voted weak |
| `JointTally.MixedStrengthsCanFail` | libraries/chain/qc.cpp:408-422 | four votes after which both policies have quorum and the certificate is rejected |
| `ReceivedQcs.StoredHalves` | libraries/chain/qc.cpp:390-397 | after any certificates the half stored for a policy is that of the first certificate strong in it, or of the first of all if none is |
| `ReceivedQcs.ReceivedCertificateVerifiesExactly` | libraries/chain/qc.cpp:408-434 | after any votes and any verified certificates, with a pending policy: a certificate is offered if and only if one was received or quorum is met, and it verifies if and only if its two sources, each the own tally or one received certificate, show every finalizer of both policies alike; with nothing received, if and only if no such finalizer voted weak or both tallies have the same strength |
| `ReceivedQcs.ReceivedAloneVerifies` | libraries/chain/qc.cpp:408-434 | without a pending policy what is offered always verifies |
| `ReceivedQcs.TwoCertificatesCanClash` | libraries/chain/qc.cpp:424-434 | two verified certificates, without own votes, after which the offered one is rejected |
| `ReceivedQcs.OwnAndReceivedCanClash` | libraries/chain/qc.cpp:365-388 | three own strong votes and one verified certificate after which the offered one is rejected |
| `OrderedDiff.Compare` | libraries/libfc/include/fc/container/ordered_diff.hpp:47-107 | the loop computes the diff function, or fails when an index would not fit |
| `OrderedDiff.Advance` | libraries/libfc/include/fc/container/ordered_diff.hpp:58-92 | one round of that loop while both containers have elements left moves on and keeps what is collected part of the diff |
| `OrderedDiff.SameGivesNothing` | libraries/libfc/test/test_ordered_diff.cpp:154-172 | equal containers have an empty diff |
| `OrderedDiff.DropsVector` | libraries/libfc/test/test_ordered_diff.cpp:78-86 | the exact positions dropped and inserted for the first case of the tests |
| `OrderedDiff.ReplacesVector` | libraries/libfc/test/test_ordered_diff.cpp:90-98 | the same for the second case, with replacements |
| `OrderedDiff.SwappedVector` | libraries/libfc/test/test_ordered_diff.cpp:258-260 | the same for two swapped elements |
| `OrderedDiff.SingleVector` | libraries/libfc/test/test_ordered_diff.cpp:222-224 | the same for one element replaced at the end |
| `OrderedDiff.RepeatedVector` | libraries/libfc/include/fc/container/ordered_diff.hpp:72-86 | where an element could be replaced or the next target inserted, it is replaced |
| `OrderedDiff.DiffApplies` | libraries/libfc/include/fc/container/ordered_diff.hpp:44-47 | the diff of any two containers applies to the first and gives the second |
| `OrderedDiff.ApplyRemoves` | libraries/libfc/include/fc/container/ordered_diff.hpp:117-128 | erasing one by one succeeds if and only if the positions increase and are in range, and leaves the others |
| `OrderedDiff.ApplyInserts` | libraries/libfc/include/fc/container/ordered_diff.hpp:130-139 | inserting one by one succeeds if and only if the positions increase and are within reach, and puts each value at its position |
| `OrderedDiff.Apply` | libraries/libfc/include/fc/container/ordered_diff.hpp:114-141 | the two together |
| `OrderedDiff.CreateDiff` | libraries/chain/include/eosio/chain/finalizer_policy.hpp:26-30 | the policy diff yields the target from the source; it exists if and only if both sizes fit 16-bit indexes |
| `OrderedDiff.ApplyDiff` | libraries/chain/include/eosio/chain/finalizer_policy.hpp:32-41 | gives a policy if and only if it is the one the diff yields |
| `Merkle.ThreadsAgree` | libraries/chain/include/eosio/chain/merkle.hpp:32-68 | cutting the work into two or four slices gives the root of the plain halving |
| `Merkle.MerkleIsReference` | libraries/chain/include/eosio/chain/merkle.hpp:84-100 | the root is that of the tree which splits the digests at the largest power of two below their number, all the way down |
| `Merkle.LeavesInOrder` | libraries/chain/include/eosio/chain/merkle.hpp:84-100 | the leaves under the root, from left to right, are the digests in order |
| `Merkle.FoldedForest` | libraries/chain/include/eosio/chain/incremental_merkle.hpp:39-62 | combining the stored power-of-two roots from the smallest up gives the root of all digests at once |
| `Merkle.IncrementalMerkleTree.constructor` | libraries/chain/include/eosio/chain/incremental_merkle.hpp:87-91 | holds no digests |
| `Merkle.IncrementalMerkleTree.Append` | libraries/chain/include/eosio/chain/incremental_merkle.hpp:33-37 | the stored roots and mask are those of the digests with the new one at the end |
| `Merkle.IncrementalMerkleTree.AppendAt` | libraries/chain/include/eosio/chain/incremental_merkle.hpp:65-86 | the carry, two bits at a time, adds a whole block of digests |
| `Merkle.IncrementalMerkleTree.GetRoot` | libraries/chain/include/eosio/chain/incremental_merkle.hpp:39-44 | the root equals the one calculated from all digests appended |
| `Merkle.ForestAppend` | libraries/chain/include/eosio/chain/incremental_merkle.hpp:12-31 | a block smaller than every stored tree becomes a tree of its own and changes none of them |
| `AbiCodec.PrimRoundTrip` | libraries/libfc/include/fc/io/raw.hpp:215-253 | every built-in value followed by anything unpacks to itself and what follows |
| `AbiRoundTrip.ResolveTwice` | libraries/chain/abi_serializer.cpp:343-353 | resolving a typedef twice changes nothing |
| `AbiRoundTrip.ResolveReachesEnd` | libraries/chain/abi_serializer.cpp:343-353 | a chain of typedefs of any length is followed to its end |
| `AbiRoundTrip.ResolveOfLoop` | libraries/chain/abi_serializer.cpp:343-353 | a chain without an end leaves the type as it is |
| `AbiRoundTrip.RoundTrip` | libraries/chain/abi_serializer.cpp:402-466 | for every ABI, type, conforming value and decoder depth, decoding the encoding followed by anything gives the value and what follows if and only if the value is readable there and the depth is at least the depth it needs |
| `AbiRoundTrip.AllRoundTrip` | libraries/chain/abi_serializer.cpp:410-424 | the same for the items of an array |
| `AbiRoundTrip.FixedRoundTrip` | libraries/chain/abi_serializer.cpp:402-427 | the same for arrays of fixed length |
| `AbiRoundTrip.ArrayRoundTrip` | libraries/chain/abi_serializer.cpp:433-439 | the same for arrays with their length, of built-in and other types |
| `AbiRoundTrip.FieldsRoundTrip` | libraries/chain/abi_serializer.cpp:366-399 | the same for the fields of a struct, extensions included |
| `AbiRoundTrip.StructRoundTrip` | libraries/chain/abi_serializer.cpp:355-400 | the same for a struct with its bases |
| `AbiRoundTrip.OptionalRoundTrip` | libraries/chain/abi_serializer.cpp:440-446 | the same for optionals |
| `AbiRoundTrip.ChoiceRoundTrip` | libraries/chain/abi_serializer.cpp:447-459 | the same for variants |
| `AbiDepth.EncodeDeeper` | libraries/chain/abi_serializer.cpp:499-612 | more depth does not change a successful encoding |
| `AbiDepth.DecodeDeeper` | libraries/chain/abi_serializer.cpp:355-466 | more depth does not change a successful decoding |
| `AbiDepth.RestoredExactly` | libraries/chain/abi_serializer.cpp:402-466 | a readable value is restored from its encoding at the depth it needs, and at any smaller depth nothing is decoded |
| `AbiDepth.OneLimit` | libraries/chain/include/eosio/chain/abi_serializer.hpp:118-140 | with one limit for both directions, a readable value is restored if and only if the limit is at least the depth the decoder needs for it |
| `AbiMinimal.PrimRecoded` | libraries/libfc/include/fc/io/raw.hpp:215-253 | a built-in value read and packed again gives the bytes read if and only if its numbers of variable length were minimal, and never more bytes |
| `AbiCanonical.ValueRecoded` | libraries/chain/abi_serializer.cpp:355-466 | whenever decoding succeeds, at any depth, encoding the value again gives the bytes consumed if and only if they were canonical, and never more bytes |
| `AbiCanonical.FieldsRecoded` | libraries/chain/abi_serializer.cpp:366-399 | the same for the fields of a struct, extensions included |
| `AbiCanonical.StructRecoded` | libraries/chain/abi_serializer.cpp:355-400 | the same for a struct with its bases |
| `AbiCanonical.OptionalRecoded` | libraries/chain/abi_serializer.cpp:440-446 | the same for optionals: canonical is a flag of zero, or of one before a value that is not itself absent |
| `AbiCanonical.ChoiceRecoded` | libraries/chain/abi_serializer.cpp:447-459 | the same for variants |
| `AbiCanonical.EncodingIsCanonical` | libraries/chain/abi_serializer.cpp:499-612 | what the encoder writes for a readable value is canonical |
| `AbiCanonical.CanonicalIsUnique` | libraries/chain/abi_serializer.cpp:402-466 | two canonical inputs with the same result are the same bytes |
| `AbiMinimal.MinimalExactly` | libraries/libfc/include/fc/io/raw.hpp:225-253 | a number is minimal if and only if its last byte is no added zero and a fifth byte is below 16 |
| `AbiMinimal.LongZeroIsAccepted` | libraries/libfc/include/fc/io/raw.hpp:245-253 | zero in two bytes is read and is written in one |
| `AbiCanonical.OtherFlagIsAccepted` | libraries/chain/abi_serializer.cpp:440-446 | a presence flag of two before a struct is read and is written as one |
| `AbiProperties.EncodingIsInjective` | unittests/abi_tests.cpp:55-98 | readable values of a type that encode alike are equal |
| `AbiProperties.DecodeExtends` | libraries/chain/abi_serializer.cpp:402-466 | without extensions, more data after the input changes only what is left over |
| `AbiProperties.NoPrefixDecodes` | unittests/abi_tests.cpp:2717-2722 | without extensions no strict prefix of an encoding decodes, at any depth |
| `AbiProperties.WrittenIsPrefix` | libraries/chain/abi_serializer.cpp:565-587 | the fields written are a prefix of those declared; a field without the extension mark after one left out is refused |
| `AbiProperties.ShorterIsPrefix` | unittests/abi_tests.cpp:2777-2834 | giving a struct more of its extensions, with the same fields for its bases, only adds bytes at the end |
| `AbiProperties.RowAndObject` | libraries/chain/abi_serializer.cpp:564-606 | both results for any number of values: the array is refused unless the fields end there or an extension comes next, extra values are ignored; the object is refused unless what is missing may be left out, and has a zero for every missing optional field |
| `AbiProperties.RowMeansObject` | libraries/chain/abi_serializer.cpp:588-606 | for any number of values, the array encodes to what the object with those fields does if and only if the given fields cannot be written, or no field is missing, or next comes an extension and extensions may not be left out or nothing else is missing, or next comes a plain field without which there is no object |
| `AbiProperties.ShortRowIsAccepted` | libraries/chain/abi_serializer.cpp:588-606 | an array accepted where the object of the same field is refused |
| `AbiProperties.ShortRowIsRefused` | libraries/chain/abi_serializer.cpp:588-606 | an array refused where the object of the same field is accepted |
| `AbiProperties.AcceptedHasShape` | libraries/chain/abi_serializer.cpp:499-612 | what is encoded has the shape of its type: a list of just the fixed length, a value in range, a pair of a known tag and a value, an object, or a list for a struct without a base |
| `AbiProperties.BuiltInFlagIsChecked` | libraries/chain/abi_serializer.cpp:426-433 | before a built-in value a presence flag other than zero and one is refused |
| `AbiProperties.SolidIsReadable` | libraries/chain/abi_serializer.cpp:366-376 | where no fixed array is empty and every struct starts with a plain field, every conforming value is readable, at the end of the data too |
| `AbiProperties.EmptyFieldIsLost` | libraries/chain/abi_serializer.cpp:366-376 | a struct whose only field is an array of fixed length zero encodes to no bytes and is refused by the decoder |
| `AbiProperties.DepthDiffers` | libraries/chain/abi_serializer.cpp:355-358 | at depth two a one-field struct encodes but does not decode, at depth three it does |
| `AbiFormat.LittleEndianByte` | libraries/libfc/include/fc/io/datastream.hpp:252-255 | byte i of a fixed-width number is its digit i in base 256, lowest first |
| `AbiFormat.VarByte` | libraries/libfc/include/fc/io/raw.hpp:225-233 | byte i of a variable-length number is its digit i in base 128, marked unless it is the last |
| `AbiFormat.PrimLayout` | libraries/libfc/include/fc/io/raw.hpp:205-253 | every built-in type byte by byte: lowest digits in base 256 first, negative numbers modulo 256^k, digits in base 128 with the sign in the lowest bit, byte strings after their length |
| `AbiFormat.ReadVarShape` | libraries/libfc/include/fc/io/raw.hpp:235-253 | a number read from any bytes ends with the first unmarked byte, or with the fifth where that is the limit |
| `AbiFormat.ReadVarDigits` | libraries/libfc/include/fc/io/raw.hpp:235-253 | and its digits in base 128 are those bytes without their marks |
| `AbiFormat.TwoByteVectors` | unittests/abi_tests.cpp:3376-3376 | the two bytes of the tests' 16-bit numbers, of 258 and of -2 |
| `AbiFormat.BaseComesFirst` | libraries/chain/abi_serializer.cpp:559-583 | the fields of a base are written first, whatever the order in the object |
| `AbiFormat.CompoundVectors` | libraries/chain/abi_serializer.cpp:503-538 | length, items in order, flag and value of arrays and optionals |
| `AbiFormat.TestVector` | unittests/abi_tests.cpp:2722-2722 | the bytes of the second choice of a variant, a struct reached through a typedef: place, then fields in order |
| `ReflectionMatcher.DrainRest` | tools/validate_reflection.py:682-690 | the loop pays owed swaps and collects the fields nothing accounts for |
| `ReflectionMatcher.Match` | tools/validate_reflection.py:631-694 | the two loops, with every assertion in its place, give the verdict of the step function |
| `ReflectionProofs.AcceptedIsSound` | tools/validate_reflection.py:640-694 | for any lists, repeats included: an accepted class has exactly its reflected and ignored fields as multisets, no more swaps than fields, and every swapped name reflected |
| `ReflectionProofs.MatchIsExact` | tools/validate_reflection.py:640-694 | for distinct declared fields: accepted if and only if the lists describe the difference and no swap is needless; where only the latter fails, the in-order assertion is the one raised |
| `ReflectionProofs.RunAligned` | tools/validate_reflection.py:640-694 | what is kept of the two field lists is the same sequence in every accepted run |
| `ReflectionProofs.Completes` | tools/validate_reflection.py:640-694 | from lists that describe the difference, only the in-order assertion on a swap can stop the run |
| `ReflectionProofs.NeedlessSwapIsRefused` | tools/validate_reflection.py:650-650 | a swapped run of fields that meets its own place is refused |
| `ReflectionProofs.LoopComplaints` | tools/validate_reflection.py:640-676 | each complaint of the matching loop on a class that provokes it, for any names |
| `ReflectionProofs.FinalComplaints` | tools/validate_reflection.py:681-694 | each complaint once the class is exhausted, in their order |
| `ReflectionProofs.MovedBlock` | tools/validate_reflection.py:19-24 | when two neighbouring blocks are exchanged, listing either is accepted and listing both is refused |
| `ReflectionStore.Reflections.constructor` | tools/validate_reflection.py:391-395 | no reflections |
| `ReflectionStore.Reflections.FindOrAdd` | tools/validate_reflection.py:489-493 | an entry for the class, empty if it is new |
| `ReflectionStore.Reflections.AddField` | tools/validate_reflection.py:533-537 | refused if and only if the field repeats; the whole new store |
| `ReflectionStore.Reflections.AddEach` | tools/validate_reflection.py:499-501 | the fields of a macro are all added if and only if none repeats; no other class changes |
| `ReflectionStore.Reflections.AddFields` | tools/validate_reflection.py:495-508 | the exact result for any fields and base, the whole new store when it succeeds, and no other class changes |
| `ReflectionStore.Reflections.AddMacro` | tools/validate_reflection.py:474-483 | a macro with a base succeeds if and only if no field repeats and the base already has an entry; the base's fields are then not merged, and no other class changes |
| `ReflectionStore.MergeNeverSucceeds` | tools/validate_reflection.py:502-506 | a base without an entry always stops the script, the class itself included |
| `ReflectionStore.DerivedFromElsewhere` | tools/validate_reflection.py:502-503 | the macro of a class derived from one the file does not reflect stops the script |
| `ReflectionStore.DerivedFromItself` | tools/validate_reflection.py:502-506 | a class that names itself as its base repeats its own fields |
| `ReflectionStore.Reflections.AddIgnoreSwaps` | tools/validate_reflection.py:510-530 | names are added if and only if they are new to both lists; no other class changes |
| `ReflectionStore.StoredVerdict` | tools/validate_reflection.py:624-630 | with the implicit id, a gathered reflection passes if and only if its lists name what they should, the rest agrees in order and no swap is needless |
| `ScopeParser.HeuristicIsHarmless` | tools/validate_reflection.py:138-164 | the initializer heuristic never hides a brace: the next scope opens at the next brace, and where none is found the next brace closes |
| `ScopeParser.InitializerIsFound` | tools/validate_reflection.py:86-86 | a text that matches the initializer pattern is recognised, up to its semicolon |
| `ScopeParser.FoundIsInitializer` | tools/validate_reflection.py:86-86 | whatever is recognised matches the pattern |
| `ScopeParser.PossibleEndSkips` | tools/validate_reflection.py:138-149 | the bound of the scan is the next closing brace, or, where that lies in the first initializer, the next one from a character after it |
| `ScopeParser.PossibleEndPlain` | tools/validate_reflection.py:138-149 | without an initializer it is the next closing brace |
| `ScopeParser.Read` | tools/validate_reflection.py:110-164 | ends at the matching brace if and only if there is one; the children are exactly the scopes inside, in order, with no brace outside them; nothing inside a plain block is taken for a class; inside a named scope, at every depth, a child is a class if and only if the pattern asked where the scan resumed gives the child's brace |
| `ScopeParser.OnlyOneNesting` | tools/validate_reflection.py:317-360 | two well-nested readings from the same brace have the same scopes, so the class pattern only names them |
| `ScopeParser.ReadAll` | tools/validate_reflection.py:110-124 | on balanced text the scopes tile the whole text, and they and all inside them are classes if and only if the pattern finds them there |
| `NameResolution.FindIsMeaning` | tools/validate_reflection.py:166-198 | a search that ends gives the child, else what the aliases lead to, else the base's child |
| `NameResolution.SplitExactly` | tools/validate_reflection.py:168-173 | a name is cut at its first separator, and not at all if and only if it has none |
| `NameResolution.PartsAreFollowed` | tools/validate_reflection.py:168-175 | a name of any number of plain parts finds the scope reached by following children |
| `NameResolution.PlainNameExactly` | tools/validate_reflection.py:185-198 | a plain name is a child, else an alias, else a child of the base, in this order |
| `NameResolution.MeaningIsFound` | tools/validate_reflection.py:166-198 | where the name stands for something, some depth of calls finds it |
| `NameResolution.SearchEndsExactly` | tools/validate_reflection.py:189-192 | the search ends if and only if no chain of aliases on its way comes back to itself |
| `NameResolution.AcyclicEnds` | tools/validate_reflection.py:166-198 | where no scope has aliases in a circle every search ends |
| `NameResolution.QualifiedSkipsBase` | tools/validate_reflection.py:176-178 | a qualified name is never found through a base class |
| `NameResolution.NestedInBaseIsMissed` | tools/validate_reflection.py:176-178 | a nested class that the base finds and the derived class does not |

## Left out

- Transition from a legacy chain, and the safety information set at the transition block: the model starts at a Savanna genesis.
- Fork database, block log, controller, replay, networking, transactions and WASM execution.
- Proposer policies: their promotion is a simpler form of the finalizer pipeline.
- BLS, SHA-256 and elliptic-curve arithmetic, finality digests and Merkle proofs of finality: idealised as above.
- Withheld votes, deadlines, vote threads and locks: honest finalizers may vote in any order and at any time, one vote at a time.
- Safety files on disk: the stored fields are kept in memory only. A finalizer that loses them and votes again before evidence of its latest vote, a strong one newer than the default lock, has reached it counts as faulty.
- Merkle.IncrementalMerkleTree.Append: the 64-bit mask is a natural number, with a precondition that it is not all ones.
- ABI type strings, JSON text, out-of-range numbers, public keys and signatures, array-size and buffer limits.
- Regular expressions of the reflection script, comment stripping, file walking and output.
- ScopeParser.Read: scopes are values returned by the reader, not objects linked to their parents.
- Permission, token, resource and table code: separate subsystems with simpler rules.
