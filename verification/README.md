# Kakure, verified

A Dafny model of the four cores of the Kakure shielded pool, with proofs of what they promise each other.

* **The commitment tree**, written three times: the pool program's 32-node frontier insert, the indexer's tree and
  the SDK's tree, which both keep every level. `LeanImt` says what the tree is (pair adjacent nodes level by level, an
  odd last node passes up). `PoolAccount` (with the 256-slot root ring) and `FullTrees` are the three implementations,
  each proved against it. `InclusionProof` is the circuit's fold over a sibling path and proves that it accepts exactly
  the leaves of the tree, each at its own index. `Lockstep` drives all three trees side by side.
* **The pool program.** `Processor.Ledger` has the accounts as fields and a method for each handler, with the runtime's
  rollback in `Submit`. `PoolSpec` is the same machine as a function from states and transactions to states and events.
  `Acceptance` is a second account of it, as a table of checks in order and of effects, proved equal to the first;
  `PoolRules` reads off exactly when each transaction is accepted and who may change the settings.
  `Circuits` says what acceptance by an honest verifier means. `UnspentValue`, `Solvency`, `SolventRuns`, `SpendOnce`,
  `EventLog`, `TreeGrowth` and `Genesis` prove solvency, single spending and the meaning of the event log over every run;
  `Scenarios` and `SecondLap` are concrete pools.
* **Threshold signing** (RFC 9591). `Modular` (extended Euclid), `Lagrange` (interpolation), `Ciphersuites` (the group
  and its laws), `Frost`, `GroupSums`, `ThresholdSigning`, `SigningOrder`, `SigningRaces`, `PublicShares` and
  `Proposal` go from the inverse of a scalar to the validity of the signature that `execute` submits.
* **The two off-chain protocols.** `MessageStore`, `CoordinatorServer`, `CoordinatorClient` and `CoordinatorProtocol` are
  the coordinator's ordered log with racing writers, long-poll readers and sweeps. `LogScope`, `Borsh`, `EventDecoder`,
  `EventBytes`, `IndexerRing`, `Ingest`, `IngestRows`, `Mirroring`, `KeyHistory` and `Truncation` take a transaction's log
  lines back to the pool's own tree, and say what stops the indexer. `JsBits` and
  `Base64` are the JavaScript bit arithmetic underneath, and the proof bundle's hand-written base64.

## How to read the hypotheses

* `NeverZero` (no node hashes to 0) is all that the three trees need. `CollisionFree` (hashes injective, leaves and
  nodes in separate domains) is the ideal form of collision resistance that path soundness and solvency need;
  `Hashing.CollisionFreeHashesExist` shows it can be met. `Ciphersuites.LawfulSuiteExists` does the same for the group.
* `Trusted` transactions install verifier programs that accept only what their circuit allows, and a genesis leaf that
  is no tree node and commits to `premine`, if to any note. The program checks neither; only accepted transactions need
  be trusted. `EveryRunIsCovered` and `EveryRunAddsUp` account for any premine, and
  `Genesis.GenesisValueIsUnbacked` draws the conclusion: without donations, a pool started on a note is backed if and
  only if that note is worth nothing or its asset is not registered.
* `Donate` is a token transfer into a vault that bypasses the program. With donations a vault holds at least, and
  without them exactly, the value of the unspent notes.
* `Carried` events fit their 32-byte words, with leaf and root below the field's order, as anything the Poseidon
  syscall has accepted does. `Printed` activities are what the runtime prints.

## What the model found

* **Signatures from a partial answer.** `coordinatorAggregate` checks each share but not that every commitment was
  answered, and the group commitment sums over all of them. When a nonce was posted whose share never came, every check
  passes and the result verifies if and only if the unanswered contributions sum to the identity
  (`ThresholdSigning.AggregateVerifiesIff`, `Proposal.ProposalVerifiesIff`). `ThresholdSigning.PartialAnswerFails` is
  an input, in a group of any prime order, where it does not.
* **The indexer's ring of roots.** `pushRoot` is documented to evict the oldest entry. The slot is the highest cursor
  plus one, so after one lap only slot 0 moves. The table is the on-chain ring if and only if the roots the two hold in
  each slot are equal (`Mirroring.TheRingAgreesIff`); under ideal hashing that means at most 257 leaves
  (`Mirroring.TheRingLastsOneLap`). `SecondLap.SecondLapFails` has failing runs of every size beyond, over the real field.
* **Zero as a known root.** `is_known_root` finds zero until every slot is written (`PoolAccount.ZeroKnownIffNotFull`).
  The handlers do not use it; they read a slot and refuse zero.
* **Readers after a sweep.** A reader that has received something before its session is swept can wait over entries it
  never saw, and only such a reader can (`CoordinatorProtocol.MissesIffSwept`).
* **Honest shares over a longer list.** A signer signs over the nonces it has read, and the aggregation checks over those
  posted by then. A nonce posted in between makes an honest share fail unless both lists contribute the same
  (`SigningRaces.ShareAcrossLists`, `SigningRaces.LateNonceBlamesSigner`).
* **Colliding asset ids.** A withdrawal that passes every check fails for lack of tokens exactly if another mint has
  registered its asset id (`SolventRuns.WithdrawalFailsIff`, `Scenarios.CollidingMintIsShort`).
* **An unhashable genesis leaf.** Initialization accepts a genesis leaf that is no field element, since the first leaf is
  not hashed; then every later insert fails (`TreeGrowth.CanonicalInsertsSucceedIff`).
* **Conflicts with an empty session.** The client's comment says a 409 means that the session is not empty. It can meet
  an empty one if and only if the number is not 0 and was learned before the last sweep
  (`CoordinatorProtocol.EmptyConflictIffStale`); the re-read then waits out its long poll.
* **Masked data lines.** The pattern for end lines also matches a data line whose text begins with `success` or
  `failed`, and drops it. Attribution is exact if and only if no own line begins so (`LogScope.AttributionIsExact`,
  `LogScope.MaskedLineIsLost`). The pool's own lines never do (`EventDecoder.LineReadsBack`).
* **Decoding.** The decoder inverts the encoder on every readable type and accepts nothing else, up to the spelling of
  booleans, where any nonzero byte is `true` (`Borsh.ParsedWasEncoded`). It tells values apart if and only if no option
  stands directly under an option (`Borsh.DistinguishesIff`). No event of the pool uses either.

## Model

| member | source | states |
|---|---|---|
| LeanImt.CompletedNodesStay | programs/kakure_pool/src/merkle.rs:40-51 | appending a leaf changes no completed node of any level, which is what lets a frontier forget them |
| PoolAccount.Pool.Insert | programs/kakure_pool/src/merkle.rs:16-56 | the early-stopping frontier insert returns the index and the root of the recursively defined tree over all leaves so far and keeps frontier and ring true to them; a zero leaf, a full tree and an input the hash refuses are errors that leave the tree as it was |
| PoolAccount.HashStep | programs/kakure_pool/src/merkle.rs:46-49 | at an odd index the stored side node is the climbing node's left neighbour, and stays the right one to store |
| PoolAccount.StoreStep | programs/kakure_pool/src/merkle.rs:40-45 | at an even index the climbing node is exactly what the frontier must hold at that level afterwards |
| PoolAccount.ClimbEnds | programs/kakure_pool/src/merkle.rs:37-53 | when the climb stops, early at index 0 or at the top, its node is the root and the frontier is complete |
| TreeGrowth.HashableIff | programs/kakure_pool/src/merkle.rs:16-56 | the first leaf is not hashed at all; a later insert is refused exactly if its leaf is no field element or is hashed with a left neighbour that is none |
| TreeGrowth.CanonicalInsertsSucceedIff | programs/kakure_pool/src/merkle.rs:16-56 | in any state of any run every nonzero field element can be inserted, up to capacity, if and only if the genesis leaf is a field element |
| PoolAccount.Pool.PushRoot | programs/kakure_pool/src/state.rs:132-136 | pushing the new tree's root keeps every slot the latest root pushed into it |
| PoolAccount.PushMovesOneSlot | programs/kakure_pool/src/state.rs:132-136 | one push changes the latest push of exactly one slot |
| PoolAccount.SlotsHoldTheWindow | programs/kakure_pool/src/processor.rs:406-412 | a nonzero slot holds the root the tree really had after one of its last 256 inserts |
| PoolAccount.KnownIffInWindow | programs/kakure_pool/src/state.rs:139-146 | a nonzero root is in the ring if and only if it is the root after one of the last 256 inserts |
| PoolAccount.Pool.IsKnownRoot | programs/kakure_pool/src/state.rs:139-146 | the scan answers whether some slot holds the value, zero included |
| PoolAccount.ZeroKnownIffNotFull | programs/kakure_pool/src/state.rs:139-146 | zero counts as known if and only if fewer than 256 roots were pushed |
| PoolAccount.ZeroIsKnownAtFirst | programs/kakure_pool/src/state.rs:139-146 | on a freshly allocated account zero does count as known |
| FullTrees.ZeroTestIsParityTest | packages/indexer/src/tree/leanImt.ts:54-80 | for a hash that is never zero, passing through by comparison with zero is passing through by index parity |
| FullTrees.IndexerTree.Insert | packages/indexer/src/tree/leanImt.ts:38-81 | every level equals the specified one after every insert, so the root is the same tree's; zero leaf and full tree are refused with nothing changed |
| FullTrees.IndexerTree.GetPath | packages/indexer/src/tree/leanImt.ts:84-96 | the siblings of the leaf at every level, zero beyond the frontier, or out of bounds |
| FullTrees.SdkTree.Insert | packages/sdk/src/merkle/LeanIMT.ts:22-86 | the same refinement for the layout that keeps the root apart from the levels |
| FullTrees.SdkTree.GetMerklePath | packages/sdk/src/merkle/LeanIMT.ts:92-115 | the same sibling path from that layout; an index too large is refused, and a negative one gives a path of undefined entries |
| Lockstep.Drive | programs/kakure_pool/src/merkle.rs:100-148 | what the known-answer test checks for eight leaves, for any sequence of leaves, refused ones included: all three trees report the same root, that of the specified tree, after every one (the clients are not offered what the chain's hash refuses) |
| InclusionProof.PathFoldsToRoot | packages/indexer/src/tree/leanImt.ts:84-96 | after any number of inserts, folding the returned path from any stored leaf gives the current root |
| InclusionProof.FoldSound | circuits/shared/src/lib.nr:27-48 | from any level up, a fold that reaches the tree's root started at a node of that level at that index |
| InclusionProof.AcceptsExactlyTheLeaves | circuits/shared/src/lib.nr:27-48 | a leaf, index and path fold to the root if and only if the index is below the leaf count, the leaf is the one stored there and the path is its sibling path |
| InclusionProof.RootsNeverRepeat | circuits/shared/src/lib.nr:27-48 | under ideal hashing the tree never returns to an earlier root |
| Hashing.CollisionFreeHashesExist | packages/indexer/src/tree/poseidonV1.ts:36-39 | the ideal hash assumption has a model |
| UnspentValue.SpendHitsItsLeaf | circuits/shared/src/spend.nr:9-20 | a spend accepted under any root still in the ring opens the very leaf stored at its index |
| UnspentValue.OneNullifierPerLeaf | packages/sdk/src/note/nullifier.ts:10-13 | among accepted spends, equal nullifiers and equal leaf indices are the same thing |
| UnspentValue.AppendNote | circuits/shared/src/common/note_nullifier.nr:9-12 | appending a note adds exactly its value to its asset's unspent value: its nullifier cannot already be recorded |
| UnspentValue.RecordNullifier | circuits/shared/src/common/note_nullifier.nr:9-12 | recording a leaf's nullifier removes exactly that leaf's value |
| Processor.Ledger.InsertNote | programs/kakure_pool/src/processor.rs:456-467 | the insert and its event, with the index and the root the tree then has |
| Processor.Ledger.RecordNullifier | programs/kakure_pool/src/processor.rs:423-454 | a recorded nullifier is refused, a new one is recorded and logged |
| Processor.Ledger.ReadRoot | programs/kakure_pool/src/processor.rs:406-412 | the slot's root, or stale when it was never written |
| Processor.Ledger.HandleInitialize | programs/kakure_pool/src/processor.rs:117-185 | refines the specification of initialization, genesis event included |
| Processor.Ledger.HandleRotate | programs/kakure_pool/src/processor.rs:258-271 | refines key rotation, with the version's overflow |
| Processor.Ledger.HandleSetVerifier | programs/kakure_pool/src/processor.rs:247-256 | refines the verifier update, for any circuit id: 7 and above are refused |
| Processor.Ledger.HandleSetPaused | programs/kakure_pool/src/processor.rs:273-281 | refines pausing |
| Processor.Ledger.HandleDeposit | programs/kakure_pool/src/processor.rs:481-662 | refines deposit: counts, amount and asset checks, insert, verifier, registry, transfer in |
| Processor.Ledger.HandleTransfer | programs/kakure_pool/src/processor.rs:672-735 | refines both transfers: two inserts, one nullifier, verifier (what that accepts: `PoolRules.TransferAcceptedIff`) |
| Processor.Ledger.HandleSplit | programs/kakure_pool/src/processor.rs:745-798 | refines the split |
| Processor.Ledger.HandleJoin | programs/kakure_pool/src/processor.rs:808-861 | refines the join: one insert, two nullifiers |
| Processor.Ledger.HandleWithdraw | programs/kakure_pool/src/processor.rs:871-1002 | refines both withdrawals, the transfer out included (who is paid, and when: `PoolRules.WithdrawAcceptedIff`) |
| Processor.Ledger.Submit | programs/kakure_pool/src/processor.rs:548-556 | effects run before the verifier call, yet a failed transaction leaves tree, ring, nullifiers, registry and vaults as they were and logs nothing |
| Acceptance.Decided | programs/kakure_pool/src/processor.rs:74-1002 | for every transaction in every state: it is refused with the error of the first check of its table that fails, and if all hold it has exactly the listed effects on leaves, nullifiers, settings, registry and vaults and logs exactly the listed events |
| Acceptance.FailuresConcatenate | programs/kakure_pool/src/processor.rs:74-1002 | checks made one group after the other fail with the earlier group's error if it has one |
| PoolRules.DepositAcceptedIff | programs/kakure_pool/src/processor.rs:481-662 | a deposit is accepted if and only if the pool runs, the proof names the amount and the mint's asset id, the leaf can be inserted, the registered verifier accepts the inputs behind the pool's own key, the id belongs to no other mint and the depositor has the tokens |
| PoolRules.TransferAcceptedIff | programs/kakure_pool/src/processor.rs:672-735 | a transfer is accepted if and only if the pool runs, the slot named is live, its two leaves can be inserted one after the other, its nullifier is new and the registered verifier accepts the inputs with the pool's own key and root spliced in |
| PoolRules.SplitAcceptedIff | programs/kakure_pool/src/processor.rs:745-798 | the same for a split, with its own positions |
| PoolRules.JoinAcceptedIff | programs/kakure_pool/src/processor.rs:808-861 | a join is accepted if and only if, besides, both nullifiers are new and differ |
| PoolRules.WithdrawAcceptedIff | programs/kakure_pool/src/processor.rs:871-1002 | a withdrawal is accepted if and only if the proof names this amount, this recipient, no intent and this mint's asset, the pool runs, the slot is live, the change leaf can be inserted, the nullifier is new, the registered verifier accepts and the vault holds the amount |
| PoolRules.PausedPoolRefuses | programs/kakure_pool/src/processor.rs:481-1002 | a paused pool refuses every deposit, transfer, split, join and withdrawal, and stays as it is |
| PoolRules.SettingsAcceptedIff | programs/kakure_pool/src/processor.rs:239-282 | a pool is initialized once; verifiers, key and pause are changed if and only if the authority signs, within the circuit ids and the version's range |
| PoolRules.OnlyTheAuthority | programs/kakure_pool/src/processor.rs:239-282 | an initialized pool's settings change only by a transaction its authority signed, and the authority never changes |
| PoolRules.OthersChangeNothing | programs/kakure_pool/src/processor.rs:239-282 | over any run, whatever others submit, the settings stay what they are |
| Solvency.DepositDone | programs/kakure_pool/src/processor.rs:481-662 | a deposit that succeeded inserted a note of exactly the deposited value and asset and moved exactly that many tokens in |
| Solvency.TransferDone | programs/kakure_pool/src/processor.rs:672-735 | a transfer that succeeded spent one note under a root in the ring and inserted two of the same asset and total |
| Solvency.SplitDone | programs/kakure_pool/src/processor.rs:745-798 | likewise for a split |
| Solvency.JoinDone | programs/kakure_pool/src/processor.rs:808-861 | a join spent two notes with different nullifiers into one of their total |
| Solvency.WithdrawAccepted | programs/kakure_pool/src/processor.rs:871-1002 | a withdrawal past its checks spent a note of the paid asset worth the change plus the paid amount |
| Solvency.OneInTwoOutEffect | circuits/shared/src/common/conservation.nr:1-15 | one spend and two outputs leave every asset's unspent value unchanged |
| Solvency.TwoInOneOutEffect | circuits/multisig/join_multisig/src/main.nr:32-42 | two spends and one output leave every asset's unspent value unchanged |
| Solvency.PaidOutEffect | circuits/standard/withdraw/src/main.nr:34-38 | a withdrawal lowers its asset's unspent value by exactly the amount and no other asset's |
| Solvency.PaidInEffect | circuits/standard/deposit/src/main.nr:8-30 | a deposit raises its asset's unspent value by exactly the amount |
| SolventRuns.OkStepKeeps | programs/kakure_pool/src/processor.rs:74-116 | every instruction keeps the invariant, the cover of every asset and, unless it is a donation, the exact sum |
| SolventRuns.EveryRunIsCovered | programs/kakure_pool/src/processor.rs:481-1002 | in every reachable state each asset's unspent value is at most what its vault holds plus what the genesis leaf brought in |
| SolventRuns.EveryRunAddsUp | programs/kakure_pool/src/processor.rs:481-1002 | without donations it is exactly that, for every asset, and every vault of an unregistered mint is empty |
| SolventRuns.EveryRunIsBacked | programs/kakure_pool/src/processor.rs:481-1002 | if the genesis leaf is no note, in every reachable state each registered vault holds at least the value of its asset's unspent notes |
| SolventRuns.EveryRunIsExact | programs/kakure_pool/src/processor.rs:481-1002 | and without donations exactly that value, for every mint, whether or not asset ids collide |
| SolventRuns.AcceptedWithdrawalIsPaid | programs/kakure_pool/src/processor.rs:871-1002 | after any run, donations included, no withdrawal fails for lack of tokens unless another mint has registered the same asset id |
| SolventRuns.WithdrawalFailsIff | programs/kakure_pool/src/processor.rs:871-1002 | without donations a withdrawal fails for lack of tokens if and only if it passes every check, asks for a positive amount, and its asset id is registered to another mint |
| Scenarios.CollidingMintIsShort | programs/kakure_pool/src/processor.rs:871-1002 | a trusted run with honest verifiers and two mints of one asset id after which a fully checked withdrawal does fail |
| SolventRuns.TokensAreConserved | programs/kakure_pool/src/processor.rs:481-1002 | over any run a vault holds what was paid in minus what was paid out, so never more goes out than came in |
| Genesis.GenesisValueIsUnbacked | programs/kakure_pool/src/processor.rs:166-182 | over every trusted run without donations from a genesis note, each asset owes what its vault holds plus the note, so the pool is backed if and only if the note is worth nothing or its asset is unregistered |
| Scenarios.PreminedPoolIsNotBacked | programs/kakure_pool/src/processor.rs:166-182 | for any ideal hash and any genesis note worth something, a trusted run without donations that is not backed |
| SpendOnce.AcceptedStepRecords | programs/kakure_pool/src/processor.rs:423-454 | an accepted step, of any kind, records exactly the nullifiers it claims, all new and pairwise different |
| SpendOnce.EqualNullifiersAreRejected | programs/kakure_pool/src/processor.rs:855-856 | a join with two equal nullifiers changes nothing |
| SpendOnce.RecordedForever | programs/kakure_pool/src/processor.rs:423-454 | once accepted, a nullifier stays recorded in every later state of the run |
| SpendOnce.NoNullifierTwice | programs/kakure_pool/src/processor.rs:423-454 | no two accepted transactions of a run, whatever their handlers, share a nullifier |
| EventLog.LogsCompose | programs/kakure_pool/src/processor.rs:456-467 | the logs of consecutive steps concatenate to the log of the whole |
| EventLog.OkStepLogs | programs/kakure_pool/src/processor.rs:456-467 | the events of any accepted transaction account for exactly its new leaves and nullifiers |
| EventLog.TheLogTellsTheState | programs/kakure_pool/src/processor.rs:182-182 | over any run the note events carry indices 0, 1, 2, ... with the root of that prefix of leaves, and the nullifier events name every recorded nullifier exactly once |
| Modular.Mod | packages/sdk/src/frost/frost.ts:33-35 | JavaScript's truncating remainder, taken twice, is the residue in [0, m) |
| Modular.ModInverse | packages/sdk/src/frost/frost.ts:37-47 | extended Euclid terminates with the inverse in [0, m), and throws exactly when there is none |
| Modular.InvertibleIffCoprime | packages/sdk/src/frost/frost.ts:45-46 | an inverse exists if and only if the greatest common divisor is 1 |
| Lagrange.LagrangeCoefficient | packages/sdk/src/frost/frost.ts:99-113 | the reduced loop computes numerator product times inverse denominator product, or throws when that has no inverse |
| Lagrange.Interpolates | packages/sdk/src/frost/frost.ts:99-113 | for ids distinct modulo a prime and any polynomial with at most as many coefficients, the weighted sum of its values is its constant term (section 4.2 of RFC 9591) |
| Ciphersuites.LawfulSuiteExists | packages/sdk/src/frost/frost.ts:84-97 | for every prime the assumed group laws have a model of that order, so signer sets of every size are instantiated |
| Frost.BindingFactors | packages/sdk/src/frost/frost.ts:70-82 | the loop computes the specified factors (what they bind: `SigningOrder.FactorsBindTheList`) |
| SigningOrder.FactorsBindTheList | packages/sdk/src/frost/frost.ts:70-82 | the signers with a factor are exactly those who committed, and each factor is taken over the whole list in ascending order of ids, in whatever order it arrived (section 4.4 of RFC 9591) |
| SigningOrder.SignsIff | packages/sdk/src/frost/frost.ts:116-140 | a share is made if and only if the signer committed and its coefficient exists; otherwise the error says which |
| Frost.RhosCover | packages/sdk/src/frost/frost.ts:70-82 | every commitment has a factor, so the group commitment never throws on one's own list |
| Frost.GroupCommitment | packages/sdk/src/frost/frost.ts:84-97 | the sum of D + rho E over the list, or an error exactly when a factor is missing (section 4.5 of RFC 9591) |
| Frost.SignShareUnchecked | packages/sdk/src/frost/frost.ts:116-140 | the signer's response, or an error when it has no coefficient or is not in the list |
| Frost.VerifySignatureShare | packages/sdk/src/frost/frost.ts:155-177 | decides the share equation of section 5.4 of RFC 9591 |
| Frost.Aggregate | packages/sdk/src/frost/frost.ts:180-189 | the given R with the reduced sum of the shares |
| Frost.CoordinatorAggregate | packages/sdk/src/frost/frost.ts:191-233 | succeeds if and only if the ids are distinct, reach the threshold and every share verifies; a rejection names a share that failed |
| ThresholdSigning.HonestResponse | packages/sdk/src/frost/frost.ts:134-139 | an honest response satisfies the share equation despite the intermediate reductions |
| ThresholdSigning.HonestShareChecks | packages/sdk/src/frost/frost.ts:155-177 | an honest signer's share passes the coordinator's check over the list it was made for |
| ThresholdSigning.HonestSigningVerifies | packages/sdk/src/frost/frost.ts:116-140 | for any polynomial, any sufficient set of distinct ids and any nonces, all honest shares are produced, pass the coordinator's check, and aggregate to a signature valid under f(0) times the generator |
| ThresholdSigning.AggregateVerifiesIff | packages/sdk/src/frost/frost.ts:191-233 | whatever the share values, once all pass their checks the signature is valid if and only if the contributions of the unanswered commitments sum to the identity |
| ThresholdSigning.PartialAnswerFails | packages/sdk/src/frost/frost.ts:191-233 | in a group of any prime order, two commitments and one honest, checked share give a signature that is not valid |
| ThresholdSigning.FullAggregateVerifies | packages/sdk/src/frost/frost.ts:191-233 | when every commitment is answered, checked shares always give a valid signature |
| SigningOrder.OrderDoesNotMatter | packages/sdk/src/frost/frost.ts:49-53 | holders of the same commitments in different orders derive the same factors and group commitment, sign alike and judge every share alike |
| SigningRaces.ShareAcrossLists | packages/cli/src/proposal/proposal.ts:134-150 | an honest share made over one list passes the check over another if and only if both lists contribute the same rho e + c lambda secret in the exponent |
| SigningRaces.LateNonceBlamesSigner | packages/cli/src/proposal/proposal.ts:211-229 | in a group of any prime order, a nonce posted after an honest signer signed makes its share fail |
| PublicShares.PublicShareAt | packages/cli/src/dkg/publicShare.ts:11-19 | the loop with reduced powers gives f(i) times the generator |
| PublicShares.AggregatePublicShareAt | packages/cli/src/dkg/publicShare.ts:22-26 | over all dealers, the summed polynomial's value at i times the generator |
| PublicShares.EvalAddPoly | packages/cli/src/dkg/publicShare.ts:22-26 | the sum of the dealers' polynomials evaluates to the sum of their values |
| PublicShares.CheckHonestSigner | packages/cli/src/dkg/publicShare.ts:22-26 | checking an honest signer's share against the public share derived from the dealers' commitments always succeeds |
| Proposal.DecodeUnique | packages/cli/src/proposal/proposal.ts:165-184 | the fold of the matching messages by signer id |
| Proposal.LatestOfEachSigner | packages/cli/src/proposal/proposal.ts:165-184 | that fold keeps exactly one entry for each id, its latest message |
| Proposal.CollectsLatest | packages/cli/src/proposal/proposal.ts:165-184 | collected are exactly the messages carried by each id's last envelope of that kind and proposal; other kinds, other proposals and unreadable envelopes play no part |
| Proposal.FirstFaultIs | packages/cli/src/proposal/proposal.ts:225-229 | the error is that of the first share that cannot be used |
| Proposal.AggregateProposal | packages/cli/src/proposal/proposal.ts:204-240 | text that is no number and a missing public share stop it, the first faulty entry deciding the error; otherwise it succeeds if and only if all shares are accepted, returning the group commitment with the sum of the shares, and else reports a duplicate, the threshold or the first share that fails |
| Proposal.ProposalVerifiesIff | packages/cli/src/proposal/proposal.ts:231-239 | that signature is valid if and only if the commitments without a share cancel out; always, when every posted nonce has a share |
| Proposal.HonestProposalVerifies | packages/cli/src/proposal/proposal.ts:117-240 | honest signers' nonces and shares, in whatever order they arrive, are accepted once the threshold is met, and the signature is valid when all who committed have answered |
| MessageStore.Store.Append | packages/coordinator/src/db/store.ts:33-50 | accepts exactly the next sequence number and adds that one row with its time; a conflict changes nothing |
| MessageStore.Store.NextSeq | packages/coordinator/src/db/store.ts:52-57 | the number of the session's messages |
| MessageStore.Store.Since | packages/coordinator/src/db/store.ts:60-78 | for any cursor, the suffix of the session's log after it |
| MessageStore.Store.SweepExpired | packages/coordinator/src/db/store.ts:95-105 | deletes exactly the sessions whose every row is more than 24 hours old, keeps the rows of every other and every session numbered from 0, and counts the rows deleted |
| MessageStore.AllOlderMeansEach | packages/coordinator/src/db/store.ts:95-105 | comparing the latest row's time with the cutoff is comparing every row's: one younger message keeps the session |
| MessageStore.SelectDrops | packages/coordinator/src/db/store.ts:60-78 | selecting and ordering a numbered session is dropping a prefix of it |
| MessageStore.KeepSession | packages/coordinator/src/db/store.ts:95-105 | a sweep empties a session or leaves it as it was |
| CoordinatorClient.Client.AppendNext | packages/cli/src/coordinatorClient.ts:62-85 | with other clients writing and sweeps happening at every request, success means the message stands in the slot it returned; giving up without a sweep costs that many appends of others; the numbers posted start from the guess, one read between any two, and giving up means exactly that many attempts |
| CoordinatorClient.Client.CollectUntil | packages/cli/src/coordinatorClient.ts:92-112 | the collections it asked the predicate about, one after each poll: it returns the first that satisfies it, and gives up only after one was refused in every round; unless the session was swept each is a gapless prefix of the log after the starting cursor, holds all that was there at the call and extends the one before |
| CoordinatorClient.Client.TakeIn | packages/cli/src/coordinatorClient.ts:101-105 | taking in a batch keeps what was seen exactly the log up to the cursor |
| CoordinatorProtocol.StepKeepsInv | packages/coordinator/src/api/server.ts:71-137 | every step of server, writers, readers, timeouts and sweeps keeps the protocol's invariant |
| CoordinatorProtocol.AlwaysInv | packages/coordinator/src/api/server.ts:71-137 | so it holds in every state of every interleaving |
| CoordinatorProtocol.EveryAckOwnsItsSlot | packages/cli/src/coordinatorClient.ts:62-85 | in every interleaving, no two appends acknowledged between the same sweeps were given one slot, and one acknowledged since the last sweep stands in its slot |
| CoordinatorProtocol.ConflictMeansSomebodyElseAppended | packages/cli/src/coordinatorClient.ts:66-82 | unless a sweep came since its number was learned, a conflict means another append committed since |
| CoordinatorProtocol.EmptyConflictIffStale | packages/cli/src/coordinatorClient.ts:76-82 | an append can be refused by an empty session if and only if its number is not 0 and was learned before the last sweep |
| CoordinatorProtocol.EmptyConflictWaits | packages/cli/src/coordinatorClient.ts:76-82 | the poll after such a conflict does not return at once but is held open |
| CoordinatorProtocol.GivingUpTakesNineteenRivals | packages/cli/src/coordinatorClient.ts:66-76 | a writer that gives up after 20 attempts lost to at least 19 appends of others |
| CoordinatorProtocol.ReadersLoseNothing | packages/cli/src/coordinatorClient.ts:92-112 | in every interleaving without a sweep, a reader from -1 holds exactly the log up to its cursor, no gap and no repeat |
| CoordinatorProtocol.MissesIffSwept | packages/coordinator/src/db/store.ts:80-105 | a reader can be held open over an entry at or below its cursor that it never saw if and only if it has received something and the session was swept since it started |
| CoordinatorServer.PostMessage | packages/coordinator/src/api/server.ts:71-95 | the handler's 400, 409 or 201, with the table changed exactly as the protocol's post step says |
| CoordinatorServer.ReadMessages | packages/coordinator/src/api/server.ts:97-116 | answers at once or holds the request open, as the protocol's poll step says |
| CoordinatorServer.Sweep | packages/coordinator/src/db/store.ts:95-105 | is the protocol's sweep for a session whose every message has expired, and leaves any other alone |
| LogScope.ProgramDataLinesFor | packages/indexer/src/events/logScope.ts:15-35 | the stack walk over the lines' text computes the scan of the log |
| LogScope.InvokesIff | packages/indexer/src/events/logScope.ts:12-12 | a line opens a program if and only if it reads Program, the id, invoke and a number in brackets, and nothing else |
| LogScope.EndsIff | packages/indexer/src/events/logScope.ts:13-13 | a line ends a program if and only if it begins with Program, the id and success or failed |
| LogScope.DataIsRecognized | packages/indexer/src/events/logScope.ts:12-13 | no data line opens a program, and it reads as an end line exactly if its text begins with success or failed |
| LogScope.EndPops | packages/indexer/src/events/logScope.ts:24-29 | an end line removes its own frame even when the same program also runs further down |
| LogScope.ScanOfActivity | packages/indexer/src/events/logScope.ts:15-35 | scanning an activity's lines in any context keeps exactly the unmasked data lines its programs emitted as the given one |
| LogScope.AttributionIsExact | packages/indexer/src/events/logScope.ts:15-35 | for any forest of nested calls, re-entrant ones included, the program's own data lines come back in order, all of them if and only if none begins like an outcome |
| LogScope.MaskedLineIsLost | packages/indexer/src/events/logScope.ts:24-29 | a data line whose text begins with failed is dropped |
| JsBits.ShiftIn | packages/helper/src/wire.ts:48-48 | shifting a signed 32-bit word and or-ing bits into the gap is multiplying and adding, up to wrap-around |
| JsBits.PickByte | packages/helper/src/wire.ts:52-52 | the byte picked out of a wrapped accumulator is that of the unwrapped number |
| Borsh.Reader.Take | packages/indexer/src/events/decode.ts:34-41 | the next n bytes, or an error with the reader unmoved |
| Borsh.Reader.U64 | packages/indexer/src/events/decode.ts:56-63 | the loop from the top byte down reads the little-endian number |
| Borsh.U32IsU64 | packages/indexer/src/events/decode.ts:47-54 | signed shifts and ors read back as unsigned are the little-endian number, on the full 32-bit range |
| Borsh.Reader.DecodeValue | packages/indexer/src/events/decode.ts:74-99 | the recursive reader computes the specified parse, errors included |
| Borsh.Reader.DecodeArray | packages/indexer/src/events/decode.ts:81-87 | likewise for arrays, byte arrays taken whole |
| Borsh.RoundTrip | packages/indexer/src/events/decode.ts:74-99 | for every type and every value of it, decoding its bytes with anything behind them gives the value and leaves the reader at the tail |
| Borsh.ParsedWasEncoded | packages/indexer/src/events/decode.ts:74-99 | conversely, whatever decodes is some value of the type, read from as many bytes as its encoding has, and those bytes are its encoding if and only if every boolean in them is 0 or 1 |
| Borsh.BooleansAreLenient | packages/indexer/src/events/decode.ts:79-79 | a boolean byte is an encoding exactly when it is 0 or 1, though every byte decodes |
| Borsh.NestedOptionsCollapse | packages/indexer/src/events/decode.ts:88-92 | two different values of an option of an option decode to the same null |
| Borsh.DistinguishesIff | packages/indexer/src/events/decode.ts:74-99 | decoding tells the values of a type apart if and only if no option stands directly under an option in it, outside arrays of length 0 |
| EventDecoder.DecodeBody | packages/indexer/src/events/decode.ts:101-112 | computes the parse of the named struct, or fails on an unknown name |
| EventDecoder.StructRoundTrip | packages/indexer/src/events/decode.ts:101-112 | decoding a struct's bytes recovers every field under its name, and no other |
| EventDecoder.BigEndianRoundTrip | packages/indexer/src/tree/poseidonV1.ts:17-26 | reading back a 32-byte big-endian word gives the number |
| EventDecoder.LineRoundTrip | packages/indexer/src/events/decode.ts:120-140 | every event the pool logs decodes and converts to exactly that event |
| EventDecoder.LineReadsBack | packages/indexer/src/events/decode.ts:149-153 | a pool event's printed line splits and base64-decodes into its two tokens, and is never masked |
| EventBytes.TagsSpelled | programs/kakure_pool/src/events.rs:15-17 | the tag of each event is the prefix and its name |
| EventBytes.BodyLayout | programs/kakure_pool/src/events.rs:19-56 | the bytes of each event's body, field by field: low byte first for integers, a zero or one byte before an option, whole words for the rest |
| EventBytes.OnlyTaggedLinesDecode | packages/indexer/src/events/decode.ts:120-153 | only data lines whose first word is one of the three tags decode |
| IndexerRing.TableAfter | packages/indexer/src/db/store.ts:128-144 | after any number of pushes, which push each slot of the table holds |
| IndexerRing.MatchesExactlyOneLap | packages/indexer/src/db/store.ts:128-144 | for pairwise different roots the table matches the on-chain ring if and only if at most 257 were pushed |
| Ingest.IndexerStore.PushRoot | packages/indexer/src/db/store.ts:128-144 | writes the row after the highest cursor, modulo 256 |
| Ingest.Ingestor.ApplyEvent | packages/indexer/src/ingest/ingest.ts:127-156 | the whole new state of tree and tables, for every event and every refusal |
| Ingest.Ingestor.ProcessSignature | packages/indexer/src/ingest/ingest.ts:97-125 | the whole new state: failed transactions only move the cursor, a truncated log latches the halt and changes nothing else, undecodable lines are skipped |
| Truncation.HaltsIffCutShort | packages/indexer/src/ingest/ingest.ts:97-125 | a transaction halts the indexer if and only if it succeeded and some line of its log, wherever it stands, begins with the runtime's notice of truncation; then tree, tables and cursor stay as they were, and otherwise the halt never latches and success moves the cursor to it |
| IngestRows.RowsCarryTheSlot | packages/indexer/src/ingest/ingest.ts:127-156 | every row a transaction adds or replaces carries its slot |
| Ingest.Ingestor.Backfill | packages/indexer/src/ingest/ingest.ts:57-69 | newest-first signatures are applied oldest first and the first error stops |
| Ingest.Ingestor.HydrateTree | packages/indexer/src/ingest/ingest.ts:44-49 | the tree grows by the stored notes' leaves in index order |
| IngestRows.HydratesIff | packages/indexer/src/ingest/ingest.ts:44-49 | hydration succeeds if and only if every stored leaf is a nonzero field element and all of them fit, and then appends exactly those leaves |
| Mirroring.NoteStep | packages/indexer/src/ingest/ingest.ts:129-143 | applying the next note event of the pool's log succeeds, and the root the indexer computes is the one the event announces |
| Mirroring.SignatureStep | packages/indexer/src/ingest/ingest.ts:97-125 | a transaction's log, whatever else other programs wrote into it, advances the mirror by exactly its pool events |
| Mirroring.BackfillReflects | packages/indexer/src/ingest/ingest.ts:57-69 | backfilling from any faithful mirror over any further part of the history never fails and gives a faithful mirror |
| Mirroring.HydrationRestoresTheTree | packages/indexer/src/ingest/ingest.ts:44-49 | a tree hydrated from a mirror's store is the pool's tree |
| Mirroring.TheMirrorIsThePool | packages/indexer/src/ingest/ingest.ts:57-143 | for every run of the pool, backfilling its complete history gives the pool's leaves, a row for every note with its root, the same nullifiers, a store that hydrates to the same tree, and through 257 leaves the same ring of roots |
| Truncation.TruncationStopsTheMirror | packages/indexer/src/ingest/ingest.ts:57-125 | backfilling a history with a truncated log ends halted with that error, the mirror being the pool as it was before that transaction and the cursor at the newest one before it, whatever came later |
| Truncation.BackfillsCompose | packages/indexer/src/ingest/ingest.ts:57-69 | a backfill over two stretches of history is the second after the first, unless the first fails |
| KeyHistory.TheLogTellsTheKeys | programs/kakure_pool/src/processor.rs:258-271 | over any run the log has one rotation for every version after the first, in order, the last to the key in force |
| KeyHistory.KeysAndCursorFollow | packages/indexer/src/ingest/ingest.ts:57-156 | a backfill of a run's complete history ends with the key of every version, the latest being the pool's own, and with the cursor at the newest processed transaction |
| Mirroring.TheRingAgreesIff | packages/indexer/src/db/store.ts:128-144 | for any hash and any run, the mirrored table is the pool's ring if and only if in every slot the root the table holds equals the root the ring holds |
| Mirroring.TheRingLastsOneLap | packages/indexer/src/db/store.ts:128-144 | under ideal hashing, on trusted runs, whose roots are all different, the mirrored table of roots is the pool's ring if and only if the tree has at most 257 leaves |
| SecondLap.SecondLapFails | packages/indexer/src/db/store.ts:128-144 | for every number of leaves beyond 257 there is a run over the real field with a history the chain can return, and whatever the history, the mirrored table is not the pool's ring |
| SecondLap.HistoryIsFetched | packages/indexer/src/ingest/ingest.ts:57-69 | every log of events that fit their words has a history as the mirror's theorems assume it |
| Base64.SextetsOf | packages/helper/src/wire.ts:32-35 | the bit operations of one group cut its bytes into six-bit numbers, the missing bytes read as zero (section 4 of RFC 4648) |
| Base64.SymbolsInOrder | packages/helper/src/wire.ts:24-24 | the alphabet, position by position (table 1 of RFC 4648) |
| Base64.ToBase64 | packages/helper/src/wire.ts:26-38 | the loop computes the group-by-group encoding |
| Base64.FromBase64 | packages/helper/src/wire.ts:40-56 | the loop computes the collection of bytes from the never-masked accumulator |
| Base64.CollectBare | packages/helper/src/wire.ts:40-56 | an unpadded encoding decodes to its bytes whatever the accumulator held before |
| Base64.RoundTrip | packages/helper/src/wire.ts:26-56 | decoding inverts encoding for byte strings of every length |
| Base64.JunkIsIgnored | packages/helper/src/wire.ts:40-56 | texts with the same alphabet characters in the same order decode alike: padding and everything else is skipped |

## Left out

- The circuits beyond the constraints listed in `Circuits` (ownership, quorum, memo and key-encapsulation checks), Groth16 proving, proof decompression and the verifier programs: an oracle `accepts`, honest by hypothesis.
- Poseidon, SHA-256, BabyJubJub and the sealing of messages: abstract functions with the laws named above. Public inputs are numbers; the node hash refuses those at or above `order`, which is a parameter, the real field's order among its values.
- Accounts of the runtime (program-derived addresses, rent, token accounts, signer, program-id and upgrade-authority checks, instruction parsing): a vault is identified by its mint, `funds` is the depositor's balance, and the account passed to a withdrawal as the asset's is taken by its mint.
- The `dev-verify` instruction, which has no effect on state.
- CoordinatorProtocol.ReadersLoseNothing: speaks of readers whose session is not swept; `MissesIffSwept` says what happens to the others.
- HTTP, WebSocket, body validation and limits of the coordinator; the number of poll rounds is a parameter.
- Mirroring.TheMirrorIsThePool: takes each signature once, in chain order, with complete logs; the event application has no duplicate check. Paging of signatures, the live tail beside a backfill and a crash inside a signature are not modelled.
- IndexerRing.MatchesExactlyOneLap: the order `getLatestRoot` gives rows of one slot is not modelled.
- Ingest.Ingestor.ApplyEvent: hexadecimal text is kept as the bytes it spells, JSON columns as sequences, and a leaf index as an unbounded number where JavaScript loses precision beyond 2^53; tree indices stay below 2^32.
- Node's own base64 decoder and UTF-8: the decoder is taken to agree with `Base64.Decode` on the text the runtime prints, and event names are ASCII.
- Proposal.AggregateProposal: the envelopes are what `collectUntil` returned, opened or not; how `BigInt` reads text is a parameter, and pairs of coordinates off the curve are not told apart from points.
- Distributed key generation's messages, key stores, nonce handles, sponsor and helper servers, web pages and the Go and WebAssembly provers: input and output, or easy members that would add little.
