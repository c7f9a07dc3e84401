# Verigate authority control plane: a verified model

Verigate decides whether an autonomous agent may act. Capabilities are delegated
down chains, recorded outcomes move a dynamic multiplier, governors reset, freeze
and roll back by quorum, a router spends each authorization once, and offline
validators later recompute the live decisions from a ledger. This project models
those parts in Dafny and proves what they guarantee over every input, every run
and every interleaving; where the obvious guarantee is false of the code, it
proves exactly when it holds.

How to read it. A class holds the tables its source counterpart updates; each of
its methods is proved equal to a specification function on values
(`State() == Spec(old(State()), …)`), and the theorems are lemmas about those
functions and about runs of them. What each main operation accepts is also written
out without its specification function, types, numbers and comparisons named
(`SnapshotMeans`, `ReplayOkExactly`, `LearningOkExactly`, `QuorumExactly`,
`AppliesExactly`, `AcceptsExactly`, `PermitsExactly`, `MintsExactly`, …), and what
it refuses by `…RefusalNames`. `dafny verify dfyconfig.toml` checks everything.

Modelling decisions:

- A digest is the digested value, or a free term (`Pair`, `EventHash`), so no
  collision axiom is needed; where a digest function is a parameter, freedom from
  collisions is a hypothesis of the lemma. A signature is membership in a set of
  signed (key, payload) pairs.
- Money and time are exact reals; the clock is an argument of every call. USDC
  conversion models the 28-digit working precision of the decimal type.
- One storage call is one step where calls can overlap: executions
  (`Execution.dfy`), publications and policy controls (`PolicyRuns.dfy`), snapshots
  and resets (`AuthorityWorlds.dfy`), delegations (`DelegationRuns.dfy`) and the two
  inserts of a recorded outcome (`LedgerRuns.dfy`). A worker may stop between any two
  steps. What the other modules state about these calls is about calls with nothing
  between their storage calls, which are proved to be one such interleaving
  (`UninterruptedSnapshot`, `UninterruptedReset`, `UninterruptedPublish`,
  `UninterruptedControl`, `UninterruptedDelegate`).
- Taken as one step although they are several storage calls: `record_event` outside
  `LedgerRuns.dfy`, the three reads of one link in `effective_active` and the two of
  one identity, and the engine's gate, whose governed row cannot change between its
  two reads.

| file | models |
|---|---|
| `Common.dfy`, `Traces.dfy`, `Models.dfy` | shared vocabulary, runs and their traces, actions, capabilities, exact amounts |
| `EvidenceManifest.dfy` | Merkle root, graph root and node check of an evidence manifest |
| `IntentGraphs.dfy`, `PlanAuthority.dfy` | intent-graph validation and plan assessment |
| `Delegation.dfy`, `EffectiveAuthority.dfy` | delegation, registry, effective ceiling, minting guards |
| `DelegationRuns.dfy` | delegations, registrations and revocations overlapping call by call |
| `Execution.dfy` | the execution boundary under any interleaving of workers |
| `DynamicAuthority.dfy`, `AuthorityValidators.dfy` | snapshots, ledger, the offline validators and replay |
| `Governance.dfy`, `AuthorityResets.dfy`, `AuthorityRuns.dfy` | quorums, resets, whole runs |
| `AuthorityWorlds.dfy`, `AuthoritySnapshots.dfy` | snapshots and resets overlapping call by call, and what the validators make of them |
| `LedgerRuns.dfy` | the event table and the ledger, written by separate calls |
| `AuthorityWitnesses.dfy` | concrete runs of overlapping snapshots and resets |
| `PolicyLineage.dfy` | governed policy versions, freeze and rollback, the engine's gate |
| `PolicyRuns.dfy`, `PolicyWitnesses.dfy` | publications and controls overlapping call by call, and concrete runs |
| `RollingLimits.dfy` | payment decisions, daily cap and rate limit |
| `ArcCalldata.dfy` | USDC units and ERC-20 transfer calldata |

Findings, each proved by a lemma named below:

- Two publications that overlap can store one version number twice: the check of
  the latest version and the insert are separate calls, and the table does not
  forbid it (`VersionsLineUpExactly`, `OverlapStoresVersionTwice`).
- A freeze that overlaps a rollback can make the abandoned digest active again,
  frozen (`ControlActsOnActiveExactly`, `FreezeRevivesDigest`).
- A snapshot that read the state before a suspension was stored can overwrite it
  (`AbsorbingExactly`, `SuspensionIsLost`), and the snapshot refreshed after a reset
  can be suspended again (`RefreshedSuspendedExactly`, `RefreshIsSuspended`).
- An outcome recorded while a snapshot is in flight, before it reads the events, is
  counted although it is later than the evaluation, and the historical validator
  refuses the snapshot (`HistoricalAcceptsOverlapped`, `InFlightOutcomeRefused`).
- An outcome recorded again after a call stopped between its two inserts can carry
  one time in the event table and another in the ledger (`TablesAgreeExactly`,
  `RetryDisagrees`).
- A delegation can go through although an ancestor, or an identity, was revoked after
  its checks: the row is registered and not effective (`DelegatedEffectiveExactly`,
  `RevokedMeanwhile`).
- A receipt can read FAILED although the authorization's broadcast returned a
  reference (`UnreportedExactly`, `FailedRowHidesBroadcast`).
- A ledger head commits to one event only, not to what precedes it
  (`HeadCommitsToLastEvent`, `HeadDoesNotCommitToPrefix`).
- The historical and learning validators refuse every snapshot whose history
  starts at a reset (`HistoricalAcceptsExactly`, `HistoricalAcceptsRun`,
  `LearningAcceptsRun`), which replay accepts (`ResetMakesHistoricalRefuse`,
  `ResetMakesLearningRefuse`).
- An adverse outcome can raise the default multiplier (`AdverseRaisesExactly`).
- A list intersection that comes out empty restricts nothing
  (`ListIntersectionExact`), and purposes are intersected case-exactly but
  compared folding case (`PurposeIntersectionExactly`, `PurposeCaseMatters`).
- The dynamic ceiling does not see an exact amount unless the capability is bound
  to an identity (`ExactAmountSafeExactly`, `ExactAmountExceeds`).
- Confirmation trusts the receipt it is handed (`ConfirmationSafeExactly`,
  `ForeignReceiptConfirms`).
- A negative plain amount recorded for a generic action lets payments exceed the
  daily cap (`CapKeptExactly`).
- A publication refused for a digest conflict leaves its approvals inserted
  (`RefusalLeavesApprovalsExactly`, `ConflictLeavesApproval`).
- Repeating the largest leaf of an odd list keeps the Merkle root
  (`RepeatedLargestLeafCollides`); which lengths can collide at all is
  `LengthsBindExactly`. The graph root alone ignores node types and
  ids (`GraphRootIgnoresNodeNames`).
- Amounts of more than 28 digits are rounded without an error
  (`LongAmountsCollide`).

## Model

| member | source | states |
|---|---|---|
| EvidenceManifest.MerkleRoot | core/evidence_manifest.py:31-42 | the level-by-level loop computes the root defined by recursion over sorted leaves |
| EvidenceManifest.HashPairs | core/evidence_manifest.py:38-41 | one pass pairs neighbours from the left |
| EvidenceManifest.RootBinds | core/evidence_manifest.py:31-42 | lists of any lengths with one root differ only by further copies of the shorter list's largest leaf |
| EvidenceManifest.PermutationsShareRoot | core/evidence_manifest.py:34 | the root depends on the multiset of leaves only |
| EvidenceManifest.RootBindsDistinctLeaves | core/evidence_manifest.py:31-42 | duplicate-free lists have one root exactly when they are permutations |
| EvidenceManifest.RootBindsEqualLength | core/evidence_manifest.py:31-42 | lists of equal length have one root exactly when they are permutations |
| EvidenceManifest.LengthsBindExactly | core/evidence_manifest.py:31-42 | the root decides between all lists of m and n leaves, repetitions included, exactly if the lengths are equal, one is zero, or their trees differ in height |
| EvidenceManifest.RepeatedLargestLeafCollides | core/evidence_manifest.py:36-37 | for every odd list above one leaf, repeating its largest leaf keeps the root |
| EvidenceManifest.HashedRootBinds | core/evidence_manifest.py:31-42 | the same for hashed items of any kind under a collision-free hash, duplicate-free or of lengths that bind |
| EvidenceManifest.GraphRootBinds | core/evidence_manifest.py:23-48 | graphs whose numbers of leaves bind, or without repeated ones, have one root exactly when node digests and edges agree |
| EvidenceManifest.GraphRootIgnoresNodeNames | core/evidence_manifest.py:23-24 | changing a node's type and id keeps the root |
| EvidenceManifest.VerifyNodes | core/evidence_manifest.py:99-119 | accepts exactly the graphs with honest digests, unique references and closed edges |
| EvidenceManifest.VerifiedRootBindsEvidence | core/evidence_manifest.py:99-119 | graphs that pass the node check, of sizes that bind or without repeated data, have one root exactly when they hold the same data and edges |
| IntentGraphs.NoErrorsMeansAcyclic | core/intent_graph.py:105-133 | the expected error tuple is empty exactly when ids are unique, edges closed and DEPENDS_ON acyclic |
| IntentGraphs.Validator.Visit | core/intent_graph.py:119-129 | the depth-first visit terminates on every graph, reports a cycle only if one is below the walk's start, and otherwise finishes the node |
| IntentGraphs.Validator.VisitAll | core/intent_graph.py:125-126 | the same over a node's dependencies |
| IntentGraphs.Validator.CheckIds | core/intent_graph.py:107-109 | reports repeated ids exactly when there are any |
| IntentGraphs.Validator.CheckEdges | core/intent_graph.py:110-114 | reports an unknown endpoint exactly when some edge has one |
| IntentGraphs.Validator.Validate | core/intent_graph.py:105-133 | returns exactly the expected errors, and valid exactly for closed, unique, acyclic graphs |
| IntentGraphs.FinishedIsAcyclic | core/intent_graph.py:116-133 | no cycle is below a node whose dependencies all finished before it |
| IntentGraphs.IntentGraphBuilder.AddNode | core/intent_graph.py:144-159 | adds the node exactly when its id is new |
| IntentGraphs.IntentGraphBuilder.Link | core/intent_graph.py:169-178 | adds the edge exactly when both endpoints exist |
| IntentGraphs.IntentGraphBuilder.Build | core/intent_graph.py:180-189 | builds unless DEPENDS_ON has a cycle, which is then the only error |
| PlanAuthority.AuthorityAwareIntentGraph.AssessNode | core/authority_intent_graph.py:87-161 | the recursive assessment with its loop, on every graph: from the top ELIGIBLE exactly when no cycle is reachable and every reachable node is an ACTION whose action is cleared, written out |
| PlanAuthority.LocalExactly | core/authority_intent_graph.py:120-161 | the local checks pass exactly for an authority that is not SUSPENDED, of the action's agent and requested capability, a permitted action, and an exact amount of a limited asset between zero and limit times a multiplier in [0,1] |
| PlanAuthority.ReportExactly | core/authority_intent_graph.py:95-161 | an assessment lists the dependencies in order with their own outcomes up to the first that is blocked, which is the reason, else names the first own check that fails |
| Models.PermitsExactly | core/models.py:240-271 | permitted exactly by agent, expiry, six lists, context and limit, written out |
| Models.DenialNames | core/models.py:240-271 | a denial names a check that fails |
| PlanAuthority.EligibleStep | core/authority_intent_graph.py:95-161 | eligible means: off the path, locally eligible, and all dependencies eligible |
| PlanAuthority.EligibleExactly | core/authority_intent_graph.py:87-161 | ELIGIBLE exactly when no cycle is reachable and everything reachable passes the local checks |
| PlanAuthority.EligibleOnValidatedGraph | core/authority_intent_graph.py:71-87 | on a validated graph the cycle condition is void |
| PlanAuthority.AssessmentIsTotal | core/authority_intent_graph.py:87-161 | no error is raised when all reachable nodes are ACTION nodes with a payload |
| Delegation.OneStepAttenuates | core/authority.py:121-175 | whatever a validated child permits its parent permits at the same time, agent aside |
| Delegation.ChainAttenuates | core/authority.py:102-175 | the same along chains of any length |
| Delegation.ChainLimitsShrink | core/authority.py:108-175 | limits, expiry and conditions only tighten down a chain, and depth counts the steps |
| Delegation.AcceptsExactly | core/authority.py:102-175 | a child is accepted exactly if it is bound to its parent, one level deeper and at most 32 deep, inside every list, tighter in every constraint and limit, with every condition and no later expiry |
| Delegation.WholeAuthorityPasses | core/authority.py:102-175 | a child with all of its parent's authority, properly bound, is accepted |
| Delegation.RefusalNamesWidening | core/authority.py:102-175 | a refusal names a wrong binding or a widening that is there |
| Delegation.AncestryIsChain | core/storage.py:971-1048 | the authority path of a registered row is a validated chain down from a root |
| Delegation.RegisteredAttenuates | core/models.py:240-271 | what a registered capability permits every ancestor permits |
| Delegation.RegisteredLimitsShrink | core/authority.py:108-118 | a limit named by any ancestor is named below, at most as high |
| Delegation.InsertKeepsWellFormed | core/storage.py:971-1048 | inserting a validated row keeps the parent relation acyclic and rooted |
| Delegation.DepthBoundNeverRejects | core/capabilities.py:42-60 | with root depth at least zero no registered chain exceeds the loop's bound |
| Delegation.EffectiveMeansWholeChain | core/capabilities.py:42-60 | effective exactly when every ancestor capability and its bound identity is active |
| Delegation.LinkActiveExactly | core/storage.py:869-876 | a link is active exactly when its row and the identity it is bound to are unrevoked and unexpired |
| Delegation.InsertedEffectiveExactly | core/storage.py:971-1048 | a row inserted under a registered parent is effective exactly if its parent is, its recipient's identity is active and it has not expired |
| Delegation.DelegationYieldsEffective | core/authority.py:242-296 | an uninterrupted delegation that goes through is effective at once unless its own expiry has passed |
| Delegation.AncestryStable | core/storage.py:971-1048 | an authority path never changes |
| DelegationRuns.RunKeepsInv | core/storage.py:971-1048 | whatever overlaps, every row was validated against its parent's row and the parent relation stays acyclic and rooted |
| DelegationRuns.RunExtends | core/storage.py:738-876 | over every interleaving capabilities and identities never change and REVOKED is final |
| DelegationRuns.StoredWasChecked | core/authority.py:242-296 | every delegated row of every run passed, in order: delegator alive and owner, recipient alive and of the child's agent with a narrower child and a right signature, and a parent row that read ACTIVE at the insert |
| DelegationRuns.RevocationIsPermanent | core/storage.py:783-794 | after a revocation or expiry no capability with it on its path is ever effective again, delegated before, after or meanwhile |
| DelegationRuns.DelegatedEffectiveExactly | core/authority.py:242-296 | exactly when the row an overlapped delegation inserts is effective: what its checks saw does not matter |
| DelegationRuns.DeadLinkStopsDelegation | core/capabilities.py:42-60 | a link that is dead when a delegation below it begins stops it, whatever overlaps |
| DelegationRuns.RevokedMeanwhile | core/storage.py:982-990 | a concrete delegation that goes through after the root's identity was revoked, and is never effective |
| DelegationRuns.UninterruptedDelegate | core/authority.py:242-296 | the storage calls of a delegation with nothing between are the whole call |
| Delegation.CapabilityRegistry.LinkIsActive | core/storage.py:869-876 | the capability and its bound identity are active |
| Delegation.CapabilityRegistry.EffectiveActive | core/capabilities.py:42-60 | the walk decides effectiveness; its visited set never fires |
| Delegation.CapabilityRegistry.Register | core/capabilities.py:20-32 | root registration with its error cases |
| Delegation.RegistersExactly | core/capabilities.py:20-32 | a root is registered exactly if it has no parent, its identity is known and of its agent, and its id is new |
| Delegation.CapabilityRegistry.Delegate | core/authority.py:242-296 | an uninterrupted delegation with every error case in order |
| Delegation.DelegatesExactly | core/authority.py:242-296 | goes through exactly if the parent is effective and bound to the active delegator, the recipient's identity is active and of the child's agent, the child is narrower, the signature right and the id new |
| Delegation.RefusalNamesReason | core/authority.py:242-296 | a refused delegation names the first thing that is wrong |
| Delegation.CapabilityRegistry.Revoke | core/storage.py:856-867 | only an active row changes, to REVOKED |
| Delegation.CapabilityRegistry.RegisterIdentity | core/storage.py:738-760 | a new key id is added, a known one refused |
| Delegation.CapabilityRegistry.RevokeIdentity | core/storage.py:783-794 | only an active identity changes, to REVOKED |
| Delegation.CapabilityRegistry.AuthorityPath | core/authority.py:196-221 | the loop returns the whole path from root to leaf |
| EffectiveAuthority.ContextIntersection | core/effective_authority.py:22-43 | the loop fills exactly the key-wise meet |
| EffectiveAuthority.ListIntersectionExact | core/effective_authority.py:12-19 | a name passes exactly when both lists accept it or the lists share nothing |
| EffectiveAuthority.PurposeIntersectionExactly | core/effective_authority.py:51-55 | every purpose passes exactly when both sides accept it if and only if what the lists share up to case they share exactly, and they share something |
| EffectiveAuthority.PurposeCaseMatters | core/effective_authority.py:51-55 | with mixed case both directions fail, by example |
| EffectiveAuthority.ContextIntersectionExact | core/effective_authority.py:22-43 | the boundary accepts exactly the contexts both capability and policy accept |
| EffectiveAuthority.BoundaryExactly | core/effective_authority.py:46-109 | the whole boundary check under a minted ceiling, exactly |
| EffectiveAuthority.MintsExactly | core/engine.py:284-354 | for which actions an authorization is minted, written out: permission, state, elevated-only actions, multiplied limit, positive multiplier and, for identity-bound capabilities, the cleared plan |
| EffectiveAuthority.MintRefusalNames | core/engine.py:284-354 | a refused minting names what is wrong |
| EffectiveAuthority.BoundaryRefusalNames | core/effective_authority.py:46-77 | so does the boundary |
| EffectiveAuthority.AuthorizedAmount | core/effective_authority.py:98-105 | an authorized amount is under the minted limit of its asset |
| EffectiveAuthority.EndToEndCeiling | core/engine.py:284-354 | from root capability to side effect the amount stays under multiplier times limit, every ancestor limit and the policy cap |
| EffectiveAuthority.AuthorizedUpTheChain | core/engine.py:318-345 | what is authorized every ancestor permits, never suspended, elevated-only actions only when elevated |
| EffectiveAuthority.DynamicChecksAgree | core/authority_protocol.py:161-177 | the three dynamic ceilings agree for multipliers in [0,1] and non-negative amounts and limits |
| EffectiveAuthority.ExactAmountSafeExactly | core/authority_state.py:215-231 | the exact amount of an authorized action stays under multiplier times limit, whatever it is, if and only if the capability is identity-bound or the multiplier does not lower the limit |
| EffectiveAuthority.ExactAmountExceeds | core/authority_state.py:224-229 | a concrete authorized action whose exact amount is ten times the ceiling |
| Execution.RunKeepsInv | core/storage.py:567-635 | every interleaving keeps nonces, effects, workers and receipts consistent |
| Execution.AtMostOneEffectPerIntent | enforcement/router.py:208-262 | at most one side effect per intent id over every interleaving and crash |
| Execution.SignsExactly | attest/receipt.py:133-138 | an authorization is signed exactly for the intent id as nonce and a lifetime of 1 to 300 seconds |
| Execution.EffectWasChecked | attest/receipt.py:352-364 | every side effect of every run was signed for at most 300 seconds, then checked by its own worker within that lifetime, then had its nonce consumed by that worker |
| Execution.DirectCallsLeaveNoReceipts | enforcement/router.py:234-262 | in runs without receipted calls no receipt is ever stored |
| Execution.SubmittedHasOneBroadcast | enforcement/router.py:276-332 | every SUBMITTED receipt has exactly one broadcast and its consumed nonce behind it |
| Execution.ConfirmationSafeExactly | enforcement/router.py:339-385 | one confirmation keeps "every reference has its broadcast" exactly if it changes nothing, passes the stored reference, or passes one really broadcast |
| Execution.ConfirmationCheck | enforcement/router.py:342-355 | with nothing broadcast a confirmation that changes the row is never safe, with the stored reference it always is |
| Execution.ClaimsBackedExactly | enforcement/router.py:276-385 | for every run: all referenced receipts have their broadcast at every point exactly when every confirmation was harmless |
| Execution.ConfirmedHasBroadcast | enforcement/router.py:339-385 | if confirmations pass the stored reference, every CONFIRMED receipt has its broadcast |
| Execution.ForeignReceiptConfirms | enforcement/router.py:342-346 | otherwise a row can read CONFIRMED with no broadcast |
| Execution.BroadcastAccounted | enforcement/router.py:276-332 | for every run: no returned reference vanishes, it is in the authorization's receipt, still to be recorded, dropped by a crash or refused record, or handed to a direct caller |
| Execution.UnreportedExactly | enforcement/router.py:305-332 | for every run: an authorization whose receipt has no reference has a broadcast behind it exactly in the last three cases, and then its own nonce row |
| Execution.FailedRowHidesBroadcast | core/storage.py:589-616 | a concrete race that leaves FAILED for an authorization whose broadcast returned a reference |
| Execution.ExecutionRouter.ConsumeOnce | enforcement/router.py:208-218 | the first insert of a nonce wins, any other changes nothing |
| Execution.ExecutionRouter.Execute | enforcement/router.py:234-262 | exactly when a call is rejected, finds its nonce consumed, or succeeds: signed, issued by now, not expired, every other check passed, fresh nonce; success consumes the nonce and has one effect, an error changes nothing |
| Execution.ExecutionRouter.ExecuteWithReceipt | enforcement/router.py:276-332 | one whole call: nonce and effect change only within the lifetime of a signed authorization with a fresh nonce, the receipt reports exactly that, and a second call returns the stored receipt and changes nothing |
| Execution.ExecutionRouter.ConfirmReceipt | enforcement/router.py:339-385 | exactly when the row changes and to what, what is handed back, and exactly when it is an error |
| DynamicAuthority.AdverseRaisesExactly | core/authority_state.py:33-42 | when one more non-critical adverse outcome raises the default multiplier |
| DynamicAuthority.OutcomesMoveMultiplier | core/authority_state.py:172-191 | successes never lower it and suspending outcomes never raise it under ordered thresholds |
| DynamicAuthority.LiveCounters | core/authority_state.py:164-171 | the counters are the numbers of the scope's recorded outcomes of the named types at or after the start |
| DynamicAuthority.DerivesExactly | core/authority_state.py:172-191 | the derivation gives exactly the state, reason and multiplier of the threshold table |
| DynamicAuthority.SnapshotMeans | core/authority_state.py:146-213 | every field of a snapshot, for every store, straight from the tables |
| DynamicAuthority.DefaultSnapshot | core/authority_state.py:33-42 | under the default numbers: any recorded POLICY_VIOLATION or TAMPER_DETECTED from the start on leaves SUSPENDED with 0.0, otherwise the states and multipliers by counts |
| DynamicAuthority.RecordMeans | core/storage.py:1050-1107 | exactly the five known types with evidence are recorded, once per id, in a row that continues the scope's chain |
| DynamicAuthority.SameIdExactly | core/authority_state.py:250-254 | within a scope two outcomes share an id exactly when type and evidence agree |
| DynamicAuthority.RecordKeepsCoupled | core/storage.py:1050-1107 | an uninterrupted record adds event and ledger row together or not at all |
| DynamicAuthority.ScopeRowsSound | core/storage.py:1109-1163 | a scope's ledger is a valid chain of distinct recorded events, equal to what the service counts |
| DynamicAuthority.VerifyLedger | core/storage.py:1121-1132 | the loop decides chain validity |
| DynamicAuthority.HeadCommitsToLastEvent | core/storage.py:1085-1107 | two valid chains have one head exactly when both are empty or end in the same event |
| DynamicAuthority.HeadDoesNotCommitToPrefix | core/storage.py:1087-1088 | the last row alone, renumbered, is a different valid chain with the same head |
| DynamicAuthority.DynamicAuthorityService.CountEvents | core/authority_state.py:164-171 | the counters over the counted history |
| DynamicAuthority.DynamicAuthorityService.TakeSnapshot | core/authority_state.py:146-213 | the snapshot, field by field from the tables, and the state row it writes, with nothing between its storage calls |
| DynamicAuthority.DynamicAuthorityService.Record | core/authority_state.py:233-264 | known types with evidence are recorded once, anything else is refused |
| AuthorityValidators.CollectCommitted | core/proof_validators/common.py:150-166 | the rows a head commits to, if it is in the ledger |
| AuthorityValidators.CountWindow | core/proof_validators/common.py:173-188 | the recount over a closed window |
| AuthorityValidators.ValidateHistorical | core/proof_validators/common.py:119-208 | the verdict, check by check; accepts exactly the historically bound snapshots |
| AuthorityValidators.HistoricalOkExactly | core/proof_validators/common.py:119-208 | for every snapshot, rows, policy and head: accepted exactly with the policy's own window, the expected policy, a committed head with nothing after it up to the evaluation, the numbers of committed outcomes by type, and the state they warrant |
| AuthorityValidators.HistoricalRefusalNames | core/proof_validators/common.py:119-208 | a refused snapshot names what is wrong, what is checked before it being right |
| AuthorityValidators.CountsAgreeExactly | core/authority_state.py:164-171 | live and recounted counters agree exactly when no counted event is post-dated |
| AuthorityValidators.HeadCommitsPrefix | core/proof_validators/common.py:150-166 | an earlier head still selects exactly the earlier rows |
| AuthorityValidators.SplitHistoricalExactly | core/proof_validators/common.py:119-208 | exactly when a snapshot whose four reads saw different stores is accepted against any later ledger |
| AuthorityValidators.StampedCountsAgree | core/authority_state.py:164-171 | when everything recorded between event read and head read is later than the evaluation, count and recount agree exactly if no counted outcome is |
| AuthorityValidators.HistoricalAcceptsExactly | core/proof_validators/common.py:119-208 | exactly when a live snapshot is accepted against any later ledger |
| AuthorityValidators.HistoricalIsDeterministic | core/proof_validators/common.py:189-208 | accepted snapshots of one time agree |
| AuthorityValidators.Replay | core/authority_replay.py:23-131 | the replay verdict, check by check; accepts exactly the replayable decisions |
| AuthorityValidators.ReplayOkExactly | core/authority_replay.py:23-131 | for every snapshot, rows, resets, policy and head: accepted exactly with an intact chain, a committed head, a valid authorization, the bound head and policy, the later of window and last reset, the numbers of committed outcomes by type, no unjustified suspension, and the multiplier of its state |
| AuthorityValidators.ReplayRefusalNames | core/authority_replay.py:23-131 | a refused replay names what is wrong |
| AuthorityValidators.BoundaryExact | core/storage.py:1531-1545 | the replayed history boundary is the live one exactly when no reset is post-dated or inserted into the window later |
| AuthorityValidators.SplitReplayExactly | core/authority_replay.py:31-131 | exactly when replay accepts a snapshot whose four reads saw different stores, resets stored meanwhile included |
| AuthorityValidators.ReplayAcceptsExactly | core/authority_replay.py:31-131 | exactly when replay accepts a live snapshot, resets included |
| AuthorityValidators.ValidateLearning | core/proof_validators/common.py:211-374 | the learning verdict, check by check; accepts exactly the learned steps |
| AuthorityValidators.EvidenceExactly | core/proof_validators/common.py:227-255 | the evidence checks pass exactly for the outcome's type, the claim's agent and the history's capability, the known identity, the claim as evidence, and the attestation and attestor where named |
| AuthorityValidators.LearningOkExactly | core/proof_validators/common.py:211-374 | for every evidence, snapshots, rows, policy and head: accepted exactly if the evidence is followed, the event is in place between the two heads, and counters and state are those of the ledger |
| AuthorityValidators.EvidenceRefusalNames | core/proof_validators/common.py:227-255 | refused evidence names the first comparison that fails |
| AuthorityValidators.PlacementRefusalNames | core/proof_validators/common.py:289-325 | a misplaced event is refused for what is wrong with its place |
| AuthorityValidators.LearningRefusalNames | core/proof_validators/common.py:276-374 | the order and meaning of the other refusals |
| AuthorityValidators.SplitLearningExactly | core/proof_validators/common.py:211-374 | exactly when a recorded learning step is accepted with a snapshot whose four reads saw different stores |
| AuthorityValidators.LearningAcceptsExactly | core/proof_validators/common.py:211-374 | exactly when a recorded learning step is accepted against any later ledger |
| AuthorityValidators.LearningIsDeterministic | core/proof_validators/common.py:330-374 | accepted "after" snapshots of one time agree |
| Governance.ValidatePolicy | core/governance.py:300-329 | accepts exactly the valid policies |
| Governance.CollectApprovals | core/governance.py:607-624 | accepts exactly distinct signers with distinct nonces who approve this action, and tallies roles |
| Governance.VerifyQuorum | core/governance.py:546-632 | accepts exactly the declared quorum condition |
| Governance.QuorumExactly | core/governance.py:505-632 | the quorum condition, written out: a constituted policy, a timed and allowed action, timed endorsements by different members in their own roles, threshold and role minimums |
| Governance.QuorumSound | core/governance.py:498-632 | at least threshold distinct members in their roles, unexpired, on this action, all role minimums met |
| Governance.QuorumsOverlap | core/governance.py:272-329 | two quorums under one policy share at least 2 * threshold - members governors |
| Governance.InsertedUnique | core/storage.py:260-271 | a batch of approvals goes in whole exactly when no id, nonce or signer of an action repeats |
| Governance.StoreApprovals | core/storage.py:1466-1487 | inserting one by one with rollback |
| AuthorityResets.ResetKeepsInv | core/storage.py:246-258 | per scope epochs are 1..n with increasing issue times; ids, nonces and approvals stay unique |
| AuthorityResets.ResetAppliesExactly | core/governance.py:647-738 | exactly when a reset goes through |
| AuthorityResets.AppliesExactly | core/governance.py:92-235 | goes through exactly if trusted, signed by its governor and at most thirty days old or by a quorum, and applicable to the tables, written out |
| AuthorityResets.ResetRefusalNames | core/governance.py:647-738 | a refused reset names what is wrong with it |
| AuthorityResets.AppliedLeaves | core/governance.py:223-235 | an applied reset leaves itself, its approvals and the scope's snapshot at its issue time, and nothing else changed |
| AuthorityResets.LatestCriticalBounds | core/governance.py:205-216 | the bound on the latest critical outcome bounds all of them |
| AuthorityResets.SuspendedExactly | core/authority_state.py:172-179 | suspended exactly by a standing suspension without reset or by critical outcomes in the window |
| AuthorityResets.ResetLeavesSuspension | core/governance.py:197-235 | an uninterrupted reset applies only from SUSPENDED and leaves a state that is not |
| AuthorityResets.NothingBeforeResetCounts | core/authority_state.py:153-168 | after a reset every snapshot counts as if earlier events did not exist |
| AuthorityResets.LatestIsGreatest | core/storage.py:1517-1529 | the last reset has the greatest epoch and issue time |
| AuthorityResets.AuthorityGovernanceService.Verify | core/governance.py:92-135 | authenticity of either kind of request |
| AuthorityResets.AuthorityGovernanceService.LatestCriticalTime | core/governance.py:205-212 | the greatest time of a critical event, zero when there is none |
| AuthorityResets.AuthorityGovernanceService.Register | core/storage.py:1455-1515 | approvals and reset together or neither |
| AuthorityResets.AuthorityGovernanceService.Check | core/governance.py:647-671 | the read-only checks in order |
| AuthorityResets.AuthorityGovernanceService.ApplyReset | core/governance.py:172-235 | the uninterrupted reset call, including the state it writes when refused |
| AuthorityRuns.RunKeepsInv | core/storage.py:1455-1515 | the reset and ledger invariants at every step of every run |
| AuthorityRuns.RunExtends | core/storage.py:1085-1107 | later ledgers and reset tables extend earlier ones |
| AuthorityRuns.SuspensionIsAbsorbing | core/authority_state.py:172-176 | in runs of whole calls, before the first reset, an observed suspension lasts |
| AuthorityRuns.ResetForgetsForever | core/authority_state.py:153-168 | events before an applied reset are never counted again in the run |
| AuthorityRuns.AppliedWasTrusted | core/governance.py:92-135 | in every run each applied reset was requested, trusted when verified, and applicable to the tables it met |
| AuthorityRuns.HistoricalAcceptsRun | core/authority_state.py:146-213 | stamped runs, resets included: accepted exactly unless a sticky re-observation or a reset of the scope inside the window |
| AuthorityRuns.ReplayAcceptsRun | core/authority_replay.py:31-131 | stamped runs with resets: replay accepts every snapshot, a sticky one only while its criticals are in the window |
| AuthorityRuns.LearningAcceptsRun | core/genesis_lifecycle.py:171-224 | stamped runs, resets included: a lifecycle that records a new event and snapshots at once is accepted exactly if no reset of the scope is inside the window, the event is, and it stood on a suspension exactly if its history did |
| AuthorityRuns.LearningWithoutResets | core/authority_state.py:172-176 | without resets and suspended snapshots in between, the first and last condition hold |
| AuthorityWorlds.UninterruptedSnapshot | core/authority_state.py:153-212 | the five storage calls of a snapshot with nothing between are the whole call |
| AuthorityWorlds.UninterruptedReset | core/governance.py:172-235 | so are those of a reset |
| AuthorityWorlds.RunKeepsInv | core/storage.py:1455-1515 | whatever overlaps, epochs are 1..n in issue order, nothing is used twice, events and ledger agree |
| AuthorityWorlds.StoredWasTrusted | core/governance.py:172-235 | every stored reset of every run was begun on a trusted request, then found its scope suspended, then read no critical outcome at or after it, and then was stored by that worker |
| AuthorityWorlds.AdmittedIsNext | core/storage.py:257 | however stale its check, a reset the table admits is the next epoch, issued later than the last |
| AuthorityWorlds.AbsorbingExactly | core/authority_state.py:172-212 | a standing suspension without reset is absorbing exactly if no snapshot in flight is about to overwrite it |
| AuthorityWorlds.RefreshedSuspendedExactly | core/governance.py:205-230 | the refreshed snapshot is suspended exactly if a critical outcome arrived between the reset's check and the refresh |
| AuthorityWorlds.LaterReadsStartAfter | core/authority_state.py:153-163 | every snapshot that reads the resets after one was stored starts its history at or after it |
| AuthorityWitnesses.SuspensionIsLost | core/authority_state.py:172-212 | a concrete run in which a standing suspension is overwritten without any reset |
| AuthorityWitnesses.RefreshIsSuspended | core/governance.py:205-230 | a concrete run whose reset is applied and whose refreshed snapshot is suspended |
| AuthoritySnapshots.EverySnapshotTaken | core/authority_state.py:153-212 | every snapshot about to be stored was begun and read at some five steps of the run, and is made of what they saw |
| AuthoritySnapshots.HistoricalAcceptsOverlapped | core/proof_validators/common.py:119-208 | stamped runs of overlapping calls: accepted exactly unless a reset inside the window, a re-observed suspension, or an outcome of the scope recorded between clock reading and event read |
| AuthoritySnapshots.ReplayAcceptsOverlapped | core/authority_replay.py:31-131 | the same for replay: resets stored while the snapshot is in flight must not lie between the window's start and the evaluation |
| AuthoritySnapshots.LearningAcceptsOverlapped | core/proof_validators/common.py:211-374 | the same for a learning step: nothing of the scope may be recorded between the event and the head read |
| AuthorityWitnesses.InFlightOutcomeRefused | core/authority_state.py:153-168 | a concrete stamped run in which an outcome recorded between clock reading and event read makes the historical validator refuse the snapshot |
| AuthorityWitnesses.ResetMakesHistoricalRefuse | core/proof_validators/common.py:143-144 | a concrete stamped run with a reset inside the window: the historical validator refuses the snapshot, replay accepts it |
| AuthorityWitnesses.ResetMakesLearningRefuse | core/proof_validators/common.py:277-278 | the learning validator refuses the lifecycle that follows |
| LedgerRuns.RunKeepsInv | core/storage.py:1050-1107 | however the two inserts interleave, every scope's ledger is a valid chain of distinct outcomes whose ids are in the event table |
| LedgerRuns.TablesAgreeExactly | core/storage.py:1050-1107 | for every run: event table and ledger hold the same outcomes exactly when no event is missing from the ledger and no row was appended for an event other than the stored one |
| LedgerRuns.LedgeredExactly | core/authority_state.py:262-263 | an id is in the ledger exactly when some call got as far as appending it |
| LedgerRuns.AgreedRecount | core/storage.py:1109-1163 | tables that agree are counted alike, for every scope, window and time |
| LedgerRuns.HistoricalRecountsLedger | core/proof_validators/common.py:119-208 | exactly when a snapshot is accepted although the two tables are written apart |
| LedgerRuns.RetryDisagrees | core/authority_state.py:246-264 | a concrete retry after which a counted success is in no recount |
| PolicyRuns.RunKeepsInv | core/policy_version.py:225-474 | whatever overlaps, every version is first or names a stored version one lower, active digests are members, nothing is used twice |
| PolicyRuns.StoredWasGoverned | core/policy_version.py:225-262 | in every run each stored version was signed for its source, has that source's policy id, and was approved by a quorum for exactly it |
| PolicyRuns.ControlWasGoverned | core/policy_version.py:394-419 | in every run each control that took effect had its quorum |
| PolicyRuns.VersionsLineUpExactly | core/policy_version.py:263-283 | for every run: versions are 1..n naming predecessors exactly when every stored version was undisturbed |
| PolicyRuns.ClearedByRead | core/policy_version.py:267-278 | every cleared publication was cleared by a latest-version read of its own, and its count is what that read saw |
| PolicyRuns.UndisturbedExactly | core/policy_version.py:267-283 | a version was stored undisturbed exactly when no version of its policy id was stored since its publication's own latest-version read |
| PolicyWitnesses.OverlapStoresVersionTwice | core/storage.py:211-221 | a concrete run of two overlapping publications that stores version 1 twice |
| PolicyLineage.PublishSucceedsExactly | core/policy_version.py:225-297 | exactly when an uninterrupted publication goes through, and the tables it leaves |
| PolicyLineage.LatestIsHighest | core/storage.py:1352-1360 | the version read as latest is a stored one with the highest number of its policy |
| PolicyLineage.PublishRefusalNames | core/policy_version.py:225-297 | a refused publication names the first thing that is wrong |
| PolicyLineage.ControlActsOnLineage | core/policy_version.py:394-474 | an uninterrupted control acts on the active digest; a rollback activates the version it names |
| PolicyLineage.ControlSucceedsExactly | core/policy_version.py:394-474 | exactly when an uninterrupted control takes effect, and the tables it leaves |
| PolicyLineage.ControlRefusalNames | core/policy_version.py:394-474 | a refused control names the first thing that is wrong |
| PolicyRuns.ControlActsOnActiveExactly | core/policy_version.py:420-462 | an overlapped control acts on the active, for a freeze unfrozen, digest exactly if the last control of the policy to take effect since its own row read, if any, left it so |
| PolicyRuns.StaleFreezeReactivates | core/policy_version.py:420-462 | from every store where both pass their checks, a freeze that overlaps a rollback brings the abandoned digest back |
| PolicyWitnesses.FreezeRevivesDigest | core/policy_version.py:420-462 | a concrete run from empty tables that does |
| PolicyRuns.UpsertEffect | core/storage.py:1299-1350 | a control that takes effect records a new action and moves its policy to a governed member, for a rollback the version it names |
| PolicyRuns.OnlyUpsertsControl | core/storage.py:1299-1350 | nothing else changes controls or recorded actions |
| PolicyRuns.FrozenExactly | core/storage.py:1326-1340 | a frozen policy stays frozen over a step exactly if no rollback of it takes effect |
| PolicyRuns.FreezeLastsUntilRollback | core/policy_version.py:438-462 | a freeze lasts through every interleaving until a rollback takes effect |
| PolicyLineage.GateExactly | core/engine.py:49-66 | the gate passes exactly a governed digest that is uncontrolled or active and not frozen |
| PolicyLineage.GateMeans | core/engine.py:49-66 | an engine passes exactly if its digest, version, source and parent are those of a stored change and its policy is uncontrolled, or active on it and not frozen |
| PolicyRuns.FrozenPassesNothing | core/engine.py:62-66 | frozen: no digest of the policy passes the gate before a rollback takes effect |
| PolicyLineage.RefusalLeavesApprovalsExactly | core/storage.py:1408-1451 | a refused publication leaves approvals behind exactly if it passes every check, its approvals are new and its digest is bound to other content |
| PolicyLineage.InsertLeavesExactly | core/storage.py:1408-1451 | the same for the insert alone |
| PolicyWitnesses.ConflictLeavesApproval | core/engine.py:68-80 | a concrete run: the engine registered its own artifact, a publication of the digest leaves its approval |
| PolicyRuns.UninterruptedPublish | core/policy_version.py:225-297 | the steps of one publication with nothing between are the whole call |
| PolicyRuns.UninterruptedControl | core/policy_version.py:394-474 | so are those of a control |
| PolicyLineage.PolicyStore.RegisterGovernedChange | core/storage.py:1370-1453 | the storage transaction with its three endings |
| PolicyLineage.PolicyStore.Publish | core/policy_version.py:225-297 | the uninterrupted publish call |
| PolicyLineage.PolicyStore.ApplyPolicyControl | core/storage.py:1299-1350 | action record and upsert together or neither |
| PolicyLineage.PolicyStore.ApplyControl | core/policy_version.py:394-474 | the uninterrupted control call |
| PolicyLineage.PolicyStore.RegisterPolicyVersion | core/storage.py:1203-1225 | replace and commit |
| PolicyLineage.GovernedEngine.AssertGovernedControl | core/engine.py:49-66 | decides the gate |
| PolicyLineage.GovernedEngine.SignedPolicyVersion | core/engine.py:68-87 | an artifact is returned exactly when the gate passes, and never outlives a refusal |
| RollingLimits.PaymentDecisionExactly | core/engine.py:118-178 | blocked exactly by a hard rule, else allowed exactly when nothing asks for confirmation |
| RollingLimits.ActionDecisionExactly | core/rules.py:12-210 | a generic action is blocked exactly if out of scope, over its amount cap or over the rate, and allowed otherwise |
| RollingLimits.PaymentRecorded | core/storage.py:425-468 | a payment leaves one row with what was paid to whom and the decision |
| RollingLimits.ActionRecorded | core/storage.py:389-422 | an action leaves one row with its plain amount, its target as payee and the decision |
| RollingLimits.QueriesSnoc | core/storage.py:490-527 | one more row adds its amount to the spend exactly if it is a recent ALLOW or WARN of agent and asset, and one to the calls if it is recent |
| RollingLimits.RunJustified | core/engine.py:118-200 | every audit row of every run is justified by the rows before it |
| RollingLimits.DailyCapBounds | core/rules.py:288-303 | any 24 hours: allowed payments sum to at most the cap plus what negative records gave back |
| RollingLimits.DailyCapHolds | core/storage.py:490-512 | the cap itself when no generic action recorded a negative amount |
| RollingLimits.CapKeptExactly | core/storage.py:389-422 | under a policy with only a daily cap: kept by all runs exactly if recorded generic amounts are non-negative |
| RollingLimits.RateLimitBounds | core/rules.py:317-325 | any 60 seconds: at most the rate limit of decisions that are not BLOCK |
| RollingLimits.GuardrailEngine.SpentToday | core/storage.py:490-512 | the spend query |
| RollingLimits.GuardrailEngine.CallsLastMinute | core/storage.py:514-527 | the rate query |
| RollingLimits.GuardrailEngine.PayeeSeenBefore | core/storage.py:470-488 | the first-payment query |
| RollingLimits.GuardrailEngine.Evaluate | core/engine.py:107-200 | one payment: decision and exactly one new row |
| RollingLimits.GuardrailEngine.EvaluateAction | core/engine.py:203-243 | one generic action: decision and exactly one new row |
| ArcCalldata.UnitsExactly | integrations/arc.py:41-55 | the base units are exact if and only if the amount fits 28 significant digits |
| ArcCalldata.ConvertsExactly | integrations/arc.py:41-55 | within the precision a positive amount converts exactly if it is a whole number of base units within uint256, and to that number |
| ArcCalldata.RefusedExactly | integrations/arc.py:41-55 | why an amount is refused: not positive, no whole number of units, or one beyond uint256 |
| ArcCalldata.RoundsToNearest | integrations/arc.py:49 | rounding to the working precision goes to the nearest, ties to even |
| ArcCalldata.ExcessExactly | integrations/arc.py:49 | as many digits go as leave at most 28 |
| ArcCalldata.ShortAmountsFit | integrations/arc.py:49-53 | every amount of at most 28 digits fits |
| ArcCalldata.LongAmountsCollide | integrations/arc.py:49-53 | two amounts of 29 digits with the same units |
| ArcCalldata.DecodesToPayment | integrations/arc.py:58-67 | fixed length and selector 0xa9059cbb, and decoding gives back recipient and units |
| ArcCalldata.CalldataIsInjective | integrations/arc.py:58-67 | equal calldata exactly for the same recipient and amount |
| ArcCalldata.AddressExactly | integrations/arc.py:28-38 | an address is 0x and forty hexadecimal digits |
| ArcCalldata.ValidatesExactly | integrations/arc.py:111-124 | accepts exactly the transaction on chain 5042 to 0x3600…0000 without native value that a contract reads as this payment |

## Left out

- Ed25519, SHA-256, base64, key providers: signatures are membership, digests are values.
- SQLite files, schema migration and locking: a table is a sequence or a map and a transaction is one step.
- HTTP routes, command line, demos, RPC, chain and MCP clients, live-state verifiers: where a decision depends on one it is a boolean argument (`otherChecks`, `authorizationOk`, `signatureOk`).
- Binary floating point: amounts, multipliers and times are exact; NaN and infinities do not occur.
- JSON typing checks, malformed `amount_exact` strings and digest lengths: the records are typed.
- Letter case folds ASCII only.
- Recursion limits of the Python interpreter.
- PolicyLineage.LatestIsHighest: of two versions with one number the code may read either as latest, the model reads the one stored first.
- `governance_approvals` is one table in the code; resets and policy publication each get their own copy here, so reuse of one approval nonce across the two services is not excluded.
- Attestors, outcome claims, proof packages and the near copy of the recomputation in tools/verigate_proof_verifier.py.
- The authority graph edges that `delegate` and `revoke` also write: they carry no authority.
- `explain`, `as_dict` and the other reporting functions.
- DynamicAuthority.DynamicAuthorityService.TakeSnapshot: states an uninterrupted call; what overlap changes is in AuthorityWorlds.
- AuthorityResets.AuthorityGovernanceService.ApplyReset: states an uninterrupted call; what overlap changes is in AuthorityWorlds.
- AuthorityResets.ResetLeavesSuspension: states an uninterrupted call; AuthorityWorlds.RefreshedSuspendedExactly says when overlap breaks it.
- PolicyLineage.PolicyStore.Publish: states an uninterrupted call; what overlap changes is in PolicyRuns.
- PolicyLineage.PolicyStore.ApplyControl: states an uninterrupted call; what overlap changes is in PolicyRuns.
- PolicyLineage.ControlActsOnLineage: states an uninterrupted call; PolicyRuns.ControlActsOnActiveExactly says when an overlapped one does the same.
- Execution.ExecutionRouter.ConfirmReceipt: the stored document takes the passed receipt's id while the id column stays; the model keeps the column.
- EvidenceManifest.VerifyNodes: the "malformed node" and "malformed edge" cases do not arise on typed records.
- Delegation.CapabilityRegistry.Delegate: states an uninterrupted call; what overlap changes is in DelegationRuns.
- Delegation.DelegationYieldsEffective: states an uninterrupted call; DelegationRuns.DelegatedEffectiveExactly says what an overlapped one yields.
- DynamicAuthority.DynamicAuthorityService.Record: states an uninterrupted call; what overlap changes is in LedgerRuns.
- AuthorityRuns.LearningAcceptsRun: the learning lifecycle is its two storage steps; the outcome checks before them are the hypothesis that the event matches claim and attestation.
- ArcCalldata.DecodesToPayment: amounts arrive parsed; converting a string or a float to a decimal is not modelled.
