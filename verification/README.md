# WarpDrive contracts: a weighted signer registry, a quorum verifier and a replay-protected handler

WarpDrive's on-chain core is a chain of three contracts. A **security** contract keeps a
Proof-of-Authority registry: each signer's weight and the total weight are timelines of
`(ledger, value)` entries, pruned on every push. A **verification** contract accepts an
envelope when signers listed in strictly ascending key order, each validly signing and
registered at a reference block, together reach the weight required at that block. A
**handler** contract admits an envelope once, for a reference block strictly in the past and
at most 200 ledgers old. A **project root** tracks the handlers and governs the others; a
small **multisig account** can stand behind any admin address.

The central question is whether pruned, independently trimmed timelines ever let a wrong
verdict through. The reference everything is compared with is the registry's own published
event log, replayed in full (`SignerLog`): nothing in it is pruned, cached or searched.

## How the model is organised

| file | contents |
|---|---|
| `ints.dfy`, `sums.dfy`, `keys.dfy` | machine widths; sums over finite sets; key order and the sorted key list |
| `history.dfy` | timelines as values, the pruned and the unpruned run of a write sequence |
| `vec_history.dfy`, `checkpoint.dfy` | the code of the two timeline modules |
| `signer_log.dfy` | the true history: replay of the signer events |
| `registry.dfy`, `threshold.dfy` | the registry's storage, its invariant against the log, and the threshold arithmetic |
| `verification.dfy`, `quorum.dfy` | the verifier's loop, its declarative meaning, and what acceptance proves about the true history |
| `handler.dfy`, `admin.dfy`, `world.dfy` | the handler's checks, admin transfer, and whole interleaved runs |
| `security_contract.dfy`, `verification_contract.dfy`, `handler_contract.dfy` | the contracts' code as classes |
| `deployment.dfy` | one deployed stack; executing transactions takes exactly the steps of `World` |
| `project_root.dfy`, `multisig.dfy` | handler tracking and governance; the n-of-m account |

Conventions. The secp256k1 and the ed25519 stacks are line-for-line twins, so each contract
is modelled once: keys are byte strings in lexicographic order, and the signature scheme is
any function to *good*, *bad* or *trap* (the host stops the call). Rows cite the secp256k1 or
ethereum copy unless only the other one matters. `require_auth` holds when the call's
authorization set contains the address. A panic, like an error result, undoes the call.
Ledger numbers, weights and the 128-bit product carry their machine bounds; the release
profile checks overflow (Cargo.toml:37), so an overflow is a panic. Stored weights are `u64`
and a stored threshold is a fraction in (0, 1], which the constructor and `set_threshold`
establish. A stored timeline is loaded, edited as one vector and saved back; the
`VecHistory` methods take the loaded vector and return the saved one.

## Where the code and its documentation differ

- The security contracts' READMEs (contracts/secp256k1-security/README.md:21) and
  packages/shared/README.md:26 say the registry is backed by `checkpoint`. The code imports
  `vec_history` (contracts/secp256k1-security/src/storage.rs:6); the model follows the code
  and keeps `checkpoint` as the unpruned counterpart.
- contracts/project-root/README.md:35 says the project root calls no other contract; its code
  forwards calls and queries handlers.
- contracts/secp256k1-verification/README.md:73 says an invalid signature gives an error and never a
  panic. Key recovery can stop the call, so a scheme may trap here for both key types.
- Lookups stay exact one ledger longer than the cutoff suggests: through age 201, while the
  handlers admit age 200. Age alone promises no more: `WindowIsTight`, `ConservationIsTight`
  and `VerdictWindowIsTight` are failing inputs at age 202. What decides beyond that is how
  far back the total timeline still reaches, since it is the first to forget
  (`TotalForgetsFirst`); `ConservationExactly`, `VerdictExactly` and `AcceptedExactly` give
  the exact conditions at every age.

## Model

| member | source | states |
|---|---|---|
| History.PrunedRefinesUnpruned | packages/shared/src/vec_history.rs:31-109 | for any pushes at non-decreasing ledgers up to `now`, a pruned lookup equals the unpruned one and the last write before it for every ledger from `now - cutoff - 1` on; the latest values agree |
| History.PrunedLookup | packages/shared/src/vec_history.rs:50-100 | at any ledger a pruned lookup is the true value or 0, and it is wrong exactly when the oldest survivor is newer than the ledger and the true value is not 0 |
| History.PrunedRunKeepsTail | packages/shared/src/vec_history.rs:50-67 | the stored timeline is a tail of the unpruned one; if anything was dropped, the oldest survivor is itself older than the cutoff |
| History.WindowIsTight | packages/shared/src/vec_history.rs:50-67 | for every cutoff, one ledger further back the pruned and unpruned lookups can differ |
| History.BusierForgetsFirst | packages/shared/src/vec_history.rs:50-67 | if one timeline is written whenever another is, and the quieter one has dropped entries, the quieter one still reaches back at least as far |
| History.StorageIsBounded | packages/shared/src/vec_history.rs:31-67 | a timeline never holds more than cutoff + 2 entries |
| History.PushedIsBounded | packages/shared/src/vec_history.rs:28-67 | a push leaves at most one entry older than the cutoff |
| History.PrunedRunEndsAtLastWrite | packages/shared/src/vec_history.rs:31-47 | stored ledgers stay strictly ascending and the last entry is the last write |
| History.FullRunIsLastWrite | packages/shared/src/checkpoint.rs:21-69 | the unpruned timeline answers every lookup with the last write at or before the ledger |
| History.AtFinds | packages/shared/src/vec_history.rs:69-100 | a lookup is the value of the entry at or before the target whose successor is after it |
| VecHistory.LookupAt | packages/shared/src/vec_history.rs:71-100 | the ceiling-midpoint binary search finds that value on any ascending timeline, terminates, and never takes `mid - 1` below 0 |
| VecHistory.Push | packages/shared/src/vec_history.rs:31-47 | coalesces with an entry of the same ledger or appends, then prunes |
| VecHistory.Prune | packages/shared/src/vec_history.rs:50-67 | drains all entries before the cutoff but the newest, and no others |
| Checkpoint.CheckpointStore.Push | packages/shared/src/checkpoint.rs:21-35 | coalesces or adds a slot; panics only when the slot count would pass 32 bits |
| Checkpoint.CheckpointStore.LookupAt | packages/shared/src/checkpoint.rs:39-69 | the same binary search over numbered slots is correct and terminates |
| Checkpoint.CheckpointStore.LatestValue | packages/shared/src/checkpoint.rs:72-79 | the last slot's value, or 0 |
| SignerLog.KeyWritesReplay | contracts/secp256k1-security/src/storage.rs:104-115 | the writes made to a signer's timeline tell its true weight at every ledger, removals of absent signers included |
| SignerLog.TotalWritesReplay | contracts/secp256k1-security/src/storage.rs:90-117 | the running totals written tell the sum of all true weights at every ledger |
| SignerLog.LaterEventsDoNotMatter | contracts/secp256k1-security/src/storage.rs:126-154 | later events do not change weights or totals of earlier ledgers |
| Registry.AddMirrors | contracts/secp256k1-security/src/storage.rs:90-106 | an add that does not panic keeps timelines, total and key list equal to what the log dictates |
| Registry.RemoveMirrors | contracts/secp256k1-security/src/storage.rs:108-117 | a removal never panics and keeps the same invariant |
| Registry.AddPanicsOnOverflow | contracts/secp256k1-security/src/storage.rs:90-105 | the subtraction never underflows, and adding panics exactly when the new true total exceeds 64 bits |
| Registry.CurrentIsTrue | contracts/secp256k1-security/src/storage.rs:84-122 | current weight and total queries return the true current values |
| Registry.LookupIsTrueOrZero | contracts/secp256k1-security/src/storage.rs:126-154 | at any reference block a historical weight or total is the true one or 0 |
| Registry.WindowIsTrue | contracts/secp256k1-security/src/storage.rs:12-12 | inside the window historical weights and totals are the true ones |
| Registry.Conservation | contracts/secp256k1-security/src/storage.rs:90-154 | inside the window the stored total is the sum of the stored weights of every key ever registered, though each timeline prunes on its own |
| Registry.TotalForgetsFirst | contracts/secp256k1-security/src/storage.rs:104-115 | the total timeline is the first to forget: a signer's timeline that has dropped entries reaches back at least as far |
| Registry.CoveredIsTrue | contracts/secp256k1-security/src/storage.rs:126-154 | at any age, where the total timeline still reaches, every signer's answer and the total are true |
| Registry.ConservationExactly | contracts/secp256k1-security/src/storage.rs:90-154 | at any age, the stored total is the sum of the stored weights if and only if the total timeline reaches back to the ledger or every stored weight there is 0 |
| Registry.ConservationIsTight | contracts/secp256k1-security/src/storage.rs:104-115 | a witness beside `ConservationExactly`: 202 ledgers back, with the total no longer reaching and a signer still answering, conservation fails |
| Registry.TimelinesAreBounded | contracts/secp256k1-security/src/storage.rs:283-335 | every stored timeline holds at most 202 entries |
| Registry.ListingIsComplete | contracts/secp256k1-security/src/storage.rs:158-167 | the listing is sorted, holds exactly the keys with weight, and gives their true weights |
| Registry.ListingSumsToTotal | contracts/secp256k1-security/src/storage.rs:158-167 | the listed weights sum to the stored total |
| Keys.InsertIsSorted | contracts/secp256k1-security/src/storage.rs:196-213 | inserting keeps the list sorted and adds exactly the key |
| Keys.RemoveIsSorted | contracts/ed25519-security/src/storage.rs:215-228 | removing keeps the list sorted and removes exactly the key, so the early break is safe |
| Keys.LessIsLexicographic | contracts/secp256k1-verification/src/contract.rs:132-137 | the key order is the lexicographic one on bytes: the first differing byte decides, and a proper prefix comes first |
| Keys.LessComparesBytes | contracts/secp256k1-verification/src/contract.rs:132-137 | for keys of one length, the smaller key is the one with the smaller byte where the two first differ |
| Threshold.RequiredWeightIsFloor | contracts/secp256k1-security/src/contract.rs:137-141 | the 128-bit product fits, the cast truncates nothing, the result is the exact floor and at most the total, and is 0 exactly when total * numerator < denominator |
| Threshold.FloorIsMonotone | contracts/secp256k1-security/src/contract.rs:155-159 | the requirement never falls as the total grows |
| SecurityContract.Security.Deploy | contracts/secp256k1-security/src/contract.rs:18-41 | deploys exactly for 0 < numerator <= denominator, with each of the three errors under its own exact condition; the deployed registry holds that threshold, is empty and is consistent with its empty log at every ledger |
| SecurityContract.Security.AddSigner | contracts/secp256k1-security/src/contract.rs:79-88 | exactly when it panics, fails or succeeds, in terms of the true weights; it publishes one event and keeps the invariant, or changes nothing |
| SecurityContract.Security.RemoveSigner | contracts/secp256k1-security/src/contract.rs:90-95 | panics exactly without the admin's authority; publishes an event even when nothing is stored; keeps the invariant |
| SecurityContract.Security.SetThreshold | contracts/secp256k1-security/src/contract.rs:97-111 | panics exactly without the admin's authority, succeeds exactly when authorized with 0 < numerator <= denominator, and gives each error under its own exact condition; only the threshold changes, and only on success |
| SecurityContract.Security.StoreSigner | contracts/secp256k1-security/src/storage.rs:90-106 | the storage update, with the host's rollback when the checked addition fails after the key list was written |
| SecurityContract.Security.DropSigner | contracts/secp256k1-security/src/storage.rs:108-117 | the storage update of a removal |
| SecurityContract.Security.InsertAllSigners | contracts/secp256k1-security/src/storage.rs:196-213 | the scan with early exit inserts before the first larger key |
| SecurityContract.Security.RemoveAllSigners | contracts/secp256k1-security/src/storage.rs:215-228 | the scan with early exit removes the key |
| SecurityContract.Security.PushSigner | contracts/secp256k1-security/src/storage.rs:283-305 | one key's timeline is loaded, pushed and saved; no other timeline changes |
| SecurityContract.Security.PushTotal | contracts/secp256k1-security/src/storage.rs:317-335 | the total timeline is loaded, pushed and saved |
| SecurityContract.Security.GetSignerWeight | contracts/secp256k1-security/src/storage.rs:119-122 | none exactly for weight 0 |
| SecurityContract.Security.LookupSigner | contracts/secp256k1-security/src/storage.rs:126-128 | one key's timeline is loaded and searched |
| SecurityContract.Security.LookupSigners | contracts/secp256k1-security/src/storage.rs:139-150 | the loop looks each key up in order |
| SecurityContract.Security.GetSignerWeightAt | contracts/secp256k1-security/src/contract.rs:121-123 | the true weight inside the window and wherever the total still reaches, the true weight or 0 anywhere |
| SecurityContract.Security.GetTotalWeightAt | contracts/secp256k1-security/src/contract.rs:133-135 | the true total inside the window; anywhere, the true total exactly where the timeline reaches, else 0 |
| SecurityContract.Security.GetSignerWeightsAt | contracts/secp256k1-security/src/contract.rs:129-131 | the batch query: key by key the true weight under the same conditions, the true weight or 0 anywhere |
| SecurityContract.Security.RequiredWeightAt | contracts/secp256k1-security/src/contract.rs:137-141 | the floor of the true total times the fraction inside the window and where the total still reaches, else 0 |
| SecurityContract.Security.ListSigners | contracts/secp256k1-security/src/storage.rs:158-167 | the loop lists the keys with weight in stored order |
| Verification.AcceptedIffQuorum | contracts/secp256k1-verification/src/contract.rs:100-156 | accepted exactly when the lists are non-empty and equally long, the requirement is not 0, keys ascend strictly, every pair is validly signed and registered, and the weights reach the requirement within 64 bits |
| Verification.FirstFaultDecides | contracts/secp256k1-verification/src/contract.rs:128-149 | the first entry that is not clean decides the error: order before signature before registration |
| Verification.OtherRejections | contracts/secp256k1-verification/src/contract.rs:108-153 | exactly when the list, length, zero-requirement and insufficient-weight errors are given |
| Verification.OnlySignaturesTrap | contracts/ed25519-verification/src/contract.rs:148-167 | when weights fit, the call stops exactly when the first unclean entry has a trapping signature |
| Verification.VerifyIsCheckOnePerPair | contracts/secp256k1-verification/src/contract.rs:75-156 | `verify` accepts exactly when `check_one` at that block succeeds for every pair and the weights it returns reach the requirement in key order |
| Verification.OneAcceptedOrder | contracts/secp256k1-verification/src/contract.rs:132-137 | a set of signers is accepted in one order only |
| Quorum.AcceptedUsedTheTruth | contracts/secp256k1-verification/src/contract.rs:116-153 | acceptance at any reference block, however old, used the true weights and the true requirement |
| Quorum.AcceptedIsBacked | contracts/secp256k1-verification/src/contract.rs:116-156 | so it is backed by distinct keys, validly signing and truly holding the required weight then |
| Quorum.WindowVerdictIsTrue | contracts/secp256k1-verification/src/contract.rs:100-156 | inside the window the whole verdict, errors included, is the one an observer of the full log reaches |
| Quorum.TrueVerdictIffBacked | contracts/secp256k1-verification/src/contract.rs:100-156 | that observer accepts exactly the backed submissions |
| Quorum.WindowAcceptsIffBacked | contracts/secp256k1-verification/src/contract.rs:100-156 | inside the window the verifier accepts exactly the backed submissions |
| Quorum.VerdictExactly | contracts/secp256k1-verification/src/contract.rs:100-156 | at any age, the verdict is the true one if and only if the total timeline reaches back to the block, the lists are empty or of unequal length, or nothing is truly required |
| Quorum.UncoveredIsZeroRequired | contracts/secp256k1-verification/src/contract.rs:119-123 | where the total timeline no longer reaches, every well-formed submission gets the zero-requirement error |
| Quorum.AcceptedExactly | contracts/secp256k1-verification/src/contract.rs:100-156 | at any age, a submission is accepted if and only if it is backed and the total timeline reaches back to its block |
| Quorum.CheckOneIsTrue | contracts/secp256k1-verification/src/contract.rs:89-97 | `check_one` returns the true current weight, or inside the window the true weight at the block |
| Quorum.VerifyNeverOverflows | contracts/secp256k1-verification/src/contract.rs:148-148 | every addition the loop reaches fits 64 bits, for every signer list and block, so the overflow panic is unreachable and only a trapping signature stops the call |
| Quorum.VerdictIsStable | contracts/ed25519-verification/src/contract.rs:117-174 | with the threshold unchanged a past block's verdict is the same at every ledger of the window |
| Quorum.QuorumsIntersect | contracts/secp256k1-verification/src/contract.rs:119-153 | two backed submissions at one block, each under its own threshold, share weight at least the two requirements less the total |
| Quorum.ListedSignersAreAccepted | contracts/secp256k1-security/src/storage.rs:158-228 | the listed signers in listed order, validly signing, are accepted exactly when total * numerator >= denominator, if no signer changed since the block |
| Quorum.VerdictWindowIsTight | contracts/secp256k1-security/src/storage.rs:12-12 | a witness beside `VerdictExactly`: 202 ledgers back a submission the true history accepts is rejected |
| VerificationContract.Verifier.Tally | contracts/secp256k1-verification/src/contract.rs:125-155 | the loop accepts exactly the quorums within 64 bits, keys ascending byte by byte, and otherwise gives the first fault |
| VerificationContract.Verifier.Verify | contracts/secp256k1-verification/src/contract.rs:100-156 | the call's verdict: acceptance exactly for backed submissions at a block the total still reaches, and the true verdict inside the window |
| VerificationContract.Verifier.CheckOne | contracts/secp256k1-verification/src/contract.rs:75-98 | with or without a block: the signature error exactly for a bad signature, a stop exactly for a trapping one, and for a good one the true current weight, or the true weight at the block as far back as the signer's timeline reaches, an error exactly when that is 0 |
| HandlerContract.EnvelopeHandler.VerifyEnvelope | contracts/ethereum-handler/src/contract.rs:104-148 | the error is the one the full history dictates, in the code's order; success exactly for timely, decodable, not yet accepted and truly backed submissions, which join the accepted envelopes; the stored ids, payloads and events stay the record of those envelopes |
| HandlerContract.EnvelopeHandler.IsEventSeen | contracts/ethereum-handler/src/storage.rs:49-61 | true exactly for the ids of accepted envelopes |
| HandlerContract.EnvelopeHandler.Commit | contracts/ethereum-handler/src/contract.rs:137-145 | marking, saving and publishing keep ids, payloads and events the record of the accepted envelopes |
| HandlerContract.EnvelopeHandler.GetPayload | contracts/ethereum-handler/src/storage.rs:83-94 | the payload of the accepted envelope with that id, and none exactly if there is no such envelope |
| World.EveryAcceptanceIsBacked | contracts/ethereum-handler/src/contract.rs:104-148 | in every run each accepted event was backed at a block strictly past and at most 200 old, by weights read off the final event log, under the threshold in force at acceptance |
| World.AcceptancesIntersect | contracts/secp256k1-verification/src/contract.rs:119-153 | two acceptances anywhere in a run at one block share a signer when their requirements together exceed the total, even with a threshold change between them |
| World.VerdictsAreStable | contracts/ed25519-verification/src/contract.rs:117-174 | whatever a run does in between, a past block's verdict stays while it is in the window and the threshold is the same |
| World.ReachableConservation | contracts/secp256k1-security/src/storage.rs:90-154 | conservation, true lookups and the 202-entry bound hold in every reachable world |
| World.ReachableListing | contracts/ed25519-security/src/storage.rs:90-228 | key-list, total and panic conditions hold in every reachable world |
| World.ReachableExactly | contracts/secp256k1-verification/src/contract.rs:100-156 | in every reachable world and at any age, the exact conditions for conservation, for the true verdict and for acceptance |
| World.ReachableVerifyNeverOverflows | contracts/secp256k1-verification/src/contract.rs:148-148 | in every reachable world every addition the verifier reaches fits 64 bits |
| World.ReachableScreen | contracts/stellar-handler/src/contract.rs:106-149 | in every reachable world a submission gets through exactly when it is timely, decodable, not accepted before and backed by the true history |
| World.ListedSignersGetThrough | contracts/ethereum-handler/src/contract.rs:104-148 | in every reachable world a fresh, timely envelope signed by exactly the listed signers is accepted exactly when total * numerator >= denominator, if no signer changed since its block |
| World.AtMostOnce | contracts/stellar-handler/src/contract.rs:123-148 | each id is accepted at most once; seen ids and payloads are exactly the accepted ones; the events are one Verified and one Triggered per acceptance, in order |
| World.PayloadsAreFinal | contracts/stellar-handler/src/storage.rs:72-94 | a stored payload never changes |
| World.AdminChangesHands | packages/shared/src/admin.rs:5-25 | in every run the registry's admin changes only by the outgoing admin's proposal and the nominee's own accept |
| World.EveryEventWasAuthorized | contracts/secp256k1-security/src/contract.rs:79-95 | every event of the final log was published by the call of the admin then in office that adds or removes that very key |
| World.ThresholdWasAuthorized | contracts/secp256k1-security/src/contract.rs:97-111 | a threshold in force other than the initial one was set by the admin of its time with valid numbers and has stood since |
| World.CallsTakeEffect | contracts/secp256k1-security/src/contract.rs:79-111 | in every reachable world a call that meets its conditions takes effect: an authorized add gives the key its weight in the true history and in storage, a removal takes it away, a valid threshold is installed, a proposal stands, an acceptance installs the nominee, an accepted envelope leaves its payload |
| Deployment.Stack.Execute | contracts/ethereum-handler/src/contract.rs:104-148 | running the contracts' code for one transaction is one step of the run model |
| Deployment.Stack.ExecuteAll | contracts/ethereum-handler/src/contract.rs:104-148 | running any transactions is the run the theorems speak about |
| Admin.PendingWasNominated | packages/shared/src/admin.rs:5-11 | a pending admin was proposed, with authority, by the admin still in office |
| Admin.EveryHandover | packages/shared/src/admin.rs:15-25 | a change of admin is the nominee's own accept of a standing proposal by the outgoing admin |
| Admin.AdminStore.ProposeAdmin | packages/shared/src/admin.rs:5-11 | succeeds exactly with the admin's authority; then the pending nominee is the proposed one, whoever was pending, and one event names both |
| Admin.AdminStore.AcceptAdmin | packages/shared/src/admin.rs:15-25 | succeeds exactly with the nominee's authority; then the nominee is the admin and nothing is pending; otherwise nothing changes |
| ProjectRoot.RootRunKeepsInv | contracts/project-root/src/storage.rs:97-118 | in every run the tracked set has no duplicates, excludes the security and verification contracts, and is the replay of events in which nothing is registered or removed twice |
| ProjectRoot.TrackedWasVetted | contracts/project-root/src/contract.rs:242-276 | a tracked handler was vetted in an admin-authorized step and not unregistered since |
| ProjectRoot.OnlyTheAdminChangesTheHandlers | contracts/project-root/src/contract.rs:227-276 | the tracked set changes only with the admin's authority, by one handler, and shrinks only by explicit unregistration |
| ProjectRoot.RootAdminChangesHands | contracts/project-root/src/contract.rs:128-135 | the project's admin changes only by proposal and accept |
| ProjectRoot.Root.Register | contracts/project-root/src/contract.rs:254-268 | each of the four replies under its exact condition; success exactly for the admin registering a third address that answers with this verification contract; then the handler is tracked, with one event exactly if it was not before |
| ProjectRoot.Root.Unregister | contracts/project-root/src/contract.rs:270-276 | succeeds exactly with the admin's authority; then that handler, and no other, is gone, with one event exactly if it was tracked |
| ProjectRoot.Root.AcceptAdminOf | contracts/project-root/src/contract.rs:242-252 | each reply under its exact condition: a foreign target is refused, a typed error is passed on, any other failure is a panic; a handler joins the set exactly when the forwarded call returns, and nothing else leaves a trace |
| ProjectRoot.Root.Forward | contracts/project-root/src/contract.rs:214-240 | proposing an admin for a governed contract or upgrading one: each reply under its exact condition, one record on success, and the tracked set stays |
| ProjectRoot.Root.FirstIndexOf | contracts/project-root/src/storage.rs:97-112 | the first index of a handler, if any |
| ProjectRoot.Root.AddHandler | contracts/project-root/src/storage.rs:97-105 | adds and publishes exactly when not tracked |
| ProjectRoot.Root.RemoveHandler | contracts/project-root/src/storage.rs:109-118 | removes and publishes exactly when tracked |
| Multisig.ApprovalsIntersect | contracts/multisig-account/src/lib.rs:131-159 | two approvals under one configuration share at least 2 * threshold - m signers |
| Multisig.MultisigAccount.Construct | contracts/multisig-account/src/lib.rs:78-98 | succeeds exactly for 1 <= threshold <= m with distinct keys, with each of the three errors under its own exact condition; nothing is stored on failure |
| Multisig.MultisigAccount.CheckAuth | contracts/multisig-account/src/lib.rs:125-160 | authorizes exactly lists of at least `threshold` distinct registered keys with valid signatures; otherwise the first failing entry decides, each error under its own condition; a configured account never authorizes an empty list |

## Left out

- Cryptography: hashing, key recovery, signature verification and the message formats (EIP-191, SEP-0053) are one uninterpreted scheme with three outcomes.
- Envelope decoding (ABI and XDR) is an uninterpreted partial function; both decoding steps of a handler are one here, since they give the same error.
- Storage TTL extension and archival, which do not change the logical state.
- `upgrade` and contract replacement, after which no invariant of the old code applies.
- The Soroban host beyond rollback and authorization sets: authorization trees, reentrancy, budgets, event encoding.
- `UnknownVerificationError`: it needs a reply the verifier's code cannot give.
- The admins of the verification and handler contracts, which only `upgrade` consults; the run model carries the registry's admin.
- A run has one handler.
- World.EveryAcceptanceIsBacked: the threshold is the one in force at acceptance, not at the reference block, because the code keeps no threshold history.
- ProjectRoot.Root.AcceptAdminOf: what the called contract does to its own state is not modelled, only how the call ends; the typed forwarding helpers differ only in the call they forward.
- VecHistory.Push: the load from and save to contract storage is the caller's map update, not part of this method.
- Project-spec URL, version strings, error code numbers, and plain getters such as the batch query of current weights.
- `packages/client`, `packages/deployer`, test vectors, docker and task files.
