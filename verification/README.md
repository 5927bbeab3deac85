# Verified models of ZKSettle

This project models the parts of ZKSettle whose correctness is hardest to see by
reading, and proves them with Dafny 4.11. `dafny verify dfyconfig.toml` checks
everything.

| file | models |
|---|---|
| `Field.dfy` | the scalar field, the two hash arities, the path fold both verifiers run |
| `SparseTree.dfy` | the sparse Merkle tree of sanctioned wallets, its proofs and verifier |
| `MerkleTree.dfy` | the membership and jurisdiction tree, its proofs and verifier |
| `Sanctions.dfy` | building the published sanctions tree |
| `Convert.dfy` | bytes, hex and field elements, as written in three places |
| `Issuer.dfy`, `Persist.dfy` | the issuer's credential state, its handlers, saving and loading |
| `Publication.dfy` | root publication with two uncoordinated writers |
| `Upload.dfy` | chunked proof upload over an unreliable network |
| `Calendar.dfy`, `Timestamp.dfy` | the two calendar formulas and the timestamp parser |
| `Siws.dfy` | sign-in messages from the dashboard's printer to the gateway's verdict |
| `Metering.dfy`, `Gateway.dfy`, `History.dfy` | quota, concurrent requests, daily usage |
| `Csv.dfy` | the event export against an RFC 4180 reader |
| `Dedup.dfy` | the indexer's nullifier cache and concurrent webhook deliveries |
| `Text.dfy`, `Arithmetic.dfy`, `Wrappers.dfy` | string operations, division facts and result types the others need |

## How things are modelled

- **Hashes.** Poseidon2 appears as two arbitrary functions in a `Hasher`; every tree
  theorem is quantified over it. Soundness is never "assuming no collisions", which no
  hash into a finite field satisfies. Instead the extractors `FindCollision` and
  `FindBreak` compute, from the tree and the offending proof, two different pairs with
  one hash, or a pair hashing to zero.
- **Depth** is a parameter; the services use 20. Fixed-size arrays appear as sequences
  with a length condition.
- **Objects** the services update in place are classes; loops are loops with invariants.
  Protocols (publication, concurrent requests, delivery of transactions and webhooks) are
  state machines over their steps, with the theorems about every run.
- **Machine integers.** The services are built with overflow checks
  (backend/Cargo.toml), so arithmetic that leaves its type is an outcome of its own
  (`Panics`) in `Timestamp`. The narrowing cast of the year is explicit in `Calendar`.
  In `Metering` times and counts are taken to be below 2^63.
- **Outside world.** Clocks, the page host, the rate limiter, upstream answers, database
  failures, whether a save succeeds and the enumeration order of a hash map are
  parameters or steps. A transaction may be confirmed, or reported as failed and then
  land at any later time or never; a webhook delivery may be interrupted at every await.

## What the code does not promise

Each of these is stated as a lemma with a concrete run, and with the exact condition
under which the code does what one would expect.

- "Clean and registered means published" holds throughout a run exactly when no step
  falsifies it (`CleanThroughoutIff`). Four kinds of step do: a commit whose snapshot is
  no longer current (`CommitRightIff`, `ChangeDuringPublicationIsLost`), a restart that
  loads roots other than those on chain (`RestartRightIff`, `RestartHidesChange`), a
  sanctions update (`StaleOverwriteRun`) and a late transaction (`LateLandingUndoes`).
  What is lost stays lost, restarts included, until the next change or foreign write
  (`LostChangeStaysLost`).
- The sanctions updater leaves membership and jurisdiction roots alone exactly when the
  ones it read are still on chain (`UpdaterHarmlessIff`, `LateUpdaterHarmlessIff`). It can
  never register an issuer (`UpdaterNeverRegisters`).
- A due publication works exactly when the service knows whether it is registered
  (`PublishesIff`). A registration that lands unseen (`UnseenRegistrationSticks`) or a
  start-up probe that fails (`FailedProbeSticks`) leaves it stuck, exactly until a restart
  whose probe works (`StuckUntilWorkingRestart`).
- A period rollover forgets requests in flight (`RolloverForgetsReservations`) and keeps
  the count right exactly when nothing was counted (`RolloverConservesIff`); over any
  number of periods the count is given by `ConservationAcrossPeriods`, and is the plain
  number of reservations exactly as `ConservedIff` says.
- Two overlapping deliveries of one nullifier both upload it
  (`OverlappingDeliveriesUploadTwice`); it is uploaded once exactly when no delivery was
  overtaken by another between its check and its mark (`ExactlyOnceIff`).
- `try_reserve` and `get` agree exactly when the limit is positive or the row is within
  its period (`ReserveAgreesWithGetIff`).
- The usage history sums to the calls of its days exactly when no call fell on a pruned
  day and day zero is not read again for days before the epoch (`HistoryExactIff`). 400
  days can miss a pruned bucket (`FourHundredDaysTooMany`); the endpoint clamps to 365, so
  only the epoch is left (`GetUsageHistory`).
- A statement with an empty line or a line containing ": " is cut short; exactly the
  others survive (`StatementSurvivesIff`).
- A leaf beyond 2^depth has a proof, which is accepted only by coincidence
  (`OverflowingProofAcceptedIff`, `OverflowingLeafCoincides`); one trailing zero leaf after
  an odd number of leaves is invisible in the root (`PaddingIsInvisible`).
- The comment "confirming the last write guarantees all prior writes landed" is right for
  a last write that succeeded (`LastWriteProvesAll`). The client does not look at whether
  a landed write succeeded, so it can return with an incomplete proof
  (`LandedFailureUnnoticed`, exactly when: `LandedLastWriteIff`).
- RFC 3339 section 5.7 allows a leap second; the parser rejects second 60.

## Model

| member | source | states |
|---|---|---|
| `Field.FoldPath` | backend/crates/zksettle-crypto/src/merkle.rs:113-121 | the verifier loop computes the fold of the path from the leaf upwards |
| `Field.FoldFromBottom` | backend/crates/zksettle-crypto/src/smt.rs:154-162 | the fold can be peeled at either end, which joins the bottom-up verifier to the top-down tree |
| `SparseTree.ComputeKeyBits` | backend/crates/zksettle-crypto/src/smt.rs:8-16 | picking bits out of little-endian bytes yields the low bits of the key |
| `SparseTree.KeyBitsSpellLowBits` | backend/crates/zksettle-crypto/src/smt.rs:8-16 | the key bits spell the key modulo 2^depth, so that is the slot |
| `SparseTree.Slot` | backend/crates/zksettle-crypto/src/smt.rs:46-48 | a wallet's slot spells its hash modulo 2^depth |
| `SparseTree.SlotIsUnique` | backend/crates/zksettle-crypto/src/smt.rs:46-48 | no other bit string of that length does |
| `SparseTree.SameSlotIff` | backend/crates/zksettle-crypto/src/smt.rs:46-48 | two wallets share a slot exactly when their hashes agree modulo 2^depth |
| `SparseTree.EmptySubtreeHashes` | backend/crates/zksettle-crypto/src/smt.rs:18-24 | the table holds the hash of the empty subtree of every height |
| `SparseTree.EmptySubtree` | backend/crates/zksettle-crypto/src/smt.rs:73-75 | a prefix with no leaf under it has the tabulated hash |
| `SparseTree.PruningIsExact` | backend/crates/zksettle-crypto/src/smt.rs:63-94 | the recursion with the empty-subtree shortcut equals the unpruned recursion over all slots, at every level and prefix |
| `SparseTree.HonestFold` | backend/crates/zksettle-crypto/src/smt.rs:118-134 | folding the sibling path from the stored value reaches the node of every level |
| `SparseTree.OpeningSound` | backend/crates/zksettle-crypto/src/smt.rs:137-169 | a path reaching the root opens the stored value, or the extractor returns a collision |
| `SparseTree.ForgedLeafCollides` | backend/crates/zksettle-crypto/src/smt.rs:154-166 | the extractor finds two different pairs with one hash whenever a wrong value reaches a node |
| `SparseTree.ExclusionProvableIffAbsent` | backend/crates/zksettle-crypto/src/smt.rs:96-169 | the service's proof is accepted when the slot is free; every proof accepted for an occupied slot yields a collision |
| `SparseTree.RootBindsSlot` | backend/crates/zksettle-crypto/src/smt.rs:58-86 | equal roots with a slot occupied in one tree only yield a collision |
| `SparseTree.RootDeterminesSlots` | backend/crates/zksettle-crypto/src/smt.rs:58-86 | trees with equal roots are equal, or a slot in which they differ yields two different pairs with one hash |
| `SparseTree.InsertRemoveRestores` | backend/crates/zksettle-crypto/src/smt.rs:46-56 | insert then remove restores a tree whose slot was free; otherwise the root returns only through a collision |
| `SparseTree.SparseMerkleTree.constructor` | backend/crates/zksettle-crypto/src/smt.rs:39-44 | a new tree is empty and its table is right |
| `SparseTree.SparseMerkleTree.Insert` | backend/crates/zksettle-crypto/src/smt.rs:46-50 | occupies the slot that spells the wallet's hash modulo 2^depth, and nothing else |
| `SparseTree.SparseMerkleTree.Remove` | backend/crates/zksettle-crypto/src/smt.rs:52-56 | frees the slot that spells the wallet's hash and reports whether it was occupied |
| `SparseTree.SparseMerkleTree.ComputeRoot` | backend/crates/zksettle-crypto/src/smt.rs:58-60 | returns the root of the unpruned tree |
| `SparseTree.SparseMerkleTree.ComputeSiblingPath` | backend/crates/zksettle-crypto/src/smt.rs:118-134 | entry i is the hash of the sibling subtree at level i |
| `SparseTree.SparseMerkleTree.ExclusionProof` | backend/crates/zksettle-crypto/src/smt.rs:96-115 | an error exactly when the slot that spells the wallet's hash is occupied, otherwise a proof of that slot the verifier accepts |
| `SparseTree.VerifySmtExclusion` | backend/crates/zksettle-crypto/src/smt.rs:137-169 | the errors in order: a non-zero value, indices other than those of the slot that spells the wallet's hash, another root; otherwise acceptance |
| `MerkleTree.HashLevel` | backend/crates/zksettle-crypto/src/merkle.rs:58-67 | the pairing loop with ZERO completing an odd level |
| `MerkleTree.Tree.Insert` | backend/crates/zksettle-crypto/src/merkle.rs:23-25 | appends the leaf |
| `MerkleTree.Tree.SetLeaf` | backend/crates/zksettle-crypto/src/merkle.rs:27-36 | replaces one leaf, or reports index and size |
| `MerkleTree.Tree.ZeroLeaf` | backend/crates/zksettle-crypto/src/merkle.rs:38-40 | revokes one leaf |
| `MerkleTree.Tree.ComputeRoot` | backend/crates/zksettle-crypto/src/merkle.rs:42-71 | the level loop yields the root, for the empty tree the hash of an empty subtree |
| `MerkleTree.Tree.Proof` | backend/crates/zksettle-crypto/src/merkle.rs:73-109 | the proof of the index, or the bounds error |
| `MerkleTree.BuildProof` | backend/crates/zksettle-crypto/src/merkle.rs:81-108 | the level loop of the proof computes the recursive sibling path |
| `MerkleTree.ProofEntry` | backend/crates/zksettle-crypto/src/merkle.rs:85-94 | entry d is the sibling of node index >> d in level d, or ZERO when absent |
| `MerkleTree.VerifyMerkleProof` | backend/crates/zksettle-crypto/src/merkle.rs:112-123 | accepts exactly when the fold is the root |
| `MerkleTree.HonestPathClimbs` | backend/crates/zksettle-crypto/src/merkle.rs:73-109 | the honest path leads to node index >> depth of the top level |
| `MerkleTree.HonestProofAccepted` | backend/crates/zksettle-crypto/src/merkle.rs:42-123 | every leaf below 2^depth has an accepted proof, although absent siblings are ZERO at every level |
| `MerkleTree.OverflowingProofAcceptedIff` | backend/crates/zksettle-crypto/src/merkle.rs:70-109 | for any index the proof is accepted exactly when its top node equals the first |
| `MerkleTree.OverflowingLeafCoincides` | backend/crates/zksettle-crypto/src/merkle.rs:70-123 | an accepted proof beyond the depth means that the leaf equals the one at index modulo 2^depth, or the hash is broken |
| `MerkleTree.EmptyTreeOpensOnlyZero` | backend/crates/zksettle-crypto/src/merkle.rs:46-56 | against the root of an empty tree every accepted non-zero leaf yields a collision |
| `MerkleTree.ForgeryBreaksHash` | backend/crates/zksettle-crypto/src/merkle.rs:112-123 | an accepted proof of anything else makes the extractor return a collision or a zero preimage |
| `MerkleTree.AcceptedProofIsGenuine` | backend/crates/zksettle-crypto/src/merkle.rs:42-123 | an accepted proof spelling index i opens leaf i, or the padding ZERO right after an odd number of leaves, or breaks the hash |
| `MerkleTree.ZeroedIndexAdmitsOnlyZero` | backend/crates/zksettle-crypto/src/merkle.rs:38-40 | no proof opens a non-zero leaf at a zeroed index without breaking the hash |
| `MerkleTree.RootDeterminesLeaves` | backend/crates/zksettle-crypto/src/merkle.rs:46-71 | equal roots of at most 2^depth leaves mean equal leaves up to one trailing ZERO after an odd length, or a break found by replaying an honest proof |
| `MerkleTree.PaddingIsInvisible` | backend/crates/zksettle-crypto/src/merkle.rs:63-64 | that trailing ZERO really does not change the root |
| `Sanctions.BuildSanctionsTree` | backend/crates/sanctions-updater/src/build.rs:6-17 | fails exactly when some wallet is malformed; otherwise occupies the wallets' slots and publishes that root |
| `Sanctions.RootIgnoresOrder` | backend/crates/sanctions-updater/src/build.rs:9-14 | permuting or repeating the list does not change the root |
| `Sanctions.OccupiedIffHashListed` | backend/crates/sanctions-updater/src/build.rs:9-14 | a wallet's slot is occupied exactly when its hash agrees modulo 2^depth with that of a listed wallet |
| `Sanctions.RootBindsList` | backend/crates/sanctions-updater/src/build.rs:9-14 | lists with one root occupy the same slots or yield a collision |
| `Convert.ReverseBytes` | backend/crates/sanctions-updater/src/convert.rs:6-12 | the in-place reversal loop |
| `Convert.FieldRoundTrip` | backend/crates/issuer-service/src/convert.rs:6-22 | decoding the encoding of a field element returns it |
| `Convert.BytesRoundTripIff` | backend/crates/issuer-service/src/convert.rs:6-22 | encoding the decoding of 32 bytes returns them exactly below the modulus |
| `Convert.BigEndian` | backend/crates/issuer-service/src/convert.rs:16-22 | bytes are read big end first |
| `Convert.DashboardAgrees` | frontend/src/lib/prove-flow.ts:177-184 | the dashboard's shift-and-add reduction equals the issuer's conversion |
| `Convert.LeBytesAt` | backend/crates/zksettle-crypto/src/smt.rs:9-13 | the bytes the key bits are picked from are those of the encoding |
| `Convert.HexRoundTrip` | backend/crates/issuer-service/src/convert.rs:24-36 | hex text decodes to the bytes it encodes |
| `Convert.HexDecodesIff` | backend/crates/issuer-service/src/convert.rs:24-36 | exactly the texts of an even number of hex digits of either case decode |
| `Convert.HexIgnoresCase` | backend/crates/issuer-service/src/convert.rs:24-36 | what a text decodes to encodes to the same text in lower case |
| `Convert.WalletHexRoundTrip` | backend/crates/issuer-service/src/convert.rs:42-54 | a wallet is accepted with and without 0x, and only with 32 bytes |
| `Issuer.IssuerState.constructor` | backend/crates/issuer-service/src/state.rs:37-50 | a new state is empty, unregistered, clean, and its jurisdiction tree holds the one jurisdiction leaf |
| `Issuer.IssuerState.IssueCredential` | backend/crates/issuer-service/src/handlers/issue_credential.rs:27-68 | appends the wallet's leaf under the next index and keeps the index invariant; a failed save is reported and the credential stays |
| `Issuer.IssuerState.RevokeCredential` | backend/crates/issuer-service/src/handlers/revoke_credential.rs:15-71 | zeroes the leaf, lifts the sanction, marks the record; each error has its case, and on any error, a failed save included, the whole state is as before |
| `Issuer.IssuerState.MembershipProof` | backend/crates/issuer-service/src/handlers/get_proof.rs:19-48 | a live credential's proof is accepted for its own wallet's leaf under the current root |
| `Issuer.IssuerState.JurisdictionProof` | backend/crates/issuer-service/src/handlers/get_jurisdiction_proof.rs:19-50 | a live credential's holder gets a proof of the jurisdiction leaf that is accepted under the current root |
| `Issuer.MembershipMeansLive` | backend/crates/issuer-service/src/handlers/revoke_credential.rs:36-46 | any accepted membership proof, the empty tree included, means a live credential with that leaf, or a broken hash |
| `Persist.SortSorts` | backend/crates/issuer-service/src/persist.rs:20-21 | the sort orders the records and keeps each of them |
| `Persist.SortRestoresOrder` | backend/crates/issuer-service/src/persist.rs:20-54 | from any enumeration of the map and any order in the file, sorting restores the order of the leaves |
| `Persist.RecordsRestored` | backend/crates/issuer-service/src/persist.rs:56-66 | rebuilding from the ordered records yields the same map and leaves |
| `Persist.Save` | backend/crates/issuer-service/src/persist.rs:19-26 | the file holds every record the map yields, no more and no fewer, by ascending leaf index, and the flag |
| `Persist.Load` | backend/crates/issuer-service/src/persist.rs:40-69 | the loop rebuilds leaves and map; sanctions start empty, the state is clean |
| `Persist.SaveThenLoad` | backend/crates/issuer-service/src/persist.rs:19-69 | for every valid state and enumeration order the records, the flag, the membership and the jurisdiction leaves come back |
| `Publication.StepKeepsProvenance` | backend/crates/sanctions-updater/src/chain.rs:118-147 | every step of every party keeps the origin of the roots on chain, prepared and pending |
| `Publication.ChainRootsHaveProvenance` | backend/crates/issuer-service/src/rotation.rs:52-83 | in every interleaving, with transactions lost or late, membership and jurisdiction roots on chain were the issuer's own, the sanctions root the issuer's or the updater's |
| `Publication.BookkeepingHolds` | backend/crates/issuer-service/src/rotation.rs:52-83 | in every run a publication under way is due, a registered issuer has a record, and no root on chain is zero |
| `Publication.SubmitIff` | backend/programs/zksettle/src/instructions/register_issuer.rs:11-75 | exactly the registrations of a new record and updates of an existing one with no root all zero are accepted |
| `Publication.OneSendEach` | backend/crates/issuer-service/src/rotation.rs:52-70 | one send per snapshot, one write per read, one publication at a time, nothing left over from before a restart |
| `Publication.LandsOncePerSend` | backend/crates/issuer-service/src/chain.rs:110 | in every run a transaction reported as failed lands at most once per time it was sent |
| `Publication.UpdaterNeverRegisters` | backend/crates/sanctions-updater/src/chain.rs:128-142 | the placeholder roots of an unregistered updater are refused on chain |
| `Publication.StepKeepsCleanIff` | backend/crates/issuer-service/src/rotation.rs:54-83 | one step of any party keeps "clean and registered means published" exactly when it is none of the falsifying steps |
| `Publication.CleanThroughoutIff` | backend/crates/issuer-service/src/rotation.rs:52-83 | for every run of all parties the property holds throughout exactly when no step falsifies it |
| `Publication.StepKeepsClean` | backend/crates/issuer-service/src/rotation.rs:54-83 | one step leaves publication undisturbed exactly when it respects the schedule |
| `Publication.CleanSurvivesQuietRuns` | backend/crates/issuer-service/src/rotation.rs:52-83 | the property survives every run, restarts, updates and late transactions included, that respects the schedule: no change between snapshot and commit, no restart with roots other than those on chain, no foreign write of other roots over a clean or just confirmed state |
| `Publication.CommitRightIff` | backend/crates/issuer-service/src/rotation.rs:73-83 | after any run with no foreign write between confirmation and commit, a commit keeps the property exactly when its roots are still current |
| `Publication.RestartRightIff` | backend/crates/issuer-service/src/main.rs:98-124 | a restart keeps the property exactly when its probe fails, there is no record, or the loaded roots are on chain |
| `Publication.RestartHidesChange` | backend/crates/issuer-service/src/main.rs:98-124 | a run in which a saved change comes back clean, registered and unpublished |
| `Publication.LostChangeStaysLost` | backend/crates/issuer-service/src/rotation.rs:56-59 | without a new change or a foreign write nothing a clean issuer does reaches the chain again, whatever restarts there are |
| `Publication.ChangeDuringPublicationIsLost` | backend/crates/issuer-service/src/rotation.rs:54-82 | a run that needs the restriction |
| `Publication.LateLandingUndoes` | backend/crates/issuer-service/src/rotation.rs:84-86 | a run in which an update reported as failed lands after its successor |
| `Publication.UpdaterHarmlessIff` | backend/crates/sanctions-updater/src/chain.rs:128-142 | whatever happens between the updater's read and its write, the write keeps the membership root exactly when the root read is still on chain or the built root is zero; the same for the jurisdiction root |
| `Publication.LateUpdaterHarmlessIff` | backend/crates/sanctions-updater/src/chain.rs:142 | the same for a write that lands at any later time |
| `Publication.FirstTick` | backend/crates/sanctions-updater/src/main.rs:59-84 | an updater's first tick changes the record exactly when its probe worked, the record exists and the built root is not zero, and then the sanctions root only |
| `Publication.UpdaterChangesSanctionsOnly` | backend/crates/sanctions-updater/src/chain.rs:134-142 | with no accepted write of other roots in between, only the sanctions root changes |
| `Publication.StaleOverwriteRun` | backend/crates/sanctions-updater/src/chain.rs:128-142 | a run in which the second writer restores an old membership root |
| `Publication.PublishesIff` | backend/crates/issuer-service/src/chain.rs:104-114 | a due publication that is confirmed publishes the current roots exactly when the service knows whether it is registered; otherwise nothing changes |
| `Publication.StuckUntilWorkingRestart` | backend/crates/issuer-service/src/main.rs:98-108 | in every run a stuck issuer stays stuck exactly until a restart whose probe works |
| `Publication.StuckChainFrozen` | backend/crates/issuer-service/src/chain.rs:104-114 | meanwhile nothing it sends reaches the chain |
| `Publication.UnseenRegistrationSticks` | backend/programs/zksettle/src/instructions/register_issuer.rs:11-31 | a run that leads there |
| `Publication.FailedProbeSticks` | backend/crates/issuer-service/src/main.rs:104-107 | another one, from a healthy issuer |
| `Publication.AccountRoundTrip` | backend/crates/sanctions-updater/src/chain.rs:88-115 | the fixed offsets read exactly the roots the program stores |
| `Upload.BuildWrites` | sdk/src/wrap/index.ts:375-389 | the chunk loop cuts the proof into consecutive writes |
| `Upload.BuildTransactions` | sdk/src/wrap/index.ts:392-396 | the batching loop groups them two by two |
| `Upload.WriteKeepsPrefix` | backend/programs/zksettle/src/instructions/transfer_hook/handlers.rs:73-94 | a right write is accepted exactly at the high-water mark and extends the stored prefix |
| `Upload.WriteAcceptedIff` | backend/programs/zksettle/src/instructions/transfer_hook/handlers.rs:73-94 | any write is accepted exactly at the high-water mark and within the announced length, and replaces those bytes only |
| `Upload.AlwaysAPrefix` | frontend/src/hooks/use-prove-flow.ts:489-513 | under any loss, duplication or reordering the account holds a prefix of the proof, the whole proof if it can be finalized |
| `Upload.TxAt` | frontend/src/hooks/use-prove-flow.ts:452-498 | transaction j starts at 2 * chunkSize * j, and exists exactly when that is inside the proof |
| `Upload.DeliveryProgress` | backend/programs/zksettle/src/instructions/transfer_hook/handlers.rs:79-92 | the high-water mark tells how many transactions were seen in order |
| `Upload.UploadCompleteIff` | backend/programs/zksettle/src/instructions/transfer_hook/handlers.rs:106-131 | finalizing fails for a zero nullifier or amount; otherwise it is accepted exactly when the deliveries contain all transactions in order, and then holds the proof |
| `Upload.FinalizedIsFrozen` | backend/programs/zksettle/src/instructions/transfer_hook/handlers.rs:73-131 | a finalized payload accepts no resize, write or second finalization |
| `Upload.InOrderDeliveryCompletes` | sdk/src/wrap/index.ts:391-433 | in-order delivery completes the upload |
| `Upload.LastWriteProvesAll` | frontend/src/hooks/use-prove-flow.ts:485-512 | the last write succeeds exactly when all others were seen in order and it was not, and then the account holds the proof |
| `Upload.LandedLastWriteIff` | frontend/src/hooks/use-prove-flow.ts:271-289 | once the last write has landed, the proof is complete exactly when all others were seen in order before |
| `Upload.LandedFailureUnnoticed` | frontend/src/hooks/use-prove-flow.ts:271-289 | a last write that lands alone leaves the proof incomplete |
| `Upload.ResizeCountIsExact` | frontend/src/hooks/use-prove-flow.ts:440-450 | the precomputed number of resizes is the least that allocates the buffer, and more change nothing |
| `Upload.UploadProofChunked` | sdk/src/wrap/index.ts:287-436 | the confirmed upload finalizes exactly the given proof, for every length the program accepts and a non-zero nullifier and amount |
| `Calendar.EraIsFloor` | backend/crates/api-gateway/src/metering.rs:221 | the adjusted truncating division is floor division, for negative days too |
| `Calendar.YearRecovered` | backend/crates/api-gateway/src/metering.rs:222-225 | the year-of-era formula inverts the day count of a year |
| `Calendar.YearExists` | backend/crates/api-gateway/src/metering.rs:222-225 | every day of an era falls into the year the formula computes |
| `Calendar.DaysThenDate` | backend/crates/api-gateway/src/metering.rs:219-231 | every day number becomes a valid date whose day number it is |
| `Calendar.DateThenDays` | backend/crates/api-gateway/src/siws.rs:182-217 | every valid date is recovered from its day number |
| `Calendar.CalendarBijection` | backend/crates/api-gateway/src/metering.rs:219-231 | from 1970 to the last 32-bit year the two formulas are inverse bijections, casts included |
| `Calendar.EpochSplitsDates` | backend/crates/api-gateway/src/siws.rs:215-217 | a valid date has a non-negative day number exactly from 1970 on |
| `Calendar.CivilFollowsCalendar` | backend/crates/api-gateway/src/metering.rs:219-231 | consecutive day numbers are consecutive Gregorian dates |
| `Timestamp.LocalRoundTrip` | backend/crates/api-gateway/src/siws.rs:196-206 | printed date and time fields are read back, with or without a fraction |
| `Timestamp.OffsetRoundTrip` | backend/crates/api-gateway/src/siws.rs:167-180 | Z, +hh:mm and -hh:mm are cut off and read as their offset |
| `Timestamp.ArithmeticIsCalendar` | backend/crates/api-gateway/src/siws.rs:208-220 | the checked arithmetic gives the calendar's seconds for exactly the valid fields, and leaves its type exactly for valid dates before 1970 |
| `Timestamp.TimestampTheorem` | backend/crates/api-gateway/src/siws.rs:167-221 | the same for every printed RFC 3339 timestamp, any digits of fraction and any zone |
| `Timestamp.TimestampLimits` | backend/crates/api-gateway/src/siws.rs:182-220 | the limits of RFC 3339 section 5.7 spelled out: beyond them a timestamp is rejected, within them it is its Unix time |
| `Timestamp.SpaceAroundIgnored` | backend/crates/api-gateway/src/siws.rs:194 | whitespace around a timestamp is ignored |
| `Text.SignsRead` | backend/crates/api-gateway/src/siws.rs:173-178 | unsigned numbers may carry a plus but no minus, signed ones either |
| `Text.TrimCuts` | backend/crates/api-gateway/src/siws.rs:30 | trimming removes exactly the surrounding whitespace |
| `Timestamp.DayLabelRoundTrip` | backend/crates/api-gateway/src/metering.rs:213-217 | a history label reads back as the start of its day |
| `Siws.ParseStatement` | backend/crates/api-gateway/src/siws.rs:62-83 | the loop finds the statement lines and the first field line |
| `Siws.ParseFieldLines` | backend/crates/api-gateway/src/siws.rs:85-112 | each field is the value on the last line carrying its key |
| `Siws.ParseMessage` | backend/crates/api-gateway/src/siws.rs:18-51 | the parser, with all its error paths |
| `Siws.ParseAcceptsIff` | backend/crates/api-gateway/src/siws.rs:18-51 | exactly the messages with the header, an address that is not blank, and a nonce and an issue time line from the third line on are accepted, wherever the statement ends |
| `Siws.LookupIsLast` | backend/crates/api-gateway/src/siws.rs:85-112 | a field is what follows its key on the last line that starts with it |
| `Siws.LookupNoneIff` | backend/crates/api-gateway/src/siws.rs:85-112 | a field is missing exactly when no line starts with its key |
| `Siws.LookupField` | backend/crates/api-gateway/src/siws.rs:95-109 | printed fields are found again, whichever are present |
| `Siws.MessageRoundTrip` | backend/crates/api-gateway/src/siws.rs:18-112 | parsing a printed message returns it, for every subset of the optional fields and any multi-line statement without ": " |
| `Siws.CrLfMessageParses` | backend/crates/api-gateway/src/siws.rs:19 | the same with CR LF line ends |
| `Siws.StatementSurvivesIff` | backend/crates/api-gateway/src/siws.rs:69-76 | a statement of any lines is recovered exactly when every line is non-empty and contains no ": "; domain, address, nonce and issue time survive either way |
| `Siws.GeneratedMessageParses` | frontend/src/lib/auth.ts:23-37 | what the dashboard prints, the gateway reads, field by field |
| `Siws.FreshVerdict` | backend/crates/api-gateway/src/siws.rs:136-155 | the verdict on every message without an expiry: domain, at least eight ASCII letters and digits, a readable issue time within five minutes, and which error otherwise |
| `Siws.ExpiryVerdict` | backend/crates/api-gateway/src/siws.rs:157-162 | an expiry is looked at in an otherwise valid message only, and must be a timestamp that has not passed |
| `Siws.LoginAcceptedIff` | backend/crates/api-gateway/src/siws.rs:136-165 | the verdict on the dashboard's message at every time, with the nonce rule and the clock window spelled out; validation never panics on it |
| `Siws.ExpiryRespected` | backend/crates/api-gateway/src/siws.rs:157-162 | an expiration time changes the verdict exactly when the message is otherwise valid and the time has passed |
| `Siws.HeadersAgree` | frontend/src/lib/auth.ts:29 | the header printed by the dashboard is the one the gateway strips |
| `Siws.FieldTexts` | backend/crates/api-gateway/src/siws.rs:100-108 | the six keys as they are spelled |
| `Metering.UsageRecords.TryReserve` | backend/crates/api-gateway/src/metering.rs:48-79 | the upsert on one key's row; other rows untouched |
| `Metering.UsageRecords.Release` | backend/crates/api-gateway/src/metering.rs:81-94 | decrements, never below zero |
| `Metering.UsageRecords.Get` | backend/crates/api-gateway/src/metering.rs:129-149 | the stored count and dates within 30 days of the period's beginning, otherwise nothing used as of now |
| `Metering.QuotaHolds` | backend/crates/api-gateway/src/metering.rs:48-94 | in every run the count stays within 0..limit, grants of a period never exceed limit plus releases, and the row's dates are right |
| `Metering.ShownAfterRun` | backend/crates/api-gateway/src/metering.rs:129-149 | after any run the shown dates are the beginning of the period and the last grant, and before the first request or after 30 days nothing is used |
| `Metering.ReserveAgreesWithGetIff` | backend/crates/api-gateway/src/metering.rs:58-78 | a reservation succeeds when `get` shows room, exactly unless a zero limit meets a new period |
| `Metering.ExactlyLimitPerPeriod` | backend/crates/api-gateway/src/metering.rs:44-47 | without releases exactly `limit` requests of a period are granted |
| `Gateway.Conservation` | backend/crates/api-gateway/src/proxy.rs:66-137 | in every interleaving within a period, database failures included, the count is the requests holding or keeping a reservation and the daily total those recorded |
| `Gateway.RequestsFollowTrace` | backend/crates/api-gateway/src/proxy.rs:97-137 | over every run with database failures, each phase holds exactly the requests whose steps led there |
| `Gateway.PhasesMatchTrace` | backend/crates/api-gateway/src/proxy.rs:97-137 | without database failures the answered and settled requests are the 2xx and 3xx answers, the released ones the rate limited and failed ones, and only body and send errors keep a reservation |
| `Gateway.ConservationWithoutFailures` | backend/crates/api-gateway/src/proxy.rs:66-137 | count = successful responses + body or send errors + requests without a successful answer that still hold a reservation <= limit; daily total = successful responses not waiting to be recorded |
| `Gateway.RolloverConservesIff` | backend/crates/api-gateway/src/metering.rs:63-70 | a rollover keeps the equation exactly when nothing was counted before it |
| `Gateway.ConservationAcrossPeriods` | backend/crates/api-gateway/src/proxy.rs:66-137 | in every run over any periods the count is the current period's reservations, less releases by earlier requests, plus releases that found zero; it stays within 0..limit |
| `Gateway.ConservedIff` | backend/crates/api-gateway/src/metering.rs:48-94 | after any run the plain equation holds exactly when no earlier request is still counted and the releases by earlier ones are made up for |
| `Gateway.RolloverForgetsReservations` | backend/crates/api-gateway/src/metering.rs:63-70 | a run across a rollover that breaks the equation |
| `Gateway.ProxyToUpstream` | backend/crates/api-gateway/src/proxy.rs:56-143 | alone, a request is charged exactly when it succeeds or ends in an upstream error, and recorded exactly when it succeeds |
| `History.DailyUsageRows.Record` | backend/crates/api-gateway/src/metering.rs:96-127 | increments the day's bucket and prunes, for one key only |
| `History.DailyUsageRows.PruneOldBuckets` | backend/crates/api-gateway/src/metering.rs:193-207 | deletes the buckets before the cutoff |
| `History.BucketsFaithful` | backend/crates/api-gateway/src/metering.rs:96-127 | in every run with a non-decreasing clock each recent bucket holds exactly the calls of its day |
| `History.BucketsBounded` | backend/crates/api-gateway/src/metering.rs:193-207 | at most 400 buckets are stored |
| `History.DailyHistory` | backend/crates/api-gateway/src/metering.rs:159-191 | one entry per day, oldest first, with its count and a label that reads back as that day |
| `History.HistorySum` | backend/crates/api-gateway/src/metering.rs:159-191 | for every number of days the counts sum to the calls of the stored part of the window, plus a copy of day zero per day before the epoch |
| `History.HistoryExactIff` | backend/crates/api-gateway/src/metering.rs:168-189 | for every number of days the sum is exact exactly when no call fell on a pruned day of the window and day zero is not read again |
| `History.NothingPruned` | backend/crates/api-gateway/src/metering.rs:193-207 | up to 399 days no call of the window has been pruned |
| `History.EntriesSumToCalls` | backend/crates/api-gateway/src/metering.rs:159-191 | up to 399 days the returned entries sum to the calls exactly when the days do not reach before the epoch or day zero is empty |
| `History.HistoryDays` | backend/crates/api-gateway/src/routes/usage.rs:62-65 | 30 days by default, at least 1, at most 365 |
| `History.GetUsageHistory` | backend/crates/api-gateway/src/routes/usage.rs:53-73 | the same for whatever number of days is asked for, after clamping |
| `History.FourHundredDaysTooMany` | backend/crates/api-gateway/src/metering.rs:198 | a run whose 400-day sum is not the calls of its window |
| `Csv.FieldRoundTrip` | frontend/src/lib/export.ts:19-24 | an escaped field is read back whatever it contains |
| `Csv.QuotedIff` | frontend/src/lib/export.ts:19-24 | a field is quoted exactly when it contains a comma, a quote or a line feed |
| `Csv.ContentRoundTrip` | frontend/src/lib/export.ts:32-38 | the reader recovers the header and every row of arbitrary strings |
| `Csv.EventExportRoundTrip` | frontend/src/lib/export.ts:3-38 | the same for the thirteen columns of the export |
| `Dedup.NullifierStore.constructor` | backend/crates/indexer/src/dedup.rs:16-55 | the warm-up loads the 32-byte keys in iteration order, all of them or up to the capacity |
| `Dedup.NullifierStore.MarkUploaded` | backend/crates/indexer/src/dedup.rs:57-63 | database first, then cache; nothing changes when the write fails |
| `Dedup.NullifierStore.Contains` | backend/crates/indexer/src/dedup.rs:65-80 | database membership when the read succeeds; a failed read can only hide an uncached key |
| `Dedup.UploadsAccountedFor` | backend/crates/indexer/src/routes/webhook.rs:45-96 | in every interleaving each upload is marked, unrecorded or waiting for its mark; a nullifier is stored exactly when marked; the cache holds stored ones only |
| `Dedup.UploadsBounded` | backend/crates/indexer/src/routes/webhook.rs:36-97 | in every interleaving with evictions, reopenings and interrupted handlers a nullifier is uploaded at most once, plus once per failure, plus once per check that passed while another delivery of it was between check and mark |
| `Dedup.ExactlyOnceIff` | backend/crates/indexer/src/routes/webhook.rs:36-97 | without failures and with nothing in flight, a nullifier is uploaded exactly once if and only if a delivery was marked and none was overtaken |
| `Dedup.SerialDeliveriesUploadOnce` | backend/crates/indexer/src/routes/webhook.rs:36-97 | deliveries that do not overlap upload at most once |
| `Dedup.HealthyStoreUploadsOnce` | backend/crates/indexer/src/dedup.rs:65-80 | with a database that answers and stores, deliveries that do not overlap upload at most once, whatever is evicted and however often the store is reopened |
| `Dedup.SeenIsDuplicate` | backend/crates/indexer/src/dedup.rs:57-72 | once marked, found or warmed up, and until evicted, a nullifier is a duplicate even when the database cannot be read |
| `Dedup.OverlappingDeliveriesUploadTwice` | backend/crates/indexer/src/routes/webhook.rs:37-81 | two overlapping deliveries upload twice with a healthy store |

## Left out

- Poseidon2, Groth16, ed25519, SHA-256, base58 and JWT: library code; hashes are arbitrary functions.
- Settlement on chain (`verify_proof`, `settle_hook`, Light and Bubblegum calls) and the stablecoin program: account checks around library calls.
- JSON and file system in `persist.rs`: the persisted value is the record, a save succeeds or fails as a whole.
- Rate limiting, nonce store, API keys, HTTP routing and header filtering in the gateway: thin wrappers or library calls.
- React components, wallet adapters, RPC clients and configuration: I/O and user interface.
- `formatCsvValue` and the rest of `assembleProofInputs`: number formatting and record assembly; CSV rows are arbitrary strings.
- Nonce reuse and the signature check of a login: only parsing and validation of the message are modelled.
- `Metering.QuotaHolds`: requires a limit of at least 1, as every tier has; with 0 the insert path still grants one request.
- `Timestamp.TimestampTheorem`: covers years up to 2^31 - 1 and two-digit offsets, the range in which `civil_from_days` does not wrap.
- `Gateway.Conservation`: one period; `Gateway.ConservationAcrossPeriods` covers the rest.
- The event table the webhook also writes: its insert ignores conflicts and its failure is only logged.
- `Persist.Load`: the sanctions tree is not persisted by the service, so it comes back empty.
