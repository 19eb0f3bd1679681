# Verified model of the Record oplog and its replication

Record keeps each library as a replicated, append-only log of signed entries. Entries
name their parents by hash, carry a verified Lamport clock, and may be written by keys
outside the library's write list under delegated, revocable capabilities. This project
models that log, the machinery that feeds it from other peers, and the copies derived
from it, and proves what the design promises about them for every input and every run.

The model follows the program's own form. Objects that change in place are classes whose
methods are proved against functions and predicates over the set of entries a log holds;
protocols are step systems with an invariant that every step keeps.

| file | what it models |
|---|---|
| `entries.dfy`, `causal.dfy`, `access.dfy`, `log.dfy` | entries, causal past, capabilities and revocations, valid logs and the state they determine |
| `convergence.dfy`, `refresh.dfy` | merging as a least closure; why incremental upkeep is enough |
| `oplog.dfy`, `merge.dfy`, `append.dfy`, `sorting.dfy` | the log object, merging and restoring a batch, local append |
| `rules.dfy` | what the log object's inert set and current state are, in terms of its entries alone |
| `cache.dfy` | the entry block cache and opening a library |
| `readiness.dfy`, `traversal.dfy`, `orchestrator.dfy`, `sync.dfy` | the fetch traversal, the merge orchestrator, and both composed with the log |
| `heads.dfy` | heads messages, split and reassembled |
| `pins.dfy`, `pinsystem.dfy` | pin counts, and concurrent pins, unpins and evictions |
| `digits.dfy`, `base58.dfy`, `byteorder.dfy` | base58btc, and why a hash may be treated as a number |
| `projector.dfy` | the query index that follows the log |

## How things are represented

- Content addressing is one function from hash to entry, `Library.entryOf`, so a hash always
  names the same entry. A log is the set of hashes it holds.
- `Valid(lib, E)`: every entry of `E` passes append verification over `E`. `RunsReachValidLogs`
  and `ValidLogsAreReached` show that these are exactly the logs some run of accepted insertions
  reaches, so a statement about valid logs is a statement about every reachable log. Acyclicity is
  not assumed: it follows from the clock rule.
- A hash is a number. `ByteOrder.HashOrder` shows that comparing multihash bytes, base58 strings
  and numbers is one order on entry hashes.
- Signatures, entry and operation shapes, and FilterSpec matching are uninterpreted functions of
  the library.
- Time, the network and content reads enter as the arguments of a step (an answer, a timeout, the
  set of keys whose content was found).

## Where the code differs from what is said of it

- Merging is described as associative and commutative (src/oplog/merge.ts:1-2). That holds for
  causally closed deliveries (`DeliveriesConverge`); a child merged in an earlier batch than its
  parent is refused and not kept (`EarlyChildIsLost`). `MergedExactly` says entry by entry what a merge
  keeps, and `SplitIsExact` states exactly when cutting a delivery in two changes nothing: when no
  admissible entry comes, in the first part alone, before some of its own past.
- The heads receiver drops a sender's pending parts once they pass 65536 heads
  (src/replication/heads-exchange.ts:77) and then hands on the later parts alone as if they were the
  whole list. A published list arrives as it was exactly up to 68250 heads (`EncodeHeads`,
  `PublishedRoundTrip`); `LongListIsCut` is one that does not.
- Encoders are said never to produce a message over the bound (src/replication/messages.ts:1-3). With
  the bound the network uses and the fixed width of entry hashes that is so (`EncodeHeads`). A caller
  that passes a smaller `max_bytes` can get a single head over it (`OversizedHead`);
  `EncodeHeadsBatches` states exactly when all messages are within the bound.
- The trusted part of opening a library is exact; a log walked from the block store may hold more than
  the persisted one when references lead to further valid entries (`ReferenceLeadsOut`), and `LoadOplog`
  states exactly when it does not.
- A content read that throws ends its projection job (src/query-db/projector.ts:257-261), and the keys
  it had not written stay behind the log until something projects them again (`ThrownReadIsBehind`).
  `LostWasThrown` states exactly which keys those are, and `DrainedIndexFollowsLog` exactly when a key's
  row is the projection of the log all the same.

## Model

| member | source | states |
|---|---|---|
| `Causal.PastIsEarlier` | src/oplog/causal.ts:1-3 | Clocks fall strictly along causal past. |
| `Causal.PastIsReachability` | src/oplog/causal.ts:1-3 | In a clock-verified log, causal past is exactly existence of a chain of `next` links. |
| `Causal.SeenClosure` | src/oplog/causal.ts:16-24 | A search that never goes below the ancestor's clock and has emptied its stack cannot have missed the ancestor. |
| `Causal.InCausalPast` | src/oplog/causal.ts:7-25 | The pruned search answers true exactly when the ancestor is reachable from `next`; it terminates. |
| `Entries.StateKeysExactly` | src/oplog/accept.ts:58-66 | An entry holds a track's key exactly as a PUT or DEL of it, a label's exactly when it sets or unsets the pair, the About key and an identity record's likewise. |
| `Access.ChainAgrees` | src/access-control/capability.ts:35-45 | A capability's chain is the same in any larger log. |
| `Access.LinkVerdictExactly` | src/access-control/capability.ts:158-170 | One capability's verdict written out: denied for an unknown field, an action not granted to this kind of value, a filter that does not match the track, the About record or each label pair set or unset, or an unknown condition; expired when a deadline has passed; else accepted. |
| `Access.ChainVerdictExactly` | src/access-control/capability.ts:155-171 | A chain admits a write exactly when each link does; it is expired exactly when the first link that does not admit it covers it and has expired, and else denied. |
| `Access.AuthoriseExactly` | src/access-control/capability.ts:119-172 | The verdict on every delegated entry, with its code, in terms of kind, citation, past, grantee, chain, revocations, scope and links. |
| `Access.InertExactly` | src/access-control/capability.ts:57-64 | Revocations make an entry inert exactly when it is delegated and one of them revokes a link of its chain without having seen it. |
| `Access.EffectiveJudges` | src/access-control/capability.ts:69-82 | The effective revocations are those of the write list, and of the others those that do not revoke their own chain and that no effective one judged before, by clock, timestamp and hash, revokes unseen. |
| `Access.EffectiveIsUnique` | src/access-control/capability.ts:69-82 | No other set meets that rule. |
| `Access.InertAgrees` | src/access-control/capability.ts:59-64 | Whether an entry is inert under given revocations does not depend on what else the log holds. |
| `Access.EffectiveAgrees` | src/access-control/capability.ts:73-82 | Nor does whether a revocation is effective among a given set. |
| `Access.AuthoriseAgrees` | src/access-control/capability.ts:119-172 | A verdict over a grounded part holding the parents is the verdict over the whole log, error code included. |
| `Log.ClockHoldsDescends` | src/oplog/accept.ts:69-84 | The clock rule puts every parent in the log, below the entry's own clock. |
| `Log.ClockExactly` | src/oplog/accept.ts:68-84 | The clock rule holds exactly when every parent is held and earlier, one of them by exactly one, or there is none and the clock is 1. |
| `Log.AcceptExactly` | src/oplog/accept.ts:44-56 | The verdict check by check: size and shape, operation, signature, write list outside a record store, clock, authorisation; and exactly when it is an invalid signature. |
| `Log.MembersAreChecked` | src/oplog/accept.ts:44-56 | Every entry of a valid log is signed, of good shape and operation, and outside a record store by the write list. |
| `Log.AcceptedIsGrounded` | src/oplog/accept.ts:89-97 | An accepted delegated entry cites a capability that is held and in its causal past. |
| `Log.ClosedPartIsValid` | src/oplog/accept.ts:89-97 | Any part of a valid log that holds its own parents is valid. |
| `Log.InsertKeepsValid` | src/oplog/merge.ts:57-67 | Accepting one more entry leaves every earlier verdict standing. |
| `Log.CausalPastDeterminism` | src/access-control/capability.ts:1-4 | Two valid logs holding an entry's parents give it the same verdict and code, whatever else they hold. |
| `Log.RunsReachValidLogs` | src/oplog/merge.ts:57-67 | Every run of accepted insertions ends in a valid log. |
| `Log.ValidLogsAreReached` | src/oplog/merge.ts:57-67 | Every valid log is reached by some such run. |
| `Log.ChainDelegates` | src/access-control/capability.ts:33-45 | In a valid log a chain ends at a write-list signature, each link's signer is a grantee of the next link up, and every link is in the past of the first. |
| `Log.ChainIsUnique` | src/access-control/capability.ts:33-45 | In a valid log a capability's chain is the one sequence from it, through the capability each link cites, to the first signed by the write list. |
| `Log.DelegationNeverWidens` | src/access-control/capability.ts:124-172 | Every entry signed outside the write list stands on 1 to 8 unrevoked capabilities in its causal past rooted in a write-list key; a write that is no revocation meets the action, filter and conditions of all of them, and a revocation is in scope. |
| `Log.FirstExactly` | src/oplog/current-state.ts:24-27 | The first of some entries is the one with the greatest clock, then the greatest timestamp, then the smallest hash. |
| `Log.CurrentIsUnique` | src/oplog/current-state.ts:24-35 | The entries, with the inert ones excluded, determine the current state. |
| `Log.EntryReachesHead` | src/oplog/heads.ts:1-9 | Every entry of a log is a head or in the past of one. |
| `Log.HeadsDetermineLog` | src/oplog/heads.ts:3-9 | Two clock-verified logs with equal heads hold equal entries. |
| `Convergence.MergedIsValid` | src/oplog/merge.ts:29-35 | Merging keeps a log valid and loses nothing. |
| `Convergence.MergedIsLeast` | src/oplog/merge.ts:29-35 | The merged log is the least set holding the log and every entry of the batch it would accept. |
| `Convergence.MergedIsTheClosure` | src/oplog/merge.ts:29-35 | It is the only valid set between the log and the delivery with that closure property. |
| `Convergence.ValidIsMerged` | src/oplog/merge.ts:29-35 | A batch entry that belongs to a valid log within the delivery is merged. |
| `Convergence.OwnHistory` | src/oplog/accept.ts:89-97 | An entry of a valid log with its causal past is a valid log by itself. |
| `Convergence.AdmissibleByHistory` | src/oplog/accept.ts:89-97 | Whether any valid log holds an entry is decided by verifying its own history. |
| `Convergence.MergedExactly` | src/oplog/merge.ts:29-35 | A merge keeps an entry of the log or the batch if and only if some valid log holds it and its whole causal past is there. |
| `Convergence.SplitIsExact` | src/oplog/merge.ts:29-35 | Two merges give what one merge of both batches gives if and only if every admissible entry delivered only in the first, whose past the two complete, has its whole past by the end of the first. |
| `Convergence.ClosedBatchMergesTheAdmissible` | src/replication/merge-orchestrator.ts:23-24 | Of a causally closed batch exactly the entries some valid log holds are merged; what it refuses is in no valid log at all. |
| `Convergence.ClosedSplit` | src/oplog/merge.ts:29-35 | A causally closed first batch meets that condition. |
| `Convergence.DeliveryIsOneMerge` | src/oplog/merge.ts:1-2 | A causally closed delivery in any number of batches is one merge of their union. |
| `Convergence.DeliveriesConverge` | src/oplog/merge.ts:1-2 | Two causally closed deliveries of the same entries end in the same log, however ordered and cut. |
| `Convergence.MergeOfValidIsUnion` | src/oplog/merge.ts:1-2 | Merging two valid logs is set union. |
| `Convergence.EarlyChildIsLost` | src/oplog/merge.ts:29-35 | A concrete child and parent for which delivery in the wrong order loses the child. |
| `Refresh.HeadsAfterInsert` | src/oplog/dag.ts:59-63 | The heads after one insertion, from the heads before it. |
| `Refresh.AccessCarriesOver` | src/oplog/dag.ts:93-95 | Without a new revocation the effective set and every earlier inertness verdict stand. |
| `Refresh.NothingToJudge` | src/oplog/dag.ts:103 | The early return is right: with nothing effective or inert, other entries change neither. |
| `Refresh.JudgedIsInert` | src/oplog/dag.ts:105-120 | Judging all delegated entries, or only new ones when no revocation is new, yields the inert set of the whole log. |
| `Refresh.KeyCarriesOver` | src/oplog/merge.ts:68-73 | A key no new or re-judged entry holds keeps its resolution. |
| `Refresh.AcceptedStep` | src/oplog/merge.ts:57-67 | An entry accepted midway belongs to the merged log. |
| `Refresh.RefusedStep` | src/oplog/merge.ts:54-64 | In clock order a refusal midway is final and has the code the finished log would give. |
| `Refresh.RestoreAgreesWithVerify` | src/oplog/accept.ts:99-109 | For an entry some valid log holds, the restore check and full verification agree over any part of that log. |
| `Sorting.Sort` | src/oplog/merge.ts:54 | A permutation in the order asked for. |
| `Oplogs.Oplog.constructor` | src/oplog/dag.ts:40-52 | A new log is empty and consistent. |
| `Oplogs.Oplog.CapabilityChain` | src/access-control/capability.ts:35-45 | The chain walk returns the chain and terminates because clocks fall. |
| `Oplogs.Oplog.IsInertUnder` | src/access-control/capability.ts:59-64 | True exactly when the entry is delegated and one of the listed revocations revokes a link of its chain and does not reach it through parents. |
| `Oplogs.Oplog.IsSelfReferential` | src/access-control/capability.ts:66-67 | True exactly when the revocation's own chain holds its target. |
| `Oplogs.Oplog.EffectiveRevocations` | src/access-control/capability.ts:73-82 | As a set, the ordered procedure's result is a function of the set of revocations. |
| `Oplogs.JudgedAfterEarlier` | src/access-control/capability.ts:76-80 | Judged in the clock, timestamp, hash order, what was found effective so far decides the next one as the order-free definition does. |
| `Oplogs.Oplog.PastRevocationsOf` | src/access-control/capability.ts:142-143 | Exactly the held revocations in the entry's causal past. |
| `Oplogs.Oplog.IssuedAbove` | src/access-control/capability.ts:152 | Whether the key signed the target or a capability above it. |
| `Oplogs.Oplog.ChainAdmits` | src/access-control/capability.ts:155-171 | The first refusal along the chain, or acceptance. |
| `Oplogs.Oplog.AuthoriseEntry` | src/access-control/capability.ts:119-172 | The verdict of the specification, all error codes included. |
| `Oplogs.Oplog.ExpectedClockTime` | src/oplog/accept.ts:69-77 | One more than the greatest parent clock, or nothing when a parent is missing. |
| `Oplogs.Oplog.VerifyEntry` | src/oplog/accept.ts:89-97 | Append verification over the log, in the source's order of checks; accepts only signed, well-shaped, well-clocked entries, and answers an invalid signature exactly when that is the first check to fail. |
| `Oplogs.Oplog.RestoreEntry` | src/oplog/accept.ts:104-109 | The operation's verdict if it fails to parse, an invalid clock unless the parents are held and the clock follows from theirs, else accepted. |
| `Oplogs.Oplog.LinkEntry` | src/oplog/dag.ts:59-63 | Heads and cited parents become those of all entries with the new one, whatever the arrival order. |
| `Oplogs.Oplog.IndexKeys` | src/oplog/dag.ts:64-67 | Each state key lists exactly the entries that hold it. |
| `Oplogs.Oplog.InsertEntry` | src/oplog/dag.ts:56-74 | Idempotent; every index again equals its definition over all entries. |
| `Oplogs.Oplog.ResolveCurrentState` | src/oplog/current-state.ts:29-35 | The entry with the greatest clock, then timestamp, then smallest hash, or none when there are none. |
| `Oplogs.Oplog.RefreshCurrentState` | src/oplog/dag.ts:78-85 | Each given key resolves over all its entries that are not inert; other keys are untouched. |
| `Oplogs.Oplog.Judge` | src/oplog/dag.ts:104-121 | Judged entries get their inertness under the effective set, others keep theirs; reports exactly who became inert and exactly the keys of entries that changed either way. |
| `Oplogs.Oplog.RefreshEffective` | src/oplog/dag.ts:98-102 | The effective set is that of every revocation held. |
| `Oplogs.Oplog.RefreshAccessState` | src/oplog/dag.ts:96-122 | Incremental equals from scratch: effective and inert are those of all entries after the call. |
| `Oplogs.Oplog.Settle` | src/oplog/merge.ts:68-74 | After the refresh every derived part equals its definition, and every key whose entry changed is reported. |
| `Rules.InertEntries` | src/oplog/dag.ts:108-118 | Which entries are inert: none of the write list, a delegated revocation unless effective, any other delegated entry exactly when an effective revocation revokes a link of its chain and no path of parents leads from it to the entry. |
| `Rules.SeenIsNeverInert` | src/access-control/capability.ts:57-64 | A write that every effective revocation has seen keeps its effect. |
| `Rules.EffectiveRevocationsOf` | src/oplog/dag.ts:98-102 | The effective set is the one outcome of judging all revocations held. |
| `Rules.CurrentEntry` | src/oplog/dag.ts:76-85 | A key is current exactly when some entry about it is not inert, and then by greatest clock, greatest timestamp, smallest hash. |
| `Merging.Decode` | src/oplog/merge.ts:47-53 | The batch splits into entries not yet held and blocks that do not decode. |
| `Merging.Admit` | src/oplog/merge.ts:34-40 | Restoring a vouched entry gives the verdict verification would. |
| `Merging.InsertInOrder` | src/oplog/merge.ts:54-67 | The entries become the least closure, and each refusal has the code that log gives. |
| `Merging.InsertBlocks` | src/oplog/merge.ts:42-75 | Merge and restore: entries become the least closure whatever the order of the blocks, all of them signed and well shaped, the log stays consistent, and what was merged, rejected and became inert is reported exactly, with exactly the keys of entries whose inertness changed; these and the merged entries' keys take in every key that moved. |
| `Merging.SameEntriesSameState` | src/oplog/merge.ts:1-2 | Logs with equal entries have equal heads, effective, inert and current state. |
| `Merging.SameHeadsSameState` | src/oplog/heads.ts:3-9 | Logs with equal heads are equal in every part. |
| `Appending.Reaches` | src/oplog/dag.ts:151-152 | Whether a head is the capability or has it in its past. |
| `Appending.CutHeads` | src/oplog/dag.ts:150-156 | With more than 256 heads: the newest 256, and, only when none of them keeps the capability and another head does, the oldest of them replaced by the newest head that does. |
| `Appending.SelectNext` | src/oplog/dag.ts:148-158 | The heads the rule picks by clock and hash, in hash order. |
| `Appending.ChoiceIsUnique` | src/oplog/dag.ts:148-158 | Heads, clocks and the cited capability determine the parents, their order included. |
| `Appending.ChoiceIsSound` | src/oplog/dag.ts:145-147 | At most 256 heads, all of them when they fit, and one that keeps the capability whenever any head does. |
| `Appending.HeldCapabilityIsKept` | src/oplog/dag.ts:145-147 | A cited capability the log holds is in the new entry's causal past however many heads there are. |
| `Appending.ClockAbove` | src/oplog/dag.ts:174 | The clock the verification will expect. |
| `Appending.NewEntryIsNew` | src/oplog/dag.ts:173-177 | An entry that cites the log's heads was not in it. |
| `Appending.IsDuplicate` | src/oplog/dag.ts:130-141 | Whether a track PUT repeats the live one; a tombstoned track is not live. |
| `Appending.DraftEntry` | src/oplog/dag.ts:172-175 | The unsigned entry in full: signer, chosen parents, no references, clock, timestamp and operation. |
| `Appending.SignLocalEntry` | src/oplog/dag.ts:166-178 | Refuses exactly the duplicates; otherwise the drafted entry, new, with a clock that always passes, and the verdict of verification. |
| `Appending.LastLeavesOthers` | src/access-control/capability.ts:73-82 | A delegated revocation judged last changes no other revocation's effect. |
| `Appending.AppendedIsInertIff` | src/oplog/dag.ts:185-187 | An append that cites every head is inert if and only if it is a delegated, self-referential revocation. |
| `Appending.AppendTakesEffect` | src/oplog/dag.ts:180-190 | Such an append is the only head and current for all it is about: a PUT or DEL for its track, a label record for every pair it sets or unsets. |
| `Appending.AddVerified` | src/oplog/dag.ts:186-189 | The log stays consistent, gains exactly the entry, and reports every key whose entry changed. |
| `Appending.AppendEntry` | src/oplog/dag.ts:180-190 | Append as a whole: a refusal changes nothing, an accepted entry is signed and well shaped, keeps the log consistent and what became inert is reported exactly; citing every head it takes effect at once, so the same track PUT again is a duplicate, and after a DEL none is. |
| `Cache.EntryBlockCache.Save` | src/query-db/entry-blocks.ts:79-84 | The blocks are added and the recorded heads vouch for the log. |
| `Cache.EntryBlockCache.Replace` | src/query-db/entry-blocks.ts:85-91 | The cache holds exactly the log's blocks and vouches for it. |
| `Cache.EntryBlockCache.MarkVerified` | src/query-db/entry-blocks.ts:92 | The recorded heads vouch for the log just verified. |
| `Cache.LoadEntryBlocks` | src/peer/load.ts:9-36 | The walk terminates and collects exactly the stored blocks that `next` and `refs` lead to from the heads. |
| `Cache.OpenFrom` | src/peer/library.ts:221-222 | A new log filled from blocks holds their least closure and is consistent. |
| `Cache.FromCache` | src/peer/library.ts:219-226 | Trusted exactly when last recorded at these heads under these rules; taken exactly when its blocks all merge and have the persisted heads, and then the log is exactly its blocks, a trusted one exactly the log its watermark vouches for, without verification. |
| `Cache.LoadOplog` | src/peer/library.ts:217-232 | From the cache it is the persisted log, every part of it; walked, it holds that log and equals it if and only if links reach no other admissible entry with its past; the cache vouches for it afterwards. |
| `Cache.ReproducedLog` | src/peer/library.ts:211-216 | Equal heads make a restored log the verified one. |
| `Cache.WalkedLog` | src/peer/load.ts:1-3 | A walk from the heads of a stored log delivers that log, with the exact condition for no more; references inside it are enough. |
| `Cache.ReferenceLeadsOut` | src/peer/load.ts:30 | Two stored entries, one in the log and naming the other, where the walk delivers more. |
| `Readiness.ReadyFromParents` | src/replication/merge-orchestrator.ts:1-5 | A waiting entry whose parents are all ready is ready. |
| `Readiness.ReadyParents` | src/replication/merge-orchestrator.ts:1-5 | A ready entry that has not landed waits, and its parents are ready. |
| `Readiness.TrapIsNeverReady` | src/replication/merge-orchestrator.ts:34-35 | Members of a cycle, and what hangs on one, are never ready. |
| `Readiness.DecideTop` | src/replication/merge-orchestrator.ts:52-56 | When an entry comes back to the top of the stack, its parents' recorded answers decide it, an undecided one being on a cycle. |
| `Readiness.Turn` | src/replication/merge-orchestrator.ts:42-56 | One turn keeps every recorded answer right and shrinks (undecided, off path, stack). |
| `Readiness.DecideRoot` | src/replication/merge-orchestrator.ts:39-57 | The walk decides its root, keeps earlier answers, terminates. |
| `Readiness.ReadyBatch` | src/replication/merge-orchestrator.ts:36-60 | Exactly the waiting entries in the least fixpoint of readiness. |
| `Traversals.EnqueueKeeps` | src/replication/traversal.ts:124-141 | Enqueueing keeps the invariant and leaves no free slot beside a queued hash. |
| `Traversals.AwaitedKeeps` | src/replication/traversal.ts:67-112 | An awaited answer keeps the invariant and frees no slot beside a queued hash; only bytes make a hash fetched or abandoned, only a missing answer makes one unresolved. |
| `Traversals.RespondKeeps` | src/replication/traversal.ts:67-112 | Any answer, error or timeout keeps the invariant; one no longer awaited changes nothing. |
| `Traversals.PumpKeeps` | src/replication/traversal.ts:114-122 | Pumping keeps at most `concurrency` in flight and conserves every hash. |
| `Traversals.PumpTakesInOrder` | src/replication/traversal.ts:116-119 | Fetches start in queue order, and only what landed or was fetched is passed over. |
| `Traversals.AskedIsUnderWay` | src/replication/traversal.ts:124-135 | Every hash asked for that has not landed is queued, in flight or decided, one left unresolved before included. |
| `Traversals.PauseKeeps` | src/replication/traversal.ts:142-146 | Pausing keeps the invariant, leaves queue and flights alone and records what is in flight as unresolved. |
| `Traversals.ResumeKeeps` | src/replication/traversal.ts:147-156 | Resuming keeps the invariant and fetches nothing twice. |
| `Traversals.RetriesComeFirst` | src/replication/traversal.ts:152-155 | Nothing still queued is fetched while something unresolved waits to be retried. |
| `Traversals.DiscardKeeps` | src/replication/traversal.ts:157-168 | Discarding starts over soundly, with every earlier ticket older than any that can be awaited. |
| `Traversals.LateAnswersAreIgnored` | src/replication/traversal.ts:67-68 | An answer under such an older ticket changes nothing. |
| `Traversals.TicketsStayNew` | src/replication/traversal.ts:67-168 | Old tickets stay old under every later step. |
| `Traversals.LandedGrows` | src/replication/traversal.ts:38-39 | The invariant survives entries landing by other means. |
| `Traversals.IdleIsComplete` | src/replication/traversal.ts:1-7 | When idle and unpaused, every link of a fetched entry landed, was fetched, was abandoned or is unresolved. |
| `Traversals.BoundedTraversal.EnqueueHashes` | src/replication/traversal.ts:138-141 | The object's step is the specified one and keeps the invariant. |
| `Traversals.BoundedTraversal.SettleFetch` | src/replication/traversal.ts:67-112 | Likewise for every way a fetch ends. |
| `Traversals.BoundedTraversal.PauseFetching` | src/replication/traversal.ts:142-146 | Likewise for pause. |
| `Traversals.BoundedTraversal.ResumeFetching` | src/replication/traversal.ts:147-156 | Likewise for resume. |
| `Orchestrators.DescendantsAre` | src/replication/merge-orchestrator.ts:76-88 | A set of descendants closed under waiting children is all of them. |
| `Orchestrators.FinishExactly` | src/replication/merge-orchestrator.ts:103-106 | A run's end rejects what did not land and, of the waiting entries, exactly those with a parent it rejects; no child of them waits on. |
| `Orchestrators.MergeOrchestrator.Remember` | src/replication/merge-orchestrator.ts:62-65 | Adds one waiting entry and keeps the child index exact. |
| `Orchestrators.MergeOrchestrator.Forget` | src/replication/merge-orchestrator.ts:67-74 | Removes one and keeps the child index exact, with no empty rows. |
| `Orchestrators.MergeOrchestrator.DropRejectedDescendants` | src/replication/merge-orchestrator.ts:77-88 | Drops exactly the waiting descendants of the newly rejected, through the child index. |
| `Orchestrators.MergeOrchestrator.AddEntry` | src/replication/merge-orchestrator.ts:110-121 | An entry with a rejected parent is rejected, any other waits with a run scheduled. |
| `Orchestrators.MergeOrchestrator.BeginRun` | src/replication/merge-orchestrator.ts:90-94 | Takes exactly the ready entries as the batch. |
| `Orchestrators.MergeOrchestrator.EndRun` | src/replication/merge-orchestrator.ts:103-106 | What did not land is rejected with all its waiting descendants. |
| `Orchestrators.MergeOrchestrator.AbortRun` | src/replication/merge-orchestrator.ts:97-102 | A merge that threw puts the whole batch back. |
| `Orchestrators.MergeOrchestrator.DiscardAll` | src/replication/merge-orchestrator.ts:129-133 | Forgets everything waiting and rejected. |
| `Sync.StepKeeps` | src/replication/replicator.ts:90-167 | Every step, unlinking and steps between a batch landing and its run ending included, keeps the composed invariant: a valid log, a sound traversal, nothing fetched lost, causally closed batches, only inadmissible entries rejected. |
| `Sync.EveryRunIsSafe` | src/replication/replicator.ts:90-167 | So does every run, and the log only grows. |
| `Sync.BatchMergedKeeps` | src/replication/merge-orchestrator.ts:95-104 | A run's merge keeps the invariant, and what of the batch did not land no valid log holds. |
| `Sync.RunEndedRejectsHopeless` | src/replication/merge-orchestrator.ts:103-106 | What the end of a run rejects, descendants included, is in no valid log at all. |
| `Sync.ReceiverCatchesUp` | src/replication/replicator.ts:90-124 | Once a peer's heads were enqueued and all has settled, the receiver holds that peer's whole log. |
| `Sync.RestIsComplete` | src/replication/merge-orchestrator.ts:1-5 | A peer at rest holds, of its own entries and those it fetched, exactly those that some valid log holds and whose whole past is among them. |
| `Sync.HoldsTheComplete` | src/replication/replicator.ts:90-124 | So does every run that stays linked and comes to rest, whatever was heard, answered, appended or refused. |
| `Sync.SyncReachesUnion` | src/replication/replicator.ts:90-124 | A peer that hears the heads of another's log and settles holds both logs and its own appends, and in all exactly the complete ones of what it has had in hand; where no link or heard head leads out of the other's log, exactly the union. |
| `Sync.ExchangeConverges` | src/replication/replicator.ts:90-124 | After an exchange both ways, local appends and links that lead out included, the peers have equal entries, heads, effective and inert sets and current state if and only if the same entries are complete for both; where nothing leads out and both appended the same, they do. |
| `Sync.SettledPeersAgree` | src/replication/replicator.ts:90-124 | Whatever two peers did before, local appends included, once each has asked for the other's heads and both have settled they hold the same log and state. |
| `Sync.UnsettledHasWork` | src/replication/replicator.ts:90-124 | While a clear peer has not settled, a fetch is awaited or a run is due or going on. |
| `Sync.WorkRunEnds` | src/replication/traversal.ts:114-122 | Every answered fetch, started run, merge and ended run uses up work, so no such run is longer than the work left. |
| `Sync.WorkCanFinish` | src/replication/traversal.ts:114-122 | Some such run goes on until no work is left. |
| `Sync.AnsweredRunsReachUnion` | src/replication/replicator.ts:90-124 | From hearing the heads, every run of answered fetches and merges takes at most four steps an entry that links lead to, and one that can go no further holds both logs and exactly the complete ones of what it fetched. |
| `HeadsExchange.FrameIsJson` | src/replication/messages.ts:28-29 | The bytes around the heads are those of the JSON object. |
| `HeadsExchange.PackHeads` | src/replication/messages.ts:38-50 | The lists join to the heads in order, heads share a list only within the bound, and a list is left only when the next head does not fit it. |
| `HeadsExchange.EncodeHeadsBatches` | src/replication/messages.ts:33-52 | Messages carry the heads in order with exactly the last complete; all are within the bound if and only if every head before the last fits an incomplete message of its own and the last a complete one. |
| `HeadsExchange.EncodeHeads` | src/replication/messages.ts:10-52 | Entry hashes under the network's 256 KiB always meet it, and the receiver hands the list on as it was if and only if it has at most 68250 heads. |
| `HeadsExchange.OversizedHead` | src/replication/messages.ts:33-52 | Two heads under a bound of 100 bytes do not. |
| `HeadsExchange.HeadsReceiver.Receive` | src/replication/heads-exchange.ts:72-83 | Data that is oversized or does not parse changes nothing; a message changes only its sender's pending parts, and hands on a list exactly when complete. |
| `HeadsExchange.ReceiveAll` | src/replication/heads-exchange.ts:68-84 | Under any interleaving each sender's lists are handed on exactly, in order, if and only if each has at most 65536 heads before its last part. |
| `HeadsExchange.OneListCompletes` | src/replication/heads-exchange.ts:72-83 | One sent list completes as one list, whatever follows it. |
| `HeadsExchange.HandedOnExactly` | src/replication/heads-exchange.ts:64-83 | That list is the one sent if and only if its parts but the last hold at most 65536 heads. |
| `HeadsExchange.LongListIsCut` | src/replication/heads-exchange.ts:75-82 | A list of 68251 heads, published within the bound, that arrives cut short. |
| `HeadsExchange.PublishedRoundTrip` | src/replication/heads-exchange.ts:64-83 | Published lists arrive as they were, in order, if and only if none is longer than 68250 heads. |
| `HeadsExchange.HeadsRoundTrip` | src/replication/messages.ts:31-52 | A sender's lists come back in order if and only if each has at most 65536 heads before its last part. |
| `Pins.CoverExactly` | src/fabric/block.ts:64-91 | A direct pin covers its root alone; a recursive one the least set that holds the root and, with every block, all the block links to. |
| `Pins.WalkBlocks` | src/fabric/block.ts:68-91 | The cover, each block once and root first, closed under links and within every set that is; fails exactly when a covered block is missing or its links cannot be read. |
| `Pins.FinishedWalkIsCover` | src/fabric/block.ts:64-67 | A finished walk has visited exactly the cover. |
| `Pins.ReferenceAllAdds` | src/fabric/pin-index.ts:177 | Referencing a walk raises exactly the walked counts by one. |
| `Pins.DereferenceAllSubtracts` | src/fabric/pin-index.ts:190-193 | Dereferencing lowers them by one and drops released rows. |
| `Pins.PinTables.CommitPin` | src/fabric/pin-index.ts:175-179 | The pin transaction, without recounting the root of a direct pin. |
| `Pins.PinTables.CommitUnpin` | src/fabric/pin-index.ts:188-194 | The unpin transaction. |
| `PinSystem.PinRaises` | src/fabric/pin-index.ts:169-182 | A pin, or an upgrade from direct to recursive, keeps each count equal to the number of covering pins. |
| `PinSystem.UnpinLowers` | src/fabric/pin-index.ts:183-196 | So does an unpin. |
| `PinSystem.UnpinFindsItsBlocks` | src/fabric/pin-index.ts:187 | An unpin's walk never meets a missing block or unreadable links. |
| `PinSystem.GateExcludes` | src/fabric/pin-index.ts:136-164 | No eviction judges or removes while a pin walks. |
| `PinSystem.PinTakesHold` | src/fabric/pin-index.ts:169-182 | A pin walks unless the root is pinned as strongly already, and leaves it pinned as asked, other roots as they were. |
| `PinSystem.UnpinLetsGo` | src/fabric/pin-index.ts:183-196 | An unpin walks exactly when there is a pin, and takes away that pin alone. |
| `PinSystem.EvictionOutcome` | src/fabric/pin-index.ts:198-202 | An eviction removes its block exactly when no pinned root covers it and it is stored. |
| `PinSystem.RemoveKeeps` | src/fabric/pin-index.ts:198-202 | A removal takes away no counted block and none a pin has walked over. |
| `PinSystem.FailEvictKeeps` | src/fabric/pin-index.ts:152-164 | Nor does an eviction that throws, whether or not its block is gone; the gate opens. |
| `PinSystem.StepKeeps` | src/fabric/pin-index.ts:124-203 | Every step of every job, a walk, transaction or removal that throws included, keeps the invariant. |
| `PinSystem.CountsAreRight` | src/fabric/pin-index.ts:124-203 | Over every interleaving each count is the number of pinned roots covering the block, and every counted block is stored. |
| `Base58.AlphabetIsLetters` | src/encoding/base58.ts:8-14 | The digit table and the alphabet agree. |
| `Base58.OneSpelling` | src/encoding/cid.ts:50-52 | Each byte string has one spelling. |
| `Base58.OneMeaning` | src/encoding/cid.ts:50-52 | Each spelling names one byte string. |
| `Base58.DivideInPlace` | src/encoding/base58.ts:25-31 | One pass leaves the quotient by 58^3 in place and returns the remainder. |
| `Base58.DivisionStep` | src/encoding/base58.ts:27-30 | Intermediates stay below 2^26, quotients fit a byte, remainders stay below 58^3. |
| `Base58.DivideChunk` | src/encoding/base58.ts:25-33 | One chunk divided out leaves a smaller quotient without leading zeros. |
| `Base58.DivideOut` | src/encoding/base58.ts:22-34 | All passes together yield the number's base-58 digits. |
| `Base58.Encode` | src/encoding/base58.ts:16-42 | The text spells the bytes. |
| `Base58.MultiplyAdd` | src/encoding/base58.ts:64-69 | The stored number is multiplied and the chunk added, up to the carry returned. |
| `Base58.CarryStep` | src/encoding/base58.ts:66-68 | Intermediates stay below 2^26 and the carry below the multiplier. |
| `Base58.PushCarry` | src/encoding/base58.ts:70-73 | The carry is written out and no write passes the buffer. |
| `Digits.DigitsFitBytes` | src/encoding/base58.ts:48-50 | 0.733 bytes per digit are enough for every length. |
| `Base58.FoldValue` | src/encoding/base58.ts:63-73 | The number in place becomes its product with the multiplier plus the chunk. |
| `Base58.FoldChunk` | src/encoding/base58.ts:52-73 | One chunk extends the number by its digits. |
| `Base58.DecodeNumber` | src/encoding/base58.ts:50-74 | The number after the leading ones, or nothing exactly when a character is outside the alphabet. |
| `Base58.Decode` | src/encoding/base58.ts:45-78 | Bytes that the text spells, or nothing exactly outside the alphabet. |
| `Base58.EncodeThenDecode` | src/encoding/base58.ts:16-78 | Decoding an encoding gives the bytes back. |
| `Base58.DecodeThenEncode` | src/encoding/base58.ts:16-78 | Encoding a decoding gives the text back, for every text over the alphabet. |
| `ByteOrder.CompareBytes` | src/oplog/current-state.ts:8-15 | Negative exactly when the first differing byte is smaller or the first ends first, zero exactly when equal. |
| `ByteOrder.CidTextLength` | src/encoding/cid.ts:19-24 | Every entry hash has the same number of base-58 digits. |
| `ByteOrder.HashOrder` | src/oplog/current-state.ts:1-3 | Comparing hashes as bytes, as strings and as numbers is one order. |
| `Projection.FirstSeenExactly` | src/query-db/projector.ts:124-134 | A key's first sight is the earliest timestamp of the held track PUTs about it, inert ones included, and nothing else is. |
| `Projection.AddedAtOf` | src/query-db/projector.ts:127-134 | The loop computes it. |
| `Projection.Index.WriteKey` | src/query-db/projector.ts:176-199 | Replaces one key's rows by the projection of its current entry if that is still the one loaded for. |
| `Projection.Index.WriteLabels` | src/query-db/projector.ts:203-211 | Each label row stands exactly while the pair's current entry sets it. |
| `Projection.Index.WriteRound` | src/query-db/projector.ts:280-289 | One transaction: labels and stable keys written, moved keys returned, missing content recorded. |
| `Projection.MergeIsAChange` | src/oplog/merge.ts:68-74 | What a merge reports takes in every key whose current entry moved. |
| `Projection.AppendIsAChange` | src/oplog/dag.ts:186-189 | So does what an append reports. |
| `Projection.UntouchedSlot` | src/query-db/projector.ts:314-316 | A key outside the reported ones keeps its current entry and its first sight. |
| `Projection.WritesAreCurrent` | src/query-db/projector.ts:263-266 | Every row written is the projection of the entry current at that moment. |
| `Projection.StepKeeps` | src/query-db/projector.ts:254-317 | Every step, a read that throws included, keeps: each key follows the log, is still due, or was left behind by a job that threw. |
| `Projection.LostWasThrown` | src/query-db/projector.ts:257-261 | A key is left behind if and only if a job threw before writing it and no later round wrote it. |
| `Projection.RowIsLastWritten` | src/query-db/projector.ts:283-287 | A key's row is the one the last round that wrote it gave it. |
| `Projection.DrainedIndexFollowsLog` | src/query-db/projector.ts:254-317 | Over any interleaving, once all changes were handed over and the queue is empty, a key's row is the projection of the log's current entry if and only if no thrown job has left it behind or its last written row still is that projection. |
| `Projection.DrainedRows` | src/query-db/projector.ts:176-211 | The row kind by kind: a label's exactly while the current record sets the pair, a tombstone exactly when the current entry is a DEL, else that of the current About record or track PUT, with content found or not and the track's first timestamp. |
| `Projection.ThrownReadIsBehind` | src/query-db/projector.ts:257-261 | One track and one read that throws: the index drains without its row. |

## Left out

- Cryptography and encodings (secp256k1, SHA3, dag-cbor, multiformats): content addressing is one function from hash to entry, and a block is its hash with a decode verdict.
- Entry, payload, record and FilterSpec shape validation: uninterpreted verdicts of the library.
- An operation that fails to parse is not refused by the duplicate check first; the model refuses it in verification, with the verdict the library gives.
- JavaScript numbers: `Math.ceil(n * 0.733)` is the exact integer ceiling, clocks and timestamps are unbounded integers.
- `Sync.SyncReachesUnion`: every block of the other log that was asked for must have been answered with its own bytes. A local append that lands what a waiting entry names leaves that entry waiting for the next run, and a peer in that state does not count as settled.
- `Sync.AnsweredRunsReachUnion`: counts steps of answered fetches and merges alone; timeouts, pauses and merges that throw may be repeated without end and are outside its runs.
- `PinSystem.StepKeeps`: one CID per multihash is assumed.
- `Projection.DrainedIndexFollowsLog`: track content is recorded as found or not found; the heads in the marker row are not modelled, only its pending keys. Listens and identity libraries project no keyed rows.
- The heads publisher's timing and coalescing, announcements; the parsing of heads messages is an uninterpreted outcome beside their size.
- libp2p, Helia, Tor, rendezvous, mDNS, the HTTP and WebSocket API, the command line, ingest, SQL text and indexes, the blob keeper, the library pin record, commit batching.
