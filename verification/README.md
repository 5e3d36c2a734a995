# The state and scheduling core of Fabric-X EVM, in Dafny

This project models the parts of Fabric-X EVM that keep the world state and order transactions, and proves
what they keep over every run.

* **Versioned stores.** `LightKVS` (a ring of whole-map snapshots), `RevertibleLightKVS` (a window of snapshots
  that can be rewound) and `PebbleKVS` (one current record per key, a pruned history, a prune index and reader
  pins over an ordered database of bytes). All three are held against one reference: the flat log of every
  committed write, in which `AsOf(log, key, height)` is the last write of a key at or below a height.
* **The EVM journal.** `StateDB`: one journal for reads, writes and side effects, an index into it, nested
  snapshots, and the read-write set. One reference is a machine that saves the whole state at every snapshot; the
  other, `PlainState`, knows only accounts as plain values: no journal, no bytes, no store.
* **Scheduling.** `TxQueueV2`, a dependency graph with multi-edges, and the node bookkeeping and
  endorsement-reuse window of `DepGraphQueue`. `EndorsementReuse` joins that window with the read set and the
  in-memory store: a reused endorsement is what a new execution would give. `EndorsementValid` drops the assumption
  that the queue sees every write: the committer's version check catches exactly the endorsements that are not.
* **The nonce gate**, a protocol of atomic steps: `Admit` in two halves, `Observe`, the reaper, and a ledger.

Each component has a value-level model (`*Model`: datatypes and step functions), lemmas about whole runs of
those steps (`*Safety`, `*Runs`, `*System`), and, where the original changes objects in place, a class whose
methods are proved to do exactly what the step functions say. Run `dafny verify dfyconfig.toml` to check it.

## How to read the model

* Go's `uint64` is `U64`; where it wraps, the model wraps (`Inc`, `Wrap`, `% TWO_64`). Go's nil slice is `None`,
  the empty slice `Some([])`.
* Pointers that are shared and updated (queue entries, sender states) are allocation numbers into a `heap` map.
* A loop over a Go map takes its order from a ghost result (`order`); the lemmas hold for every order.
* Concurrency is interleaving of atomic steps: `NonceRuns` and `PebbleSystem` are state machines whose events
  are the critical sections. In `PebbleSystem` a read is two events with anything in between but the closing of its
  reader; `LateScan` says exactly when a scan that comes after that is right.
* Where a claim of the original needs a condition, the condition is proved exact: `CompleteInvIff`,
  `HandleInvIff`, `RevertExactIff`, `RevertGives`, `PrepareUndoneIff`, `FixedByReadsIff`, `NextReportsIff`,
  `SetStateReturnFixedIff`, `RunAgainIff`, `FedBackOnce`, `CleanIff`, `SnapshotRightIff`, `WrapFreshIff`,
  `WrapRightIff`, `RewindCleanIff`, `BlockZeroShadowed`, `Isolation`, `BeforeAnyBlock`, `LateScan`, `HistoryPrefixOnly`,
  `FirstIsNewest`, `AliasFound`, `LightRefusesIff`, `PebbleRefusesIff`, `SameFullKeyIff`. A lemma with a failing
  run stands beside them: `CompletingReadyBreaksExclusion`, `RepeatedSelfDestructLosesMark`,
  `RevertedReadIsUnreported`, `UntrackedWriteFails`, `OverwrittenNodeIsLost`, `StaleSlotAnswers`, `AbandonedRun`.

## Where code and documentation disagree

* The comments at `endorser/storage/pebblekvs.go:90-100` say LightKVS keeps its height at the last block with
  writes, shares one version among a block's writes to a key and resets it after a delete. The code at
  `endorser/storage/lightkvs.go:225-251` and `348-353` does none of this; the model follows the code.
* `endorser/storage/revertible_lightkvs.go:43-44` says wrapping starts fresh whatever the store's prior use.
  Only the index is reset, and the slots of the wrapped store still answer: past heights are forgotten exactly when
  no slot is below the tip (`WrapFreshIff`). That does no harm while blocks are delivered if and only if the ring
  lay oldest first from slot 0 when it was wrapped (`WrapRightIff`; `StaleSlotAnswers` is a run where it did not).
  After a rewind no answer is from the branch this rewind leaves if and only if it leaves no slot above its height
  (`RewindCleanIff`; `AbandonedRun` is a run where it leaves one).
* `endorser/storage/revertible_lightkvs.go:214-216` says the fallback of a rewind loses nothing. It also drops
  the snapshot it used; see `FallbackForgets` and `CleanIff`.

## Assumptions

* Batches of the database are atomic and reads of it succeed.
* Nonce gate: a block moves no nonce back, and a counted transaction ran at a nonce its sender had during the
  block (`Mined`). Blocks are observed once each, in ledger order.
* `DepGraphQueue`: the manager releases each node once, and fewer than 2^64 blocks are counted.
* `PebbleKVS`: encoded records shorter than 2^63 bytes. Keys may have any length. Their length prefix is taken
  modulo 2^32, so a scan of one key's history also meets keys that continue it by a multiple of 2^32 bytes
  (`Alias`); a scan is right for a key without stored aliases.
* Endorsement reuse: an execution sees at least the blocks counted before it. `ReuseSound` and `ReusePasses` assume
  that the queue sees every committed write, each with the keys its first execution showed (`Noted`). `RunAgainIff`
  does not; it assumes that a committed delete carries no value, as those of StateDB do not, and, for versions that
  count writes, that no key is written more than 2^64 times.
* Plain accounts: the store holds values as StateDB writes them (`Stores`). A store without records does
  (`NobodyStored`), and committing the write set of any run keeps it so (`NextStarts`).
* `LightKVS`: a history size of at least 1; the code crashes on the first block otherwise.

## Model

| member | source | states |
|---|---|---|
| TxQueueModel.ParticipantsOnce | gateway/core/txqueue_helpers.go:18-30 | the participants are exactly sender and recipient, each listed once, the sender first |
| TxQueueModel.RemoveFromSliceCounts | gateway/core/txqueue_v2.go:424-434 | swap-and-truncate removal takes out one occurrence of the target and leaves how often every other element occurs unchanged |
| TxQueueSafety.EnqueueInv | gateway/core/txqueue_v2.go:116-208 | for every iteration order, Enqueue keeps the invariant: exact lists and maps, edges recorded equally often at both ends, sharers joined by an edge, waiting exactly while blocked, blockers among waiting entries enqueued later |
| TxQueueSafety.DequeueInv | gateway/core/txqueue_v2.go:213-261 | handing out the first ready entry keeps the invariant |
| TxQueueSafety.CompleteTracked | gateway/core/txqueue_v2.go:280-331 | completing a pending transaction keeps the invariant, removes exactly its entry and edges, and promotes exactly the waiting entries nothing blocks any more |
| TxQueueRuns.CompleteInvIff | gateway/core/txqueue_v2.go:266-331 | Complete keeps the invariant if and only if the hash is pending or unknown |
| TxQueueRuns.CompleteStrands | gateway/core/txqueue_v2.go:280-331 | completing a ready or waiting transaction leaves its entry in a list it no longer belongs to |
| TxQueueRuns.CompletingReadyBreaksExclusion | gateway/core/txqueue_v2.go:280-331 | for every address, a run of Enqueue, Complete, Enqueue after which two transactions with that sender are ready at once, the first having been completed while ready |
| TxQueueRuns.HandleInvIff | gateway/core/txqueue_v2.go:373-412 | a block keeps the invariant if and only if each of its hashes was pending or unknown when it came |
| TxQueueRuns.InvMutuallyExclusive | gateway/core/txqueue_v2.go:143-207 | under the invariant no two ready-or-pending transactions share a participant |
| TxQueueRuns.NoDeadlock | gateway/core/txqueue_v2.go:116-331 | a queue that tracks anything has a ready or a pending entry |
| TxQueueRuns.ReachableSafe | gateway/core/txqueue_v2.go:116-331 | in every queue reachable by Enqueue, Dequeue, Complete and Handle: mutual exclusion and no deadlock |
| TxQueueRuns.DrainAccount | gateway/core/txqueue_v2.go:213-331 | however dequeues and completions alternate, nothing is handed out twice, and handed-out plus left is what there was |
| TxQueueRuns.DrainEmpties | gateway/core/txqueue_v2.go:213-331 | with no further Enqueue the run is bounded, and when it can go no further the queue is empty and every transaction was handed out exactly once |
| TxQueueOrder.EnqueueWaitsFor | gateway/core/txqueue_v2.go:116-208 | a new transaction waits for exactly the entries in flight it shares a participant with; with none it is ready at once, behind those that are |
| TxQueueOrder.FirstReadyFirstOut | gateway/core/txqueue_v2.go:116-331 | over every run what is ready is served before whatever becomes ready later, in its order |
| TxQueueOrder.HandleUntracks | gateway/core/txqueue_v2.go:373-412 | a block untracks exactly its hashes, pending or not |
| TxQueueOrder.RemovedAt | gateway/core/txqueue_v2.go:424-434 | removal puts the last element in the place of the first occurrence and moves nothing else |
| TxQueueOrder.UnlinkedAt | gateway/core/txqueue_v2.go:280-331 | unlinking a promoted entry takes out its first occurrence and closes the gap |
| TxQueueV2.RemoveFirst | gateway/core/txqueue_v2.go:424-434 | the loop computes the swap-and-truncate removal |
| TxQueueV2.TxQueueV2.constructor | gateway/core/txqueue_v2.go:99-109 | a new queue is empty |
| TxQueueV2.TxQueueV2.Classify | gateway/core/txqueue_v2.go:143-163 | splits one participant's entries into in-flight ones and waiting ones in list order |
| TxQueueV2.TxQueueV2.FindSharers | gateway/core/txqueue_v2.go:143-163 | collects both kinds over all participants, a waiting sharer once for each shared participant |
| TxQueueV2.TxQueueV2.Enqueue | gateway/core/txqueue_v2.go:116-208 | refuses a known hash; otherwise the new state is that of the step function for some iteration order |
| TxQueueV2.TxQueueV2.WaitFor | gateway/core/txqueue_v2.go:165-185 | adds the entry to the blocks list of every conflicting entry |
| TxQueueV2.TxQueueV2.Hold | gateway/core/txqueue_v2.go:165-185 | adds the entry to what every waiting sharer is blocked by |
| TxQueueV2.TxQueueV2.Dequeue | gateway/core/txqueue_v2.go:213-261 | hands out the first ready transaction as pending, or nothing when there is none |
| TxQueueV2.TxQueueV2.CompleteUnlocked | gateway/core/txqueue_v2.go:280-331 | the new state is that of the completion step function |
| TxQueueV2.TxQueueV2.UnblockDependents | gateway/core/txqueue_v2.go:280-331 | removes one edge for each dependent and promotes those with none left |
| TxQueueV2.TxQueueV2.Unfile | gateway/core/txqueue_v2.go:280-331 | takes the entry out of every participant list and drops empty lists |
| TxQueueV2.TxQueueV2.Complete | gateway/core/txqueue_v2.go:266-276 | the completion step under the lock |
| TxQueueV2.TxQueueV2.Handle | gateway/core/txqueue_v2.go:373-412 | completes every hash of the block in order; the queue is valid afterwards if and only if each hash was pending or unknown |
| TxQueueV2.TxQueueV2.IsPending | gateway/core/txqueue_v2.go:344-359 | the tracked transaction of a hash, pending or queued, or nothing |
| ReuseWindow.RecordExact | gateway/core/depgraph_queue.go:608-632 | counting a block keeps the 64-slot ring exact: lastWrite maps each key to its latest write among the last 64 blocks and nothing else |
| ReuseWindow.CurrentExact | gateway/core/depgraph_queue.go:643-662 | an endorsement is current if and only if fewer than 64 blocks were counted since and none wrote a key it read |
| DepGraphRuns.BlockKeysIff | gateway/core/depgraph_queue.go:618-630 | a key counts as written by a block if and only if one of its valid transactions is tracked and was kept as writing it |
| DepGraphRuns.ReuseExact | gateway/core/depgraph_queue.go:577-662 | in every reachable queue an endorsement is handed over if and only if one is kept, fewer than 64 blocks were counted since, and none of their valid tracked transactions was kept as writing a key it read |
| DepGraphExact.KeptFrom | gateway/core/depgraph_queue.go:589-596 | over every run what is kept for a transaction is what some call that kept an endorsement for it gave |
| DepGraphExact.KeptExactly | gateway/core/depgraph_queue.go:589-596 | keeping an endorsement sets its four fields for a tracked transaction and nothing else |
| DepGraphExact.ServedInOrder | gateway/core/depgraph_queue.go:452-518 | over every run transactions are handed out in the order they were released while tracked, none skipped and none added |
| DepGraphExact.HeldAfter | gateway/core/depgraph_queue.go:452-488 | a tracked transaction holds the last node released for it, else what it held |
| DepGraphExact.OrphansIff | gateway/core/depgraph_queue.go:452-488 | the nodes fed straight back are those whose transaction is not tracked |
| DepGraphExact.TakenExactly | gateway/core/depgraph_queue.go:667-682 | exactly these transactions are untracked and exactly the nodes they held come back |
| DepGraphRuns.ReuseOnce | gateway/core/depgraph_queue.go:643-662 | after one call, every later call fails until a new endorsement is kept |
| DepGraphRuns.FiledNodes | gateway/core/depgraph_queue.go:452-488 | filing a node with a transaction keeps every node accounted for if and only if the transaction held none |
| DepGraphRuns.FedBackOnce | gateway/core/depgraph_queue.go:452-488 | over every run each node is fed back at most once and never while held; every released node is held or fed back if and only if no step overwrote or dropped a held one |
| DepGraphRuns.LostForever | gateway/core/depgraph_queue.go:452-488 | a node that is neither held nor fed back stays so over every later run |
| DepGraphRuns.OverwrittenNodeIsLost | gateway/core/depgraph_queue.go:452-488 | a transaction enqueued, completed before its node came and enqueued again: of the two nodes then released for it the first is never held or fed back again, whatever follows |
| EndorsementReuse.ReuseSound | gateway/core/depgraph_queue.go:634-662 | whatever the queue went through, if it saw every committed write, an endorsement it hands over is the one that executing the same client again on the state after every counted block would give |
| EndorsementReuse.KeyStill | gateway/core/depgraph_queue.go:598-632 | a key noted for no block from a sequence number on holds in the store what it held then, empty and repeated blocks included |
| EndorsementValid.RunAgainIff | gateway/core/depgraph_queue.go:598-662 | whoever wrote since: executing a client again on any later state of the ledger gives the same run if and only if every version its first run reported is still the current one there, which is the committer's check; for both kinds of versions |
| EndorsementValid.TipsFixValues | endorser/execution/statedb.go:306-336 | in any two states of one ledger equal versions of a key stand for equal values, so the read-set theorems apply to them |
| EndorsementValid.ReportedVersions | endorser/execution/statedb.go:306-336 | over every run a reported read carries no version for a missing or deleted record, else the count of writes or block and transaction, as versions are reported |
| EndorsementValid.ReusePasses | gateway/core/depgraph_queue.go:634-662 | an endorsement handed over by a queue that saw every committed write passes the version check on the state after every counted block |
| EndorsementValid.UntrackedWriteFails | gateway/core/depgraph_queue.go:598-632 | when a block in which another gateway sets a balance that was read is committed and counted, the endorsement is handed over all the same, executing again answers another balance, and the endorsement fails the version check |
| DepGraphQueue.DepGraphQueue.KeepEndorsement | gateway/core/depgraph_queue.go:589-596 | keeps endorsement, sequence number and keys for a tracked hash only |
| DepGraphQueue.DepGraphQueue.ReusableEndorsement | gateway/core/depgraph_queue.go:643-662 | hands the endorsement over once, if it is current |
| DepGraphQueue.DepGraphQueue.RecordCommitted | gateway/core/depgraph_queue.go:608-632 | the ring, the counter and lastWrite after a block |
| DepGraphQueue.DepGraphQueue.MarkReady | gateway/core/depgraph_queue.go:452-488 | files released nodes with their transactions and feeds orphans back |
| DepGraphQueue.DepGraphQueue.TakeNodes | gateway/core/depgraph_queue.go:667-682 | untracks the hashes and returns the nodes they held |
| DepGraphQueue.DepGraphQueue.Complete | gateway/core/depgraph_queue.go:540-546 | untracks one hash and feeds its node back |
| DepGraphQueue.DepGraphQueue.Handle | gateway/core/depgraph_queue.go:551-575 | counts the block, then untracks its hashes and feeds their nodes back |
| NonceRuns.AdmitBeginOk | gateway/core/nonce_parking.go:203-268 | the first half of Admit keeps the bookkeeping, touches only its sender, and with a cached nonce rejects a lower one, hands over the next, parks a later one (replacing one of its nonce) unless the cap is reached, and nothing else |
| NonceRuns.AdmitEndOk | gateway/core/nonce_parking.go:203-268 | the second half does, against the raised nonce, whatever happened in between; a failed read parks nothing and drops an empty reservation |
| NonceRuns.ObserveOneOk | gateway/core/nonce_parking.go:272-333 | one sender of a block: next becomes at least the committed nonce plus one, the transaction parked at next is handed over exactly when there is one, and what stays parked is exactly what was above |
| NonceExact.ObserveExact | gateway/core/nonce_parking.go:272-333 | a block hands over exactly the transactions parked at the new next nonces of its senders and leaves exactly what was parked above; other senders keep what they have |
| NonceExact.ReadyIsReleased | gateway/core/nonce_parking.go:303-333 | after any run a block hands over every transaction that its commits made ready |
| NonceExact.LeavesOnly | gateway/core/nonce_parking.go:155-361 | after any run, whatever the next step, a parked transaction stays as it is unless it is handed over, spent, replaced by another of its nonce, or overdue |
| NonceRuns.HighestExact | gateway/core/nonce_parking.go:272-333 | the map of a block holds exactly the senders with a counted transaction, each with its highest nonce |
| NonceRuns.PruneInv | gateway/core/nonce_parking.go:155-181 | expiring and evicting keeps the invariant, for every order and every legal choice of victims |
| NonceExact.PruneExact | gateway/core/nonce_parking.go:155-165 | after a prune every sender has parked exactly what was not parked for longer than the time to live |
| NonceExact.EvictsOldest | gateway/core/nonce_parking.go:166-181 | evicted senders are idle, each seen no later than every idle one that stays, and no more of them than bring the cache to its cap |
| NonceRuns.StepInv | gateway/core/nonce_parking.go:203-333 | every atomic step keeps the invariant over gate, ledger, observed blocks and Admits in flight |
| NonceRuns.HandedAtNext | gateway/core/nonce_parking.go:203-333 | under every interleaving, what is handed to the queue has its sender's cached next nonce, which lies between the highest observed nonce plus one and the ledger's nonce |
| NonceRuns.Bookkeeping | gateway/core/nonce_parking.go:118-181 | under every interleaving: byHash is exactly the parked transactions, the cap holds, an Admit in flight still owns the entry it pinned, references count those Admits, an unheld entry has a nonce |
| NonceGate.NonceGate.Acquire | gateway/core/nonce_parking.go:118-126 | pins the sender's entry, reserving one if needed |
| NonceGate.NonceGate.Release | gateway/core/nonce_parking.go:131-137 | unpins it and drops an empty reservation |
| NonceGate.NonceGate.AdmitBegin | gateway/core/nonce_parking.go:203-268 | Admit up to the ledger read |
| NonceGate.NonceGate.AdmitEnd | gateway/core/nonce_parking.go:203-268 | Admit after the ledger read, or after its failure |
| NonceGate.NonceGate.Judge | gateway/core/nonce_parking.go:203-268 | rejects a spent nonce, hands over the next, parks a later one within the cap |
| NonceGate.NonceGate.HighestOf | gateway/core/nonce_parking.go:272-333 | the highest counted nonce of each sender of a block |
| NonceGate.NonceGate.Observe | gateway/core/nonce_parking.go:272-333 | the new state is that of the step function for some order of the senders |
| NonceGate.NonceGate.ReleaseReady | gateway/core/nonce_parking.go:353-361 | parked transactions up to next leave, the one at next is handed over |
| NonceGate.NonceGate.Prune | gateway/core/nonce_parking.go:155-181 | drops expired transactions, then evicts the least recently seen idle senders until the cache is within its cap or nothing can be evicted |
| NonceGate.NonceGate.EvictIdle | gateway/core/nonce_parking.go:155-181 | the eviction loop terminates within the cap or with nothing evictable |
| NonceGate.NonceGate.IsPending | gateway/core/nonce_parking.go:336-340 | the parked transaction of a hash, or nothing |
| PlainRuns.PlainAnswers | endorser/execution/statedb.go:284-818 | over every run, reverts included, every answer (balances, nonces, code, storage, committed storage, existence, emptiness, marks, refunds, transient words, previous values, snapshot ids) is the one plain accounts give; so are those about the access list unless a transaction was prepared inside a snapshot |
| PlainRuns.PlainReadWriteSet | endorser/execution/statedb.go:284-717 | after every run the read set has exactly the keys the plain accounts looked up without having written them, no more than needed, and the write set exactly the keys they wrote with what they hold |
| PlainRuns.RunShows | endorser/execution/statedb.go:284-785 | after every run refund, logs, creation and self-destruct marks and transient words are those of the plain accounts |
| PlainRuns.StepMarks | endorser/execution/statedb.go:555-563 | an operation marks an account as self-destructed exactly when it self-destructs one created in this transaction (Specification section of EIP-6780) |
| PlainRuns.MarkedWereCreated | endorser/execution/statedb.go:368-690 | over every run on every store only accounts created in the transaction are marked |
| PlainRuns.ForeignValues | endorser/execution/statedb.go:390-868 | whatever bytes a store holds: an unwritten balance or slot is their big-endian number modulo 2^256, a nonce that of the first eight, one to seven bytes crash its reader, none are 0 |
| PlainRuns.PreviousIsShownIff | endorser/execution/statedb.go:306-546 | before a slot is written, the previous value SetState returns is what GetState shows if and only if the record is not deleted or its word is 0; otherwise SetState says 0 and GetState shows the word |
| PlainChain.NextStarts | endorser/execution/statedb.go:306-717 | commit the write set of any run in any order: the store holds the accounts the run ended with, and the next transaction starts from those |
| PlainChain.NobodyStored | endorser/execution/statedb.go:306-336 | a store without records holds accounts without anything |
| StateUndo.StepExtends | endorser/execution/statedb.go:365-785 | every operation except Prepare can be undone: undoing what it journalled gives the state back, but for logs and repeated self-destruct marks |
| StateUndo.RevertExactIff | endorser/execution/statedb.go:555-690 | a revert restores the saved state if and only if no account marked at the snapshot was self-destructed again since |
| StateUndo.CommandAgrees | endorser/execution/statedb.go:634-690 | one command gives the same answer on the journalled machine and on the machine with saved copies, and keeps them in step |
| StateUndo.UndoIsRestore | endorser/execution/statedb.go:634-717 | over every clean nested run from a new StateDB both machines give the same answers, the same state (journal, logs, refund, marks, access list, transient storage) and the same read-write set |
| UndoRuns.RevertGives | endorser/execution/statedb.go:634-690 | after any commands at all, inexact reverts and Prepare included, a revert gives back the state at its snapshot but for the marks of accounts self-destructed again since, in reverted calls too, and for the access list if a transaction was prepared since; without such a Prepare it is exact if and only if no account marked then was self-destructed again |
| StateUndo.RepeatedSelfDestructLosesMark | endorser/execution/statedb.go:555-563 | self-destructing a marked account again and reverting loses the mark |
| StateUndo.StepApart | endorser/execution/statedb.go:365-818 | every operation, Prepare among them, keeps all but the access list undoable |
| StateUndo.PrepareUndoneIff | endorser/execution/statedb.go:646-818 | a revert across any number of Prepares restores the saved state if and only if no marked account was self-destructed again and the last prepared list, less what was journalled as warmed before that Prepare, is the saved one |
| ReadSet.ReportsAllReads | endorser/execution/statedb.go:284-363 | without reverts the reported reads are all keys read from the store |
| ReadSet.ReadSetSound | endorser/execution/statedb.go:284-717 | for every client without reverts, any second store with the same versions on the reported keys gives the same answers, reads and writes |
| ReadSetExact.FixedByReadsIff | endorser/execution/statedb.go:284-717 | for every client and run, reverts included: every second store with the same versions on the reported keys goes through the same states with the same answers if and only if every key ever read is reported at the end |
| ReadSetExact.UnreportedAnswerVaries | endorser/execution/statedb.go:284-717 | a key unreported in the end and first read by GetBalance, GetNonce, GetCode, GetState or GetStateAndCommittedState: some second store with the reported versions changes an answer |
| ReadSetExact.NextReportsIff | endorser/execution/statedb.go:646-717 | a command keeps every read reported if and only if it is not a revert that drops a key read only since its snapshot |
| ReadSetExact.RevertedReadIsUnreported | endorser/execution/statedb.go:646-717 | a concrete client: a read inside a reverted snapshot is not reported although its value was seen |
| ReadSetExact.SetStateReturnFixedIff | endorser/execution/statedb.go:516-546 | what SetState returns is fixed by the read set if and only if the slot was written or read before, for both kinds of versions |
| AccessLists.AddSlotDenotes | endorser/execution/statedb.go:121-132 | adding a slot adds exactly that pair and its address, however sets are laid out |
| AccessLists.AddAddressDenotes | endorser/execution/statedb.go:114-118 | adding an address adds no slot |
| AccessLists.DeleteSlotDenotes | endorser/execution/statedb.go:142-152 | deleting a slot removes exactly that pair |
| AccessLists.DeleteAddressDenotes | endorser/execution/statedb.go:136-138 | deleting an address removes it and its slots |
| AccessLists.SetWordDenotes | endorser/execution/statedb.go:726-749 | setting a transient word changes exactly that word; a zero denotes nothing |
| StateDB.StateDB.constructor | endorser/execution/statedb.go:227-240 | a new StateDB is the initial state |
| StateDB.StateDB.GetStateFromJournal | endorser/execution/statedb.go:284-302 | the index, rebuilt if dropped, finds the latest journalled write, deletes reading as nil |
| StateDB.StateDB.GetStateFromStore | endorser/execution/statedb.go:306-336 | the store's value, also of a deleted record, with the read journalled without a version for those |
| StateDB.StateDB.GetValue | endorser/execution/statedb.go:340-348 | the journal first, then the store |
| StateDB.StateDB.PutState | endorser/execution/statedb.go:352-363 | journals a write, an empty value as a delete, and keeps the index |
| StateDB.StateDB.CreateAccount | endorser/execution/statedb.go:368-372 | deletes the balance, writes nonce 0 and marks the account new |
| StateDB.StateDB.CreateContract | endorser/execution/statedb.go:375-378 | deletes the code and marks the account new |
| StateDB.StateDB.GetBalance | endorser/execution/statedb.go:390-396 | the balance as a 256-bit word |
| StateDB.StateDB.AddBalance | endorser/execution/statedb.go:399-407 | adds modulo 2^256, nothing at all for 0 |
| StateDB.StateDB.SubBalance | endorser/execution/statedb.go:410-418 | subtracts modulo 2^256, nothing at all for 0 |
| StateDB.StateDB.GetNonce | endorser/execution/statedb.go:421-427 | the first eight bytes; a shorter non-empty value crashes |
| StateDB.StateDB.SetCode | endorser/execution/statedb.go:462-466 | returns the previous code and writes the new one |
| StateDB.StateDB.GetStateAndCommittedState | endorser/execution/statedb.go:484-511 | the committed word is always read and journalled, the current one comes from the journal if written |
| StateDB.StateDB.SetState | endorser/execution/statedb.go:516-546 | a blind write; the previous word is returned without a read dependency |
| StateDB.StateDB.SelfDestruct | endorser/execution/statedb.go:555-563 | empties a non-zero balance and marks the account only if it is new in this transaction (Specification section of EIP-6780) |
| StateDB.StateDB.Exist | endorser/execution/statedb.go:572-584 | looks at balance, nonce and code in turn, reading no more than needed |
| StateDB.StateDB.Empty | endorser/execution/statedb.go:587-598 | balance, nonce and code are zero, looked at in turn |
| StateDB.StateDB.AddRefund | endorser/execution/statedb.go:606-609 | journals the old counter and adds modulo 2^64 |
| StateDB.StateDB.SubRefund | endorser/execution/statedb.go:612-618 | crashes below zero before changing anything |
| StateDB.StateDB.SetTransientState | endorser/execution/statedb.go:733-749 | journals the previous word and sets the new one |
| StateDB.StateDB.GetTransientState | endorser/execution/statedb.go:726-731 | the word the nested maps denote, 0 if unset |
| StateDB.StateDB.SlotInAccessList | endorser/execution/statedb.go:759-761 | whether address and pair are in the list the layout denotes |
| StateDB.StateDB.AddAddressToAccessList | endorser/execution/statedb.go:764-770 | journals and adds an address not yet in the list |
| StateDB.StateDB.AddSlotToAccessList | endorser/execution/statedb.go:773-785 | journals and adds what is missing of the pair |
| StateDB.StateDB.Prepare | endorser/execution/statedb.go:789-818 | replaces the access list by sender, callee, precompiles, declared tuples and, from Shanghai on, the coinbase |
| StateDB.StateDB.Snapshot | endorser/execution/statedb.go:634-643 | records journal and log lengths under the next id |
| StateDB.StateDB.RevertToSnapshot | endorser/execution/statedb.go:646-690 | undoes the journal backwards and truncates; an unknown id is ignored |
| StateDB.StateDB.UndoJournal | endorser/execution/statedb.go:646-690 | the backward loop reaches the state of the undo function |
| StateDB.StateDB.Result | endorser/execution/statedb.go:693-717 | the last read and the last write of each key still in the journal |
| Words.WordRoundTrip | endorser/execution/statedb.go:842-868 | a word survives both of its byte encodings |
| WorldLog.CollectWrites | endorser/storage/lightkvs.go:288-309 | appends exactly the writes of a valid transaction, in order, under namespaced keys; nothing of an invalid one |
| BlockWrites.BlockWritesIff | endorser/storage/lightkvs.go:288-345 | a block writes an update if and only if one of its valid transactions has that write in one of its namespaces, every field as written |
| BlockWrites.WritesOfBlock | endorser/storage/lightkvs.go:330-345 | the writes of a block are those of its transactions in order, an invalid one having none |
| BlockWrites.WritesOfTx | endorser/storage/lightkvs.go:288-309 | the writes of a transaction are those of its namespaces and of their writes in order, each under its namespace, a colon and its key |
| BlockWrites.InvalidIgnored | endorser/storage/lightkvs.go:288-292 | leaving out the invalid transactions of a block changes none of its writes |
| BlockWrites.InvalidBlockIdle | endorser/storage/lightkvs.go:288-345 | a block of invalid transactions leaves the log as it was |
| BlockWrites.SameFullKeyIff | endorser/storage/lightkvs.go:294-300 | two writes share a key if and only if namespace and key are the same, or one namespace goes on, after a colon, into the key of the other |
| BlockWrites.AsOfIs | endorser/storage/lightkvs.go:225-251 | what the log says of a key at a height, field by field: the last write at or below it, its version the number of earlier writes modulo 2^64 |
| WorldLog.ApplyDenotes | endorser/storage/lightkvs.go:215-254 | if a map agrees with a log, the map after a batch agrees with the log after it: latest write per key, version the count of its writes less one modulo 2^64 |
| WorldLog.LatestVersion | endorser/storage/lightkvs.go:225-251 | the version in force is the number of writes less one, across deletes |
| LightKVS.ApplyUpdates | endorser/storage/lightkvs.go:215-254 | the loop with its per-batch version map computes the one-write-at-a-time result |
| LightKVS.VerifyReplay | endorser/storage/lightkvs.go:361-388 | succeeds if and only if the last write of every key is in place |
| LightKVS.LightKVS.constructor | endorser/storage/lightkvs.go:114-127 | the placeholder and an empty ring |
| LightKVS.LightKVS.NewSnapshot | endorser/storage/lightkvs.go:135-159 | the tip for no height or one at or past it, else the first slot of exactly that block |
| LightKVS.LightKVS.ApplyBlock | endorser/storage/lightkvs.go:260-284 | the old tip goes into the next slot, the index wraps, the tip advances even without writes |
| LightKVS.LightKVS.Handle | endorser/storage/lightkvs.go:322-354 | older blocks are skipped, the tip is checked, newer ones applied |
| LightModel.AppliedReplays | endorser/storage/lightkvs.go:361-388 | a batch just applied passes the check |
| Replays.LightRefusesIff | endorser/storage/lightkvs.go:322-388 | after any deliveries another one is refused if and only if it has the tip's number and one of its last writes differs from the ledger's in being a delete, in its transaction or, unless a delete, in its bytes |
| Replays.RevertibleRefusesIff | endorser/storage/revertible_lightkvs.go:130-159 | the same after any deliveries and rewinds, against the tip |
| Replays.PebbleRefusesIff | endorser/storage/pebblekvs.go:251-371 | the same for the persistent store, which compares the block too, and the bytes of deletes |
| LightRuns.HandleInv | endorser/storage/lightkvs.go:256-354 | every delivery keeps ring, tip and timeline in step with the ledger |
| LightRuns.RunAnswers | endorser/storage/lightkvs.go:135-354 | after any deliveries a height is answered if and only if it is at or past the tip or a retained block, and then every key reads as the log says |
| LightRuns.BlockZeroShadowed | endorser/storage/lightkvs.go:151-156 | when the first block is block 0: what height 0 gives, exactly |
| LightRuns.BlockZeroWrong | endorser/storage/lightkvs.go:151-156 | that answer is right for a key if and only if block 0 did not write it |
| LightRuns.AtLeastOnce | endorser/storage/lightkvs.go:322-388 | exact repeats succeed, and the store ends, versions included, as if each block had come once |
| RevertRuns.RunInv | endorser/storage/revertible_lightkvs.go:130-333 | over every run of deliveries and rewinds the window is the unforgotten part of the timeline, key sets only grow along it, and version plus one counts the writes ever applied |
| RevertRuns.RunSnapshotExact | endorser/storage/revertible_lightkvs.go:60-109 | over every run a past height gets the last snapshot at or below it, or an error exactly when all of those are forgotten, except where the placeholder hides block 0 |
| RevertRuns.SnapshotRightIff | endorser/storage/revertible_lightkvs.go:79-103 | that exception is exact |
| RevertRuns.RunVersions | endorser/storage/revertible_lightkvs.go:165-317 | over every run, rewinds included, a key's version plus one is the number of writes ever applied to it, modulo 2^64 |
| RevertRuns.RewindReads | endorser/storage/revertible_lightkvs.go:280-317 | after a rewind every key of the target reads as it did there and every later key as a tombstone; block, transaction, transaction id and version of every record are those before the rewind |
| RevertRuns.RunStamped | endorser/storage/revertible_lightkvs.go:165-317 | over every run, rewinds included, a record carries block, transaction and transaction id of the last write ever applied to its key |
| RevertRuns.RevertRefused | endorser/storage/revertible_lightkvs.go:267-276 | a height past the tip, or with every snapshot forgotten, is refused without a change |
| RevertRuns.RunRevertsIff | endorser/storage/revertible_lightkvs.go:218-276 | after every run a rewind succeeds if and only if its height is the tip's, or is lower and not forgotten by the window; it changes nothing unless it goes lower |
| RevertRuns.CleanIff | endorser/storage/revertible_lightkvs.go:244-328 | lower heights keep their answers if and only if the timeline has the height rewound to |
| RevertRuns.FallbackForgets | endorser/storage/revertible_lightkvs.go:267-328 | a rewind between two snapshots loses the lower one |
| RevertRuns.AtLeastOnce | endorser/storage/revertible_lightkvs.go:130-159 | exact repeats succeed, and the store ends as if each block had come once |
| WrapRuns.WrapFreshIff | endorser/storage/revertible_lightkvs.go:41-103 | a wrapped store refuses every past height if and only if no slot is below the tip |
| WrapRuns.WrapRightIff | endorser/storage/revertible_lightkvs.go:41-194 | a store used for any deliveries and then wrapped answers, after all later deliveries, every past height with the nearest snapshot of the whole timeline or not at all, if and only if its ring lay oldest first from slot 0 or no block number is left |
| WrapRuns.StaleSlotAnswers | endorser/storage/revertible_lightkvs.go:41-194 | a ring of two slots, wrapped after three blocks, answers the second height with the first block once a fourth has arrived |
| WrapRuns.RewindCleanIff | endorser/storage/revertible_lightkvs.go:41-333 | a store used for any deliveries, wrapped, then used for any deliveries and rewinds, and rewound once more to any other height it accepts: over all later deliveries every answer is a tip since that rewind or a kept snapshot at or below its height, if and only if the rewind leaves no slot above that height |
| WrapRuns.AbandonedAnswers | endorser/storage/revertible_lightkvs.go:60-194 | a slot above the height rewound to answers its own height once a block above it has arrived |
| WrapRuns.AbandonedRun | endorser/storage/revertible_lightkvs.go:41-333 | a ring of two slots, wrapped after three blocks and rewound to the first, later answers from the branch left behind |
| RevertibleLightKVS.RevertibleLightKVS.constructor | endorser/storage/revertible_lightkvs.go:45-50 | only the index is reset |
| RevertibleLightKVS.RevertibleLightKVS.Search | endorser/storage/revertible_lightkvs.go:81-94 | one pass finds the last exact slot and the first slot of the highest block below |
| RevertibleLightKVS.RevertibleLightKVS.NewSnapshot | endorser/storage/revertible_lightkvs.go:60-109 | exact, else nearest older, else an error |
| RevertibleLightKVS.RevertibleLightKVS.ApplyBlockSequential | endorser/storage/revertible_lightkvs.go:165-194 | appends to the window, shifting a full one in place |
| RevertibleLightKVS.RevertibleLightKVS.Handle | endorser/storage/revertible_lightkvs.go:130-159 | as the plain store, into the window |
| RevertibleLightKVS.RevertibleLightKVS.RevertToBlock | endorser/storage/revertible_lightkvs.go:218-333 | merges the target into the tip and trims the window |
| RevertibleLightKVS.MergeData | endorser/storage/revertible_lightkvs.go:285-311 | the merge over the current keys |
| KeyCodec.KeyBytesInjective | endorser/storage/pebblekvs.go:663-700 | no two database keys have the same bytes |
| KeyCodec.KeyLayout | endorser/storage/pebblekvs.go:663-700 | the keys byte by byte: kind, length modulo 2^32, state key, complemented block and transaction, creating block |
| KeyCodec.MetaNames | endorser/storage/pebblekvs.go:146-161 | the two reserved keys are the bytes of "mblock" and "moldest" |
| KeyCodec.ParseIndexInverse | endorser/storage/pebblekvs.go:695-708 | parseIndexKey inverts indexKey |
| KeyCodec.HistoryOrder | endorser/storage/pebblekvs.go:683-690 | byte order within one key's history is descending (block, transaction) |
| KeyCodec.HistoryFrom | endorser/storage/pebblekvs.go:683-690 | a scan from the complement of n covers exactly the entries of blocks up to n |
| KeyCodec.HistoryPrefixOnly | endorser/storage/pebblekvs.go:668-681 | a scan meets exactly the history of its key and of the keys that continue it by a multiple of 2^32 bytes |
| KeyCodec.IndexOrder | endorser/storage/pebblekvs.go:692-700 | index entries are in the order of the blocks that created them |
| RecordCodec.UvarintInverse | endorser/storage/pebblekvs.go:742-752 | base-128 varints of Go's encoding/binary decode to what was encoded, whatever follows |
| RecordCodec.HeadThere | endorser/storage/pebblekvs.go:715-752 | a record starts with its flag byte, then block, transaction and version as varints |
| RecordCodec.RecordInverse | endorser/storage/pebblekvs.go:732-818 | decodeRecord inverts encodeRecord, nil and empty values kept apart |
| PebbleDb.FirstIsMet | endorser/storage/pebblekvs.go:599-613 | the first key of a scan names the entry, of the key or of an alias, that sorts first from the height on |
| PebbleDb.FirstIsNewest | endorser/storage/pebblekvs.go:599-613 | the first key of a scan is the newest kept record at or below the height if and only if no alias entry in range sorts before that |
| PebbleDb.AliasFound | endorser/storage/pebblekvs.go:599-613 | a key with no history at or below the height finds nothing if and only if no alias entry is in range |
| PebbleSafety.StagedIs | endorser/storage/pebblekvs.go:273-309 | a block's batch holds the new current records, exactly the records it supersedes, and one index entry for each |
| PebbleSafety.KeptNext | endorser/storage/pebblekvs.go:273-309 | what must be kept after a block is what was kept and what the block supersedes |
| PebbleSafety.HistPruned | endorser/storage/pebblekvs.go:396-446 | after a prune the history is exactly the writes superseded above the cutoff |
| PebbleSafety.IndexPruned | endorser/storage/pebblekvs.go:396-446 | and so is the index |
| PebbleRuns.CommitOk | endorser/storage/pebblekvs.go:251-338 | a commit keeps data, history, index, reserved keys and pins in step with the log; the lower bound never falls and never passes a pin |
| PebbleRuns.HitRight | endorser/storage/pebblekvs.go:588-597 | a current record not newer than the reader is the last write at its height |
| PebbleRuns.ScanRight | endorser/storage/pebblekvs.go:599-620 | a scan at any later moment at which the height is answerable returns the last write at the reader's height |
| PebbleRuns.ScanRightIff | endorser/storage/pebblekvs.go:599-620 | a scan at any moment returns the last write at the height if and only if that write was not superseded below the lower bound |
| PebbleSystem.LateScan | endorser/storage/pebblekvs.go:577-630 | a read of a reader opened after a block was committed and closed between the two halves, whatever else came between, gives what the reader saw if and only if the write in force was not superseded below the lower bound |
| PebbleSystem.StepInv | endorser/storage/pebblekvs.go:251-630 | every event (delivery, open, close, the two halves of a read, restart with any history size) keeps the invariant and does not lower the bound |
| PebbleSystem.AnswerRight | endorser/storage/pebblekvs.go:577-621 | an answer is the last write at or below the reader's height, now and when it was opened, if and only if a block had been committed by then or block 0 did not write the key |
| PebbleSystem.Isolation | endorser/storage/pebblekvs.go:251-630 | over every interleaving from a new store the invariant holds, the lower bound never falls, and every answer to a reader opened after a block was committed is right; one to a reader opened before that is right if and only if block 0 did not write the key |
| PebbleSystem.BeforeAnyBlock | endorser/storage/pebblekvs.go:478-621 | over every interleaving, what a reader opened before any block is answered: the log at height 0, except nothing from a scan while no later block wrote the key; it still sees what it saw when opened exactly in that case and for keys block 0 did not write |
| PebbleSystem.EarlyReadBegun | endorser/storage/pebblekvs.go:577-621 | a read such a reader begins once block 0 wrote the key gives that record, at the first look or by a scan however much later |
| PebbleSystem.BlockZeroVisible | endorser/storage/pebblekvs.go:488-498 | right after block 0 the first look at height 0 settles exactly the keys that block wrote |
| PebbleSystem.ScanAtZero | endorser/storage/pebblekvs.go:599-620 | at any moment a scan at height 0 finds the last write of block 0 if that was superseded at or above the lower bound, else nothing |
| PebbleSystem.OneToOne | endorser/storage/pebblekvs.go:375-384 | history entries and index entries correspond one to one |
| PebbleSystem.PruneExact | endorser/storage/pebblekvs.go:396-446 | a commit drops exactly the entries created at or below its cutoff, gaps in block numbers or not |
| PebbleSystem.BoundAfter | endorser/storage/pebblekvs.go:396-446 | the cutoff is the block less the history size less one, or the lowest pin if that is lower, and none within the history size; the bound becomes one above it unless it is higher |
| PebbleSystem.OpensIff | endorser/storage/pebblekvs.go:478-505 | a request is served, at its height or at the tip if that is lower, if and only if that is at or above the lower bound |
| PebbleSystem.Answerable | endorser/storage/pebblekvs.go:172-216 | after reopening with any history size exactly the heights from the lower bound to the head are answered, as the log says |
| PebbleKVS.StageWrites | endorser/storage/pebblekvs.go:273-309 | the staging loop over bytes computes the batch |
| PebbleKVS.PruneTo | endorser/storage/pebblekvs.go:396-432 | the walk over the ordered index deletes exactly what aged out |
| PebbleKVS.LowestPinned | endorser/storage/pebblekvs.go:450-458 | the lowest pinned height |
| PebbleKVS.VerifyTipReplay | endorser/storage/pebblekvs.go:348-371 | succeeds if and only if the last write of every key is the stored one, of the same block |
| PebbleKVS.ScanHistory | endorser/storage/pebblekvs.go:599-620 | the record of the entry that sorts first from the height on, aliases included, or nothing; without stored aliases that is the newest kept record at or below the height |
| PebbleKVS.PebbleKVS.constructor | endorser/storage/pebblekvs.go:172-216 | resumes from the stored checkpoint and lower bound |
| PebbleKVS.PebbleKVS.PruneLocked | endorser/storage/pebblekvs.go:396-446 | prunes the batch and records a risen lower bound |
| PebbleKVS.PebbleKVS.CommitBlock | endorser/storage/pebblekvs.go:251-338 | skip, check or one atomic batch |
| PebbleKVS.PebbleKVS.Handle | endorser/storage/pebblekvs.go:530-544 | commits the valid writes of a block |
| PebbleKVS.PebbleKVS.NewSnapshot | endorser/storage/pebblekvs.go:478-505 | pins the height served, or refuses one below the lower bound |
| PebbleKVS.PebbleKVS.ReleaseReader | endorser/storage/pebblekvs.go:461-469 | drops one pin of a height |
| PebbleKVS.PebbleSnapshot.Get | endorser/storage/pebblekvs.go:577-621 | the current record if not newer, else the record the scan meets first, aliases included, which without stored aliases is the newest kept one; a closed reader fails |
| PebbleKVS.PebbleSnapshot.Close | endorser/storage/pebblekvs.go:624-630 | releases the pin once |
| Parity.AtLeastOnce | endorser/storage/pebblekvs.go:251-371 | exact repeats succeed, and the persistent store ends as if each block had come once |
| Parity.SameRecord | endorser/storage/pebblekvs.go:478-621 | whatever was delivered, where both stores answer a height they give the same record |
| Parity.SameAnswers | endorser/storage/lightkvs.go:135-284 | for blocks from 1 on without gaps and equal history sizes, without readers, both stores accept the same heights and give the same record for every key |
| Parity.SameAnswersBetween | endorser/storage/pebblekvs.go:172-621 | the same with readers, reads and restarts in any order between the commits, no reader being open at a commit |
| KeyText.TextInjective | endorser/execution/statedb.go:270-276 | no two state keys have the same text, however addresses are cased |
| KeyText.TextLayout | endorser/execution/statedb.go:270-276 | the text of a key part by part; its hexadecimal digits read back as address and slot |
| RoundTrip.WritesLast | endorser/execution/statedb.go:693-717 | the write set holds one write for each written key, its last |
| RoundTrip.CommitCarries | endorser/execution/statedb.go:306-717 | after any run, reverts included, committing the write set in any order makes a new StateDB answer balance, nonce, code, storage, existence and emptiness of every account as the old one did |
| RoundTrip.LightCarries | endorser/storage/lightkvs.go:215-354 | the same through the in-memory store, from its tip to its next tip |

## Left out

- go-ethereum's interpreter, signing, RLP, Keccak and pool validation: foreign code; a transaction's hash, sender and nonce, and the checksum casing of an address, are given.
- GetCodeHash, GetCodeSize, GetStorageRoot, Logs, Touch, HasSelfDestructed, IsNewContract and GetRefund as methods of the class: one-line queries; their answers are in the step function.
- DualStateDB and the StateDB loggers: delegation.
- The dependency manager, its channels, workers, tickers and batch timing in DepGraphQueue: an external library and scheduling; only the steps under the lock are modelled.
- Enqueue, Dequeue and drop of DepGraphQueue as methods: they appear as steps of the runs only.
- Blocking, condition variables, statistics and metrics of the queues.
- Fairness of TxQueueV2: new arrivals may keep overtaking a waiting transaction, by design.
- The time-to-live clock and the reaper's ticker: time is a parameter.
- VersionedDBWrapper, the SQL stores, JSON-RPC, gRPC, configuration and wiring: plumbing over code that is not modelled.
- Store errors, corrupt values found on reading, and crashes inside a batch: batches are atomic and reads succeed; decoding of corrupt bytes is modelled in RecordCodec only.
- LightKVS.LightKVS.Handle: requires a ring with at least one slot, because without one the original crashes on the first block.
- PebbleSystem.Isolation: no answer to a reader closed in the middle of a read, for which there is LateScan; a scan is modelled by what it should find, which is what it finds for keys without stored aliases.
- PebbleKVS.PebbleKVS.Handle: requires encoded records below 2^63 bytes, because Go holds no longer slices.
- WrapRuns.WrapRightIff: later deliveries only; for a rewind of a wrapped store there is RewindCleanIff. Where block 0 follows the placeholder, either counts as the snapshot of height 0.
- EndorsementReuse.ReuseSound: signing and encoding of an endorsement are one function of the run.
- StateDB.StateDB.RevertToSnapshot: requires recorded lengths within the journal, which every run keeps (StateUndo.RangeKept).
