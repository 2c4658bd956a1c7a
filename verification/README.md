# Peloton: transactions, epochs and execution, verified

A Dafny model of the core of the Peloton database: multi-version timestamp ordering, the
decentralized epoch manager, garbage collection and snapshots, and five independent parts of the
execution engine. `dafny verify dfyconfig.toml` checks everything.

## How the parts fit together

**Transactions.** Every tuple is a chain of versions. A version header holds the lock word
(`txn`), the interval (`begin`, `end`), the last reader and the payload. The protocol is modelled
on four levels, each tied to the next by a refinement theorem.

| level | modules | what one step is |
|---|---|---|
| chains | `VersionChain`, `Protocol`, `ProtocolInvariant`, `ProtocolCommit`, `ProtocolSafety`, `Serializability` | one read, lock, write, commit or abort of any transaction |
| header writes | `FineGrained`, `FineSimulation`, `FineSafety`, `FineWitness` | as above, but commit and abort write one header field at a time and anything may happen in between |
| linked slots | `Store`, `StoreInvariant`, `StoreSteps`, `StoreCalls`, `StoreLinks`, `StoreCommit`, `StoreAbort`, `StoreRefinement`, `StoreSafety`, `AbortUndo` | one call of the transaction manager on slots with `prev`, `next` and index entries, driven by read/write sets |
| objects | `Transactions`, `CommitLoop`, `UncheckedCalls`, `TransactionManagers`, `Executors`, `ExecutorBatches`, `VectorizedRead`, `IndexLookup`, `StoreWitness` | methods with the source's loops and field updates, each proved to be its call on the linked store |

The central argument is that a transaction's log, replayed on the single-version database just
before its timestamp, gives what the transaction now sees, and that no step of anybody else can
change that database before the timestamp (`Replay`, `ChainActions`).

**Epochs, garbage, snapshots.** `LocalEpochs` and `EpochSafety` are the epoch protocol over all
threads, `EpochManagers` its objects. `Collection` runs store, epochs, read-only transactions and
the collector's sets side by side; `Verdicts`, `CollectionSafety` and `SnapshotExactness` prove
what may be recycled and when a snapshot is stable, `GarbageSets` and `GarbageAccounts` that exactly
what is no longer needed reaches the collector, once.

**Execution.** Open-addressing hash table (`OpenAddressing`, `HashTables`), hash set operations
(`SetOperations`, `Flattening`, `LogicalTiles`, `HashSetOps`), aggregation (`Aggregates`,
`Aggregators`), compact rows (`Bitmaps`, `CompactRows`), LRU cache (`LruCache`).

## Modelling choices

- Transactions are SERIALIZABLE or REPEATABLE_READS: read id and commit id are the same. READ_ONLY
  transactions appear in the snapshot and garbage results. Commit ids are distinct.
- IsVisible and PerformRead of one tuple are one step. Checking IsOwnable and acquiring are separate:
  the guard of an acquisition is only what AcquireOwnership checks itself.
- Epoch ids are at least 1 and below 2^32, the set of threads is fixed. Fetching the current epoch
  and entering it are separate steps; GetExpiredEpochId and entering a snapshot are single steps.
- The sequence number wraps modulo 2^32, as `uint32_t` does. Other integers are unbounded.
- Reserved ids are those of `src/include/type/types.h`. No commit id lies in the dirty range that
  recovery would leave.
- The collector may recycle a finished transaction's slots once its epoch is reported expired. For an
  aborted transaction the source waits for a later epoch (`src/concurrency/transaction_manager.cpp:94-100`),
  which the theorem covers.
- Runs of manager calls on the linked store contain no write of a version that the transaction has
  overwritten before: there such a call has no effect. The manager object and the executors do
  perform it; `UncheckedCalls.Unchecked` is what it does, and the finding on tuples listed twice says
  when it matters.
- PL_ASSERT is taken as compiled out where the code goes on after it, as recording a second delete does.
- A failed call leaves the state unchanged. An executor that has acquired a version writes or yields
  it before its transaction makes another call.
- Aggregated columns hold integers and NULL; a decimal value appears only as an average.
- `std::sort` is written as an insertion sort, of which only the order and the permutation are used; hash maps are traversed in
  any order; hash functions, projections, HAVING predicates and expressions are arbitrary functions.

## Findings

Properties that the code does not have, each with a concrete input and the exact condition.

- **Only one version is visible** (the comment at
  `src/concurrency/timestamp_ordering_transaction_manager.cpp:817-818`) does not hold of IsVisible while
  a commit is being installed. `FineSafety.TwoVisibleWindow` gives the exact window,
  `FineSafety.TombstoneWindow` the one in which a deleted tuple's empty version answers OK, and
  `FineWitness` runs that reach them. Because a read also checks the lock word, no transaction can
  successfully read two versions (`FineSafety.OneReadableVersion`).
- **Snapshots** of READ_ONLY transactions carry sequence number 0, and so does the first ordinary
  transaction, and every 2^32-nd one after it. A writer with the reader's timestamp is taken for the
  reader itself. `CollectionSafety.FirstTransactionCollides` is a run,
  `SnapshotExactness.SnapshotExact` the exact condition.
- **The write flag** of a transaction is not set by an update or delete of a version that is not in
  the read/write set yet (`Transactions.Transaction.RecordUpdate`, `RecordDelete`): exactly then
  `IsReadOnly` may be wrong, as in `StoreWitness.BlindUpdate`. The executors always read first.
- **An index lookup fails its transaction** when a chain of two or more versions begins entirely
  after the reader, instead of finding nothing (`IndexLookup.Lookup`). `StoreWitness.LookupFails` is a
  run.
- **A tuple listed twice** in an executor's input leaks a write lock, if it is a committed version:
  the second new version goes in between, and neither commit nor abort finds the first one. The exact
  conditions are `UncheckedCalls.WriteReleases` for one write (the entry is READ_OWN) and
  `ExecutorBatches.RepeatsLeak` for a batch (no committed version twice; versions of the transaction's
  own may repeat). `StoreWitness.RepeatedTupleLeaks` is a run.
- **Sorted aggregation of tuples without columns** outputs nothing
  (`Aggregators.EmptyTuplesDisagree`). A sequential scan never produces such tuples unless the table
  has no columns, because an empty column list selects all columns
  (`src/executor/seq_scan_executor.cpp:71-73`); `AggregateExecutor` does not check.

## Model

| member | source | states |
|---|---|---|
| Serializability.Serializable | src/concurrency/timestamp_ordering_transaction_manager.cpp:762-917 | after any interleaving of any transactions, executing the committed ones whole and in commit-id order on a single-version database succeeds: every read gets the value it observed, every lookup that met a deleted tuple finds none, and the result is what the chains hold |
| Serializability.CommitOrderExists | src/concurrency/timestamp_ordering_transaction_manager.cpp:784-787 | every state has such a commit-id order, so the serializability theorems are never vacuous |
| ProtocolCommit.RunKeepsInv | src/concurrency/timestamp_ordering_transaction_manager.cpp:157-189 | every step of every interleaving keeps the protocol invariant: well-formed chains, locks and stamps of known transactions, and logs that replay to what their transaction sees |
| ProtocolCommit.CommitKeepsInv | src/concurrency/timestamp_ordering_transaction_manager.cpp:816-880 | installing a whole write set keeps every other running transaction's log replayable: nobody is bypassed |
| ProtocolCommit.AbortKeepsInv | src/concurrency/timestamp_ordering_transaction_manager.cpp:969-1079 | an abort keeps the invariant for all other transactions |
| ProtocolSafety.OneVersionAnswers | src/concurrency/transaction_manager.cpp:187-267 | in every reachable state, for a viewer that owns nothing in a chain and every timestamp from the oldest begin on, exactly one version answers OK or DELETED |
| ProtocolSafety.AnswersCovers | src/concurrency/transaction_manager.cpp:209-266 | a version answers such a viewer if and only if its begin/end interval covers the timestamp |
| ProtocolSafety.AcquireHitsNewest | src/concurrency/timestamp_ordering_transaction_manager.cpp:147-189 | a lock taken by a transaction that read the version is on the newest version, whose end stamp is unset and above the commit id |
| ProtocolSafety.CommitOverwritesNewest | src/concurrency/timestamp_ordering_transaction_manager.cpp:824-825 | what a commit overwrites is locked by it, was last read by it, began before it and has end stamp MAX_CID, so the assertion on the end stamp holds |
| ProtocolSafety.RunPersists | src/concurrency/timestamp_ordering_transaction_manager.cpp:45-74 | along any run installed versions keep place, begin stamp and value, and last-reader stamps never decrease |
| ProtocolSafety.ReadIsStable | src/concurrency/timestamp_ordering_transaction_manager.cpp:425-448 | after a successful read of a committed version (unowned, already owned, or locked by select-for-update), in every later state that version still covers the reader and versions installed by others begin strictly after it |
| FineSimulation.FineRunRefines | src/concurrency/timestamp_ordering_transaction_manager.cpp:816-917 | whatever happens between the single header writes of commits and aborts, memory is a state of the atomic protocol plus header writes still to come |
| FineSafety.OneReadableVersion | src/concurrency/timestamp_ordering_transaction_manager.cpp:816-880 | between any two header writes a running transaction can successfully read at most one version of a chain, and never one whose writer has not decided to commit |
| FineSafety.FineSerializable | src/concurrency/timestamp_ordering_transaction_manager.cpp:969-1079 | serializability also holds with header-by-header commits and aborts; the serial result is memory with every decision carried out, hence memory itself when nothing is half-installed |
| FineSafety.TwoVisibleWindow | src/concurrency/timestamp_ordering_transaction_manager.cpp:816-841 | "only one version is visible" fails for IsVisible alone, and exactly when: two versions answer OK to a viewer owning neither if and only if they are old and new version of a commit inside its window (two header writes for an update, one for a delete) with commit id at most the timestamp |
| FineSafety.TombstoneWindow | src/concurrency/timestamp_ordering_transaction_manager.cpp:848-869 | while a delete commits, its empty version answers OK instead of DELETED exactly between its end stamp and its final lock word |
| FineWitness.UpdateShowsTwo | src/concurrency/timestamp_ordering_transaction_manager.cpp:816-841 | a run that ends inside the update window: two versions answer OK and neither can be read |
| FineWitness.DeleteShowsTwo | src/concurrency/timestamp_ordering_transaction_manager.cpp:848-869 | a run of a delete: one version answers OK after the first header write, two after the second |
| StoreRefinement.StoreRefines | src/concurrency/timestamp_ordering_transaction_manager.cpp:366-917 | every run of manager calls on slots with prev/next links and index entries is a run of the protocol on version chains with the same outcomes and histories, and all pointers stay consistent |
| StoreRefinement.CallFollows | src/concurrency/timestamp_ordering_transaction_manager.cpp:366-760 | each successful call is one protocol step |
| StoreSafety.StoreSerializable | src/concurrency/timestamp_ordering_transaction_manager.cpp:762-917 | serializability of the pointer-level store, stated on the histories of the manager calls |
| StoreSafety.ChainsConsistent | src/concurrency/timestamp_ordering_transaction_manager.cpp:511-605 | in every reachable store each index entry leads to an acyclic doubly linked list, intervals of neighbours are adjacent, and slots outside the lists are dead |
| StoreSafety.NeighboursAdjacent | src/concurrency/timestamp_ordering_transaction_manager.cpp:636-727 | read off the slots: an older neighbour links back, shares the index entry and ends where the newer one begins |
| StoreSafety.AcquireIsNewest | src/concurrency/timestamp_ordering_transaction_manager.cpp:157-189 | AcquireOwnership checks only the lock word and the last reader; in every reachable store it still lands on a version with nothing in front of it and no end stamp |
| StoreSafety.LocksAreHeld | src/concurrency/transaction.cpp:65-171 | every slot that carries a transaction id belongs to a running transaction, is accounted for by its read/write set or is the one just acquired, and both commit and abort release it |
| StoreSafety.FinishedHoldsNothing | src/concurrency/timestamp_ordering_transaction_manager.cpp:762-1107 | no slot carries the id of a finished transaction |
| StoreSafety.EntriesAdvance | src/concurrency/transaction.cpp:65-171 | over any run an entry only moves up: READ, READ_OWN, UPDATE, DELETE, and INSERT, INS_DEL |
| StoreCommit.CommitKeepsInv | src/concurrency/timestamp_ordering_transaction_manager.cpp:816-917 | commit through the read/write set keeps links, sessions and lock accounting |
| StoreAbort.AbortKeepsInv | src/concurrency/timestamp_ordering_transaction_manager.cpp:958-1107 | so does abort, including the unlinking |
| AbortUndo.AbortIsUndo | src/concurrency/timestamp_ordering_transaction_manager.cpp:938-1107 | if a transaction holds a version that was committed and unlocked at some earlier time and aborts, after any run in between, the version has its old stamps, value and links and is the head again; only its last-reader stamp may have grown |
| AbortUndo.AbortLeavesOthers | src/concurrency/timestamp_ordering_transaction_manager.cpp:964-1106 | slots the transaction does not hold keep every field; versions it created are INVISIBLE to every id and timestamp, and those that overwrote another are on no chain |
| AbortUndo.AbortRestoresHeads | src/concurrency/timestamp_ordering_transaction_manager.cpp:988-999 | an index entry changes exactly if the transaction had put a version over another one, and then points to that one again |
| AbortUndo.AbortIsInvisible | src/concurrency/timestamp_ordering_transaction_manager.cpp:938-1107 | at every timestamp the database is the same before and after an abort |
| AbortUndo.RunKeeps | src/concurrency/timestamp_ordering_transaction_manager.cpp:816-880 | no sequence of calls changes begin stamp, value or older link of a committed version, or an end stamp once set |
| TransactionManagers.TransactionManager.BeginTransaction | src/concurrency/transaction_manager.cpp:33-75 | a fresh transaction object with an empty read/write set whose id is its read and commit id |
| TransactionManagers.TransactionManager.SetLastReaderCommitId | src/concurrency/timestamp_ordering_transaction_manager.cpp:45-74 | succeeds exactly for the owner or an unlocked version, and then raises the stamp to the maximum |
| TransactionManagers.TransactionManager.AcquireOwnership | src/concurrency/timestamp_ordering_transaction_manager.cpp:157-189 | succeeds exactly when no later transaction has read the version and nobody holds it, and then changes the lock word and nothing else; is that call of the store model |
| TransactionManagers.TransactionManager.YieldOwnership | src/concurrency/timestamp_ordering_transaction_manager.cpp:197-203 | puts the lock word of the version just acquired back to INITIAL and changes nothing else; is that call of the store model |
| TransactionManagers.TransactionManager.PerformRead | src/concurrency/timestamp_ordering_transaction_manager.cpp:366-472 | serializable and repeatable reads, plain and for update: succeeds exactly for the owner or on an unlocked version (for update: open and without later reader), raises the last reader, locks if asked to, records the version, and touches no other slot; is that call of the store model |
| TransactionManagers.TransactionManager.LockForRead | src/concurrency/timestamp_ordering_transaction_manager.cpp:384-423 | select-for-update succeeds exactly on an unlocked, open version without later reader, and leaves it locked, stamped and recorded |
| TransactionManagers.TransactionManager.PerformInsert | src/concurrency/timestamp_ordering_transaction_manager.cpp:474-509 | the new slot holds the value, locked and uncommitted, the index entry points to it and it is recorded; nothing else changes; is that call of the store model |
| TransactionManagers.TransactionManager.PerformUpdate | src/concurrency/timestamp_ordering_transaction_manager.cpp:511-605 | for any committed version that the transaction holds, overwritten before or not: a pending version with the new value is linked in front of it, and nothing else changes but the link of a version that was there before; it is the store model's update, and keeps the manager valid, if the version was just acquired or selected for update |
| TransactionManagers.TransactionManager.PerformDelete | src/concurrency/timestamp_ordering_transaction_manager.cpp:636-727 | the same for the empty version of a delete, whose end stamp is INVALID_CID |
| TransactionManagers.TransactionManager.UpdateOwnVersion | src/concurrency/timestamp_ordering_transaction_manager.cpp:607-634 | changes the payload of the transaction's own version and nothing else in memory; records the overwritten version; is that call of the store model |
| TransactionManagers.TransactionManager.DeleteOwnVersion | src/concurrency/timestamp_ordering_transaction_manager.cpp:729-760 | sets the end stamp of the transaction's own version to INVALID_CID and nothing else in memory; a second one changes nothing |
| TransactionManagers.TransactionManager.CommitEntry | src/concurrency/timestamp_ordering_transaction_manager.cpp:811-915 | header writes and recycled slots of one entry, of which GarbageSets.EntryRecycles says that they are exactly those turned into garbage; the assertions on the end stamp hold |
| TransactionManagers.TransactionManager.CommitTransaction | src/concurrency/timestamp_ordering_transaction_manager.cpp:762-936 | the two nested loops, in any traversal order, install exactly the store model's commit; a slot is handed to the collector if and only if the transaction held it and its version is now overwritten by the transaction or unusable, and the index entry goes with exactly the version that ends its chain |
| TransactionManagers.TransactionManager.AbortEntry | src/concurrency/timestamp_ordering_transaction_manager.cpp:964-1106 | header writes, index entry and recycled slots of one entry, of which GarbageSets.UndoRecycles says that they are exactly those made unusable; the assertion that the old version is open holds |
| TransactionManagers.TransactionManager.AbortTransaction | src/concurrency/timestamp_ordering_transaction_manager.cpp:938-1107 | the two nested loops, in any traversal order, are exactly the store model's abort; a slot is handed to the collector if and only if it is an uncommitted version of the transaction, and the index entry goes with it if and only if it overwrote nothing |
| GarbageSets.CommitGarbageIs | src/concurrency/timestamp_ordering_transaction_manager.cpp:843-912 | in every reachable store, from the headers alone: l is recycled by a commit if and only if its lock word was the transaction's and its version after the commit is garbage; the flag says that its tombstone is in front of it or that it was inserted and deleted |
| GarbageSets.OneFlagPerDeletion | src/concurrency/timestamp_ordering_transaction_manager.cpp:871-912 | a chain whose head is a deletion mark of the transaction has exactly one slot with which the index entry goes; any other chain has none |
| GarbageSets.AbortGarbageIs | src/concurrency/timestamp_ordering_transaction_manager.cpp:1014-1106 | l is recycled by an abort if and only if the transaction created it, with the index entry if and only if it has no older version |
| GarbageSets.EntryRecycles | src/concurrency/timestamp_ordering_transaction_manager.cpp:811-915 | installing one entry adds to the garbage exactly the slots that it changes into garbage |
| GarbageSets.UndoRecycles | src/concurrency/timestamp_ordering_transaction_manager.cpp:964-1106 | undoing one entry adds exactly the slots whose lock word it sets to INVALID |
| TransactionManagers.OwnedReader | src/concurrency/timestamp_ordering_transaction_manager.cpp:454-456 | a version that a transaction owns was last read by it or by nobody, as the read of an owned version asserts |
| TransactionManagers.WriteSetSeparated | src/concurrency/timestamp_ordering_transaction_manager.cpp:820-825 | in every reachable store each written version of a running transaction is open and has its own, unrecorded new version at the head of its chain |
| CommitLoop.CommitOneMore | src/concurrency/timestamp_ordering_transaction_manager.cpp:802-915 | entries can be installed in any order: one more entry turns the partial commit into the next one |
| CommitLoop.AbortOneMore | src/concurrency/timestamp_ordering_transaction_manager.cpp:958-1106 | the same for abort |
| Transactions.Transaction.GetRWType | src/concurrency/transaction.cpp:49-63 | lookup in the per-tile-group maps is lookup in the flat read/write set |
| Transactions.Transaction.RecordRead | src/concurrency/transaction.cpp:65-76 | keeps the write counters consistent; the flat set changes as the read/write-set model says |
| Transactions.Transaction.RecordReadOwn | src/concurrency/transaction.cpp:78-93 | the same; READ becomes READ_OWN and nothing moves down |
| Transactions.Transaction.RecordUpdate | src/concurrency/transaction.cpp:95-123 | the write flag stays exact if and only if it was set or the version was recorded before: a blind update is stored without the flag |
| Transactions.Transaction.RecordInsert | src/concurrency/transaction.cpp:125-136 | counts exactly the surviving inserts |
| Transactions.Transaction.RecordDelete | src/concurrency/transaction.cpp:138-171 | deleting an own insert is reported and leaves one insert fewer; the flag is exact under the same condition as for updates |
| Transactions.Transaction.IsReadOnly | src/concurrency/transaction.cpp:95-171 | with an exact flag, true if and only if nothing was updated or deleted and no insert survives |
| IndexLookup.Lookup | src/executor/index_scan_executor.cpp:214-323 | the walk from the head ends, never takes the branch that follows a link back, and answers exactly what a scan of the chain would accept; it finds a version if and only if the transaction's own view has a value for the key, and then that value; it fails the transaction if and only if the chain has two or more versions and all begin after the reader |
| IndexLookup.Scan | src/executor/seq_scan_executor.cpp:160-209 | each slot for which IsVisible answers OK comes out as often as it is listed, others not at all, and in the order of the list |
| IndexLookup.SeenIsOwn | src/concurrency/transaction_manager.cpp:209-266 | what IsVisible shows to a running transaction is the value of its own view: its uncommitted write, or what the chain held just before its timestamp |
| IndexLookup.OwnIsSeen | src/concurrency/transaction_manager.cpp:209-266 | conversely, whatever that view holds is shown |
| IndexLookup.LookupAgreesWithScan | src/executor/index_scan_executor.cpp:214-323 | a slot is visible to the scan if and only if it is what the walk down some chain finds |
| Executors.WriteTuple | src/executor/update_executor.cpp:183-335 | one iteration of the update or delete loop, for any version that was read or is held, makes exactly the modelled calls and reports whether the tuple was written; if not, the store is as it was |
| ExecutorBatches.Execute | src/executor/update_executor.cpp:128-338 | for every batch of tuples that were read, repeated ones included: stops at the first tuple that cannot be written and nowhere else; on success each tuple shows the projected value (projected as often as an own version occurs) or is marked deleted; slots that were not written keep every field; commit, and likewise abort, releases every lock if and only if no committed version was written twice |
| ExecutorBatches.RepeatsLeak | src/executor/update_executor.cpp:228-335 | the same iff as a theorem over every reachable store, every batch, every plan and every number of successful iterations |
| ExecutorBatches.OthersStay | src/executor/update_executor.cpp:128-338 | whatever the batch, a slot that is not among the written tuples keeps its header, payload and links |
| ExecutorBatches.ReadIsReady | src/concurrency/timestamp_ordering_transaction_manager.cpp:366-472 | what a successful read, plain or for update, leaves is ready to be written, so a scan delivers such batches |
| Executors.RuntimeDelete | src/codegen/transaction_runtime.cpp:81-141 | the delete of compiled plans, which recognises an own version by its begin stamp alone, makes the same calls with the same outcome |
| Executors.FailedWrite | src/executor/delete_executor.cpp:144-174 | an iteration that fails, also after it took a lock, leaves the whole store as it was |
| UncheckedCalls.WriteReleases | src/concurrency/timestamp_ordering_transaction_manager.cpp:547-598 | in every reachable store, for updates and deletes: after writing a committed version that the transaction holds, commit, and likewise abort, releases all its locks if and only if the version's entry is READ_OWN |
| StoreWitness.RepeatedTupleLeaks | src/executor/update_executor.cpp:228-335 | a run from the empty store: one tuple, read once and listed twice; both iterations succeed and a lock stays for good |
| StoreWitness.LookupFails | src/executor/index_scan_executor.cpp:214-323 | a run from the empty store after which the lookup of an older transaction fails |
| StoreWitness.BlindUpdate | src/concurrency/transaction.cpp:95-123 | a fresh transaction whose blind update leaves it on the read-only path |
| VectorizedRead.PerformVectorizedRead | src/codegen/transaction_runtime.cpp:25-64 | the two in-place loops leave, in ascending order, exactly the tuples of the range that are visible and not held by another transaction; exactly those, unless the transaction holds them, are stamped and get a read-set entry, and nothing else changes |
| VectorizedRead.SelectVisible | src/codegen/transaction_runtime.cpp:34-44 | the first loop compacts to the visible tuples |
| VectorizedRead.ReadSelected | src/codegen/transaction_runtime.cpp:48-63 | the second loop compacts to those whose read succeeds, and reads exactly those |
| EpochSafety.ExpiredIsFinished | src/concurrency/decentralized_epoch_manager.cpp:61-85 | after any run every reported expired epoch is below every epoch with an unfinished transaction, no later entry to read or to take a snapshot joins an epoch at or below it, and reports never decrease |
| EpochSafety.ReportIsExact | src/concurrency/decentralized_epoch_manager.cpp:61-85 | in every reachable state a report r is possible if and only if there is a thread and r + 1 is the least unfinished epoch of all threads, or the current epoch when nothing is unfinished; the snapshot epoch then is r + 1 |
| EpochSafety.IdsAreUnique | src/concurrency/decentralized_epoch_manager.cpp:33-46 | in any run of any threads two entries get the same id only if they join the same epoch with 2^32 entries or more between them |
| EpochSafety.RunKeepsEpochs | src/concurrency/decentralized_epoch_manager.cpp:21-85 | every step of every thread keeps the epoch invariant, although a snapshot may lower one thread's bound |
| EpochSafety.StampsAgree | src/concurrency/decentralized_epoch_manager.cpp:42-44 | two timestamps are equal if and only if epochs agree and sequence numbers agree modulo 2^32 |
| EpochSafety.EpochsOrderStamps | src/concurrency/decentralized_epoch_manager.cpp:42-44 | a smaller epoch gives a smaller timestamp |
| LocalEpochs.EnterKeeps | src/concurrency/local_epoch.cpp:19-63 | entering keeps heap order, counts and bound consistent with the unfinished transactions |
| LocalEpochs.ExitKeeps | src/concurrency/local_epoch.cpp:65-84 | so does leaving; the bound never decreases |
| LocalEpochs.ExpireKeeps | src/concurrency/local_epoch.cpp:86-111 | so does asking for the expired epoch, which never lowers an ordinary bound |
| LocalEpochs.ExpireIsExact | src/concurrency/local_epoch.cpp:86-111 | what one thread reports is the least epoch of its unfinished transactions less one, or the current epoch less one when it has none |
| EpochManagers.LocalEpoch.EnterEpoch | src/concurrency/local_epoch.cpp:19-63 | refuses exactly a non-snapshot entry at or below the bound; otherwise the state changes as modelled |
| EpochManagers.LocalEpoch.ExitEpoch | src/concurrency/local_epoch.cpp:65-84 | decrements and pops finished epochs as modelled |
| EpochManagers.LocalEpoch.GetExpiredEpochId | src/concurrency/local_epoch.cpp:86-111 | pops finished epochs and returns the exact bound: just below the thread's least unfinished epoch, or below the current one when it is idle |
| EpochManagers.DecentralizedEpochManager.EnterEpoch | src/concurrency/decentralized_epoch_manager.cpp:33-46 | the retry loop enters the first fetched epoch that is not refused, ends once a current epoch is fetched, and returns the stamp of that epoch and the next sequence number |
| EpochManagers.DecentralizedEpochManager.EnterSnapshotEpoch | src/concurrency/decentralized_epoch_manager.cpp:25-29 | enters the snapshot epoch and returns its first timestamp |
| EpochManagers.DecentralizedEpochManager.ExitEpoch | src/concurrency/decentralized_epoch_manager.cpp:51-58 | leaves the thread's local epoch |
| EpochManagers.DecentralizedEpochManager.GetExpiredEpochId | src/concurrency/decentralized_epoch_manager.cpp:61-85 | whatever the order of threads, reports the least unfinished epoch of all threads less one, or the current epoch less one when nothing is unfinished, and sets the snapshot epoch just above it; MAX_EID without threads |
| Collection.SysRunKeeps | src/concurrency/transaction_manager.cpp:78-108 | store, epochs, readers and garbage together keep their invariant over every run |
| CollectionSafety.GarbageIsUnseen | src/concurrency/transaction_manager.cpp:78-102 | once a report reaches a finished transaction's epoch, nobody running then or later, read-only transactions included, gets OK on a slot in its garbage set |
| GarbageAccounts.NothingIsLost | src/concurrency/timestamp_ordering_transaction_manager.cpp:843-1106 | after any run of any threads, a slot is in some transaction's garbage if and only if its version has ended or the slot is unusable, and then in that of one transaction only: nothing leaks and nothing is recycled twice |
| Verdicts.CommitLeavesGarbage | src/concurrency/timestamp_ordering_transaction_manager.cpp:843-878 | what a commit hands to the collector has ended with it or is dead |
| Verdicts.AbortLeavesGarbage | src/concurrency/timestamp_ordering_transaction_manager.cpp:969-1106 | what an abort hands over is dead |
| Verdicts.CallKeepsVerdict | src/concurrency/transaction_manager.cpp:209-266 | no call of a later transaction changes a read-only transaction's IsVisible verdict on an existing slot |
| CollectionSafety.SnapshotIsStable | src/concurrency/decentralized_epoch_manager.cpp:76-82 | no running transaction is older than a reader's snapshot; as long as none has exactly its timestamp, no step changes any verdict |
| SnapshotExactness.SnapshotExact | src/concurrency/decentralized_epoch_manager.cpp:25-46 | for a reader in any reachable system every continuation keeps its view if and only if no transaction with its timestamp is running or can still begin; as long as epoch ids last, if and only if one has begun and finished |
| CollectionSafety.OnlyCollisionsDisturb | src/concurrency/transaction_manager.cpp:227-231 | an insert disturbs a reader if and only if its transaction has the reader's timestamp; then the uncommitted tuple is read |
| CollectionSafety.FirstTransactionCollides | src/concurrency/decentralized_epoch_manager.cpp:25-46 | a run: the very first transaction has the first snapshot's timestamp, the reader sees its insert, and it aborts |
| HashSetOps.HashSetOpExecutor.Execute | src/executor/hash_set_op_executor.cpp:65-159 | the visible rows afterwards are, as a multiset, the INTERSECT, INTERSECT ALL, EXCEPT or EXCEPT ALL (section 7.10 of ISO/IEC 9075:1992) of the visible rows of both sides; no row becomes visible; fails exactly without a left tile |
| HashSetOps.HashSetOpExecutor.CountLeft | src/executor/hash_set_op_executor.cpp:81-86 | counts every visible left row and keeps a visible representative per group |
| HashSetOps.HashSetOpExecutor.CountRight | src/executor/hash_set_op_executor.cpp:88-101 | adds to each existing group what the visible rows of the right tiles hold of it, and creates no group |
| HashSetOps.HashSetOpExecutor.CalculateCopies | src/executor/hash_set_op_executor.cpp:166-189 | turns the two counters into the number of copies |
| HashSetOps.ExactCopies | src/executor/hash_set_op_executor.cpp:130-154 | after both rounds the multiplicity of every row is the required one |
| SetOperations.CopiesAreSql | src/executor/hash_set_op_executor.cpp:166-189 | the four formulas for the number of copies are multiset intersection and difference, and their distinct forms, and nothing else |
| SetOperations.SweepLeavesOne | src/executor/hash_set_op_executor.cpp:147-154 | after the first round at most one copy per group is left to hand out, as the second round asserts |
| SetOperations.TwoRounds | src/executor/hash_set_op_executor.cpp:130-154 | both rounds together leave exactly the quota visible |
| LogicalTiles.LogicalTile.RemoveVisibility | src/executor/logical_tile.cpp:137-143 | clears one flag and keeps the visible count exact |
| LogicalTiles.LogicalTile.Seek | src/executor/logical_tile.cpp:227-267 | the iterator stops at the next visible row, or at the end if there is none |
| Aggregators.AggregateBoth | src/executor/aggregator.cpp:174-350 | on input whose equal keys are contiguous and non-null, hash and sorted aggregation output the same multiset: for each group, in order, what the plan makes of its first tuple and the SQL values of its aggregates, unless HAVING drops it |
| Aggregators.HashAggregator.Advance | src/executor/aggregator.cpp:174-229 | the table holds one list per key with the fold of its group |
| Aggregators.HashAggregator.Finalize | src/executor/aggregator.cpp:231-242 | outputs every group once, in any traversal order |
| Aggregators.SortedAggregator.Advance | src/executor/aggregator.cpp:270-339 | outputs a group exactly at a boundary |
| Aggregators.SortedAggregator.CrossesBoundary | src/executor/aggregator.cpp:279-301 | a boundary is a group-by column whose SQL not-equal is true |
| Aggregators.SortedOutputs | src/executor/aggregator.cpp:270-350 | sorted aggregation outputs exactly the groups, in order |
| Aggregators.EmptyTuplesDisagree | src/executor/aggregator.cpp:274-276 | on tuples without columns, where the empty delegate means "no group", the two agree if and only if the input is empty or HAVING drops the group |
| Aggregates.FoldMeans | src/include/executor/aggregator.h:37-225 | the accumulated state after a column is its count, sum, minimum or maximum |
| Aggregates.FinalizeMeans | src/include/executor/aggregator.h:37-225 | over the column alone: COUNT(*) is its length, COUNT the number of its numbers, SUM their total, AVG the value that times their number is their total, MIN and MAX the least and greatest; without numbers the last four are NULL |
| Aggregates.AggregateIsUnique | src/include/executor/aggregator.h:37-225 | no other value meets that description |
| Aggregates.OutputsAre | src/executor/aggregator.cpp:94-148 | what is output is, group by group, the projection of the first tuple and of these values, without the groups that HAVING drops |
| Aggregates.GroupCounts | src/executor/aggregator.cpp:174-229 | a group holds exactly the tuples with its key, as often as the input does |
| Aggregates.GroupFirst | src/executor/aggregator.cpp:174-229 | its first tuple is the first of the input with that key |
| Aggregates.KeysExact | src/executor/aggregator.cpp:174-229 | the listed keys are those of the input, each once, each with a non-empty group |
| CompactRows.RoundTrip | src/codegen/compact_storage.cpp:172-272 | storing a row and loading it back returns the same values, lengths and null bits |
| CompactRows.CompactStorage.Setup | src/codegen/compact_storage.cpp:108-167 | every value and length gets exactly one place, ordered by decreasing size; a second call changes nothing |
| CompactRows.CompactStorage.StoreValues | src/codegen/compact_storage.cpp:172-226 | each component is at its place and each null bit in its byte of the bitmap; bytes outside the row are untouched |
| CompactRows.CompactStorage.LoadValues | src/codegen/compact_storage.cpp:228-272 | what is loaded is a row that these bytes store |
| CompactRows.StoredIsUnique | src/codegen/compact_storage.cpp:172-272 | stored bytes determine the row |
| Bitmaps.BitmapWriter.SetBit | src/codegen/compact_storage.cpp:35-46 | ors one bit into its byte and leaves every other bit |
| Bitmaps.BitmapWriter.Write | src/codegen/compact_storage.cpp:48-58 | writes the pending bytes; bytes never touched become zero |
| LruCache.Inclusion | src/common/cache.cpp:35-105 | on the same trace a smaller cache holds part of what a larger one holds, with the same values and in the same recency order |
| LruCache.EvictsLeastRecent | src/common/cache.cpp:63-90 | an insert loses another key only in a full cache, and exactly the least recently touched one |
| LruCache.RecencyOrder | src/common/cache.cpp:35-105 | the list is always ordered by last touch |
| LruCache.RunOk | src/common/cache.cpp:35-105 | over any run map and list agree and the size stays within the capacity |
| LruCache.Cache.Find | src/common/cache.cpp:35-47 | a hit returns the value and moves the key from its place to the front; other keys keep their order and the map does not change; a miss changes nothing |
| LruCache.Cache.Insert | src/common/cache.cpp:63-90 | the key is at the front with the new value; a present key is taken from its place and nothing else changes, a new key in a full cache replaces the last one; all other keys keep values and order |
| LruCache.Cache.DeleteKey | src/common/cache.cpp:97-105 | the key is taken out of the map and out of its place in the list; all other keys keep values and order |
| HashTables.OAHashTable.Probe | src/codegen/oa_hash_table.cpp:238-402 | probing ends despite wrap-around; finds the key if and only if it is in the multimap, and otherwise a free bucket at the end of a fully used path |
| HashTables.OAHashTable.Insert | src/codegen/oa_hash_table.cpp:434-452 | appends the value to the key's values in the multimap |
| HashTables.OAHashTable.ProbeOrInsert | src/codegen/oa_hash_table.cpp:413-432 | returns the first value of a present key, or inserts |
| HashTables.OAHashTable.FindAll | src/codegen/oa_hash_table.cpp:603-619 | returns exactly the key's values in insertion order |
| HashTables.OAHashTable.Iterate | src/codegen/oa_hash_table.cpp:454-531 | lists every pair of the multimap once, each key's values in order |
| HashTables.OAHashTable.FindNextFree | src/codegen/util/oa_hash_table.cpp:137-163 | the next free bucket on the probe path |
| HashTables.OAHashTable.Resize | src/codegen/util/oa_hash_table.cpp:273-358 | rehashing into twice the size keeps the multimap and follows the bucket being inserted into |
| HashTables.OAHashTable.StoreAnother | src/codegen/util/oa_hash_table.cpp:83-128 | growing a bucket's value list keeps the multimap |
| OpenAddressing.AbsentKey | src/codegen/oa_hash_table.cpp:238-402 | a free bucket on the probe path proves that the key is nowhere in the table |
| OpenAddressing.PathIsShort | src/codegen/oa_hash_table.cpp:112-160 | with one free bucket no probe path is as long as the table |
| OpenAddressing.StoreNew | src/codegen/util/oa_hash_table.cpp:169-245 | filling the free bucket at the end of a path keeps every key's path used and one entry per key |

## Left out

- SNAPSHOT and READ_COMMITTED isolation: their reads and writes do not maintain the last reader in the same way, so the invariants are not theirs.
- Primary-key updates: delete plus insert, which can stack two versions of one transaction in a chain.
- Phantoms: a lookup that finds no chain at all records nothing, so serializability is about reads of existing tuples, deleted ones included. An inserted key starts a new chain.
- Garbage collector workers: the queues, the unlinking from indexes and the reuse of slots. A recycled slot never comes back in the model; the garbage theorem says when recycling is safe.
- Index structures, tile-group storage, recovery and its dirty range, logging, statistics, dropped tables.
- Registration and deregistration of threads and resetting the epoch manager.
- Atomicity of IsVisible followed by PerformRead, of GetExpiredEpochId and of entering a snapshot: each is one step; the locks that make them so are not modelled.
- IndexLookup.Lookup: quiescent only, as the walk sees one state; concurrent commits between two steps of the walk are not modelled.
- ExecutorBatches.Execute: calls of other transactions between two iterations; the theorems on runs of calls cover every interleaving of the single calls.
- EpochManagers.DecentralizedEpochManager.EnterEpoch: ends because the last of the fetched epochs is the current one; that the retry loop eventually fetches it is a scheduling assumption.
- HashTables.OAHashTable.Probe: the home bucket is the hash modulo the table size instead of a mask; the sizes agree for powers of two. The initial size is at least two and even.
- HashTables.OAHashTable.Resize: memory management and the overflow of 64-bit counters.
- NULL group keys, DISTINCT aggregates and arithmetic overflow of aggregates.
- Cache::clear and the insert threshold of the cache.
- LLVM code generation: the generated loops are modelled, not the builder calls.
- Other joins and scans, the catalog, the network layer and the tuning components: they would only add easy members or are input/output.
