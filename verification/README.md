# A verified model of the storage engine

This project models the storage engine's concurrency, versioning, logging, caching, indexing and query
execution in Dafny and proves what they are for. Operations that change state in the engine are methods of
classes with the engine's own fields, proved against functions on plain values; the theorems are lemmas about
those functions and about whole runs. Page sizes of trees and caches (B+tree fan-out, pool size, SLRU buffers,
FSM depth) are parameters. `dafny verify dfyconfig.toml` checks everything.

What the theorems add up to:

- **Locks.** In every reachable state the wait-for graph is acyclic and two holders of one resource are both SHARED
  (`LockRuns`). A request that was granted, or queued and later promoted, holds its lock in the mode asked for until its
  owner releases, so of two such requests for one resource each asked for SHARED; a request is granted at once, turned
  down or kept waiting exactly when it must be, and nobody overtakes (`LockRequests`). Upgrades are allowed: nobody waits for itself, even through the queues,
  exactly as long as no holder is queued to upgrade; whoever waits leads to a holder that can run or to one that
  waits only for itself; and a waiter is always blamed on somebody, however the run goes on, exactly when it did not
  already hold the resource (`LockUpgrades`). The deadlock search reports a cycle exactly when one can be reached, and
  reports a real one (`WaitForGraph`). A timeout does not wake the next waiter: when it strands one is characterised
  exactly, with a concrete run.
- **Versions and VACUUM.** A snapshot's view never changes while its owner runs. VACUUM changes nothing that any
  running or later snapshot can read, through any root, scan or index, and therefore nothing that any query plan
  returns. What it takes is all it may: of the versions whose creator has decided, exactly those that no reader at the
  horizon can see, except what a recent transaction made and deleted itself (`VacuumMaximality`). The horizon is the
  greatest bound and never falls; a stale one loses rows. After any number of HOT updates, vacuumed or not, hot_search
  answers from the root with the newest version the snapshot sees (`HotChains`). A manager opened on the commit log
  answers for every transaction as the old one did (`TxStatuses`).
- **Log and recovery.** Scanning a log cut at any byte returns exactly the records wholly before the cut. Whatever
  mixture of pages had reached the disk, redo brings a page, up to infomask bits, to what the buffer pool held when the
  last surviving record was written, exactly when the page had been written to disk since the file was extended, or
  the replayed log holds an image of it, or puts no tuple on it; a partial or a second redo changes nothing. A row
  committed to a new page that never reached the disk is lost, in a concrete run of the model. An update whose record
  survives is there after redo, header by header, and a snapshot sees the new version if it sees the updater and the old
  one if not (`UpdateEffects`). A record is read exactly when it is whole and its checksum is right (`WalFormat`). No heap page is written before the
  records it reflects are durable. A COMMIT record itself is durable when log_commit returns exactly when flushed_lsn_
  lay below its start, because `flush(lsn)` aims at that start; after a checkpoint it is not.
- **Pages and caches.** The slotted page at byte level; the buffer pool as a plain page array; the clock sweep,
  which gives up exactly when every frame is pinned; CLOG as a map of statuses; TOAST as a store of values; the
  free space map as the lowest page that suffices.
- **Indexes and queries.** The on-disk B+tree does what the sorted multimap does, with keys that may repeat; after the
  split of any leaf, find_entries answers like the multimap for every key exactly when the two halves do not meet in one
  key, and 64 versions of one item show the loss; splitting the root at any level changes no answer. Any plan, run row
  by row, yields the rows it stands for, and these are described by position and column: which inputs a row is made
  from, how often and in which order (`PlanRows`). Hash join yields the rows of the nested loop, each as often, and replacing hash
  joins anywhere in a plan preserves its rows as long as no LIMIT chooses by hash order; which LIMITs do is
  characterised exactly.

Modules: `WaitForGraph`, `LockSpec`, `LockTheory`, `LockRuns`, `LockRequests`, `LockUpgrades`, `LockManager` (src/lock.cpp);
`Transactions`, `Mvcc`, `TxStatuses` (src/tx.cpp, src/mvcc.cpp); `Heap`, `HotChains`, `Vacuum`, `VacuumTheory`,
`VacuumMaximality` (src/heap.cpp, src/vacuum.cpp); `SlottedPage` (src/page.cpp) and `PageActions`, which ties its bytes to
what redo and VACUUM do; `WalLog`, `WalFormat`, `WalManager`, `Redo`, `Durability`, `CrashRecovery`, `UpdateEffects`
(src/wal.cpp, with the heap's logged operations); `BufferPool`; `FreeSpace`; `CommitLog`; `Toast`; `MultimapIndex`,
`BTreePages`, `BTreeSearch`, `BTreeUpdates`, `BTreeCuts`, `DiskIndex` (src/btree.cpp, src/disk_btree.cpp); `Plans`,
`PlanRows`, `PlanLimits`, `PlanRun`, `Executor` (src/executor.cpp); `StorageTypes` and `Positions` hold what they share.

Where code and comments differ the model follows the code. The comment at src/buffer_pool.cpp:146-149 speaks of five
rotations of the clock; the code may need almost six and allows seven. The comment at src/wal.cpp:114 says that a commit is
forced to disk; `flush(lsn)` aims at the start of the commit record. `is_compatible` counts the requester's own lock
(include/pg/lock.h:98-106), so an upgrade waits for itself with no cycle to report.

## Model

| member | source | states |
|---|---|---|
| WaitForGraph.FindCycle | src/lock.cpp:240-246 | The search answers true exactly when a cycle can be reached from the waiter; the reported path is a closed walk of real edges that the waiter leads to. |
| WaitForGraph.DeadlockSearch.Visit | src/lock.cpp:206-238 | One DFS call: either a closed walk hanging off the recursion path is reported, or everything below the vertex is finished and the path is as before; white vertices only shrink, so it terminates. |
| WaitForGraph.DeadlockSearch.Enter | src/lock.cpp:213-214 | Colouring a vertex grey extends the recursion path, which stays a walk. |
| WaitForGraph.DeadlockSearch.Leave | src/lock.cpp:235-237 | Colouring a vertex black extends a topological order of the finished vertices. |
| WaitForGraph.DeadlockSearch.Report | src/lock.cpp:219-229 | A grey neighbour closes a cycle of real edges along the path. |
| WaitForGraph.TopologicalMeansNoCycle | src/lock.cpp:206-238 | A finished (black) vertex reaches no cycle: the soundness of answering false. |
| WaitForGraph.WalkDescends | src/lock.cpp:206-238 | Walks that start inside the finished order only move towards its front. |
| LockTheory.WaitForEdges | src/lock.cpp:190-204 | An edge is in the wait-for graph exactly when one transaction queues on a resource that another holds. |
| LockTheory.RankedIsAcyclic | src/lock.cpp:206-246 | A graph whose edges all fall in rank has no closed walk. |
| LockTheory.QueueEdgesKeepRanks | src/lock.cpp:97-113 | While no holder is queued to upgrade, acyclicity survives adding an edge from each waiter to every holder, itself included, and to every earlier waiter in its FIFO queue. |
| LockTheory.GrantKeepsInv | src/lock.cpp:18-23 | An immediate grant keeps the mirror maps, the compatibility of granted lists and acyclicity. |
| LockTheory.EnqueueKeepsInv | src/lock.cpp:30-36 | Waiting, also for an upgrade, keeps the invariant when the search finds no cycle through the new waiter. |
| LockTheory.DeadlockRestores | src/lock.cpp:36-58 | Aborting the wait on a deadlock undoes the enqueue completely: the state is the one before the call. |
| LockTheory.WithdrawKeepsInv | src/lock.cpp:75-92 | Giving up after a timeout keeps the invariant. |
| LockTheory.PromoteKeepsConsistent | src/lock.cpp:97-113 | Promoting a compatible queue front keeps the invariant. |
| LockTheory.PromoteEdges | src/lock.cpp:97-113 | After a promotion every wait-for edge was there before or leads to the promoted transaction, which waits for nobody. |
| LockTheory.ReleaseCoreKeepsConsistent | src/lock.cpp:115-159 | Dropping all of a transaction's locks and requests keeps the invariant and leaves no empty heads. |
| LockTheory.ReleaseKeepsInv | src/lock.cpp:115-164 | Release with promotion keeps the invariant and leaves no grantable queue front. |
| LockRuns.RunKeepsInv | src/lock.cpp:8-164 | Every state of every run of acquires, upgrades, deadlock aborts, timeouts and releases satisfies the invariant. |
| LockRuns.NeverDeadlocked | src/lock.cpp:190-246 | In every reachable state the wait-for graph is acyclic; with the queue edges and the edges of waiters to themselves added it is acyclic exactly when no holder is queued to upgrade. |
| LockRuns.MutualExclusion | include/pg/lock.h:98-106 | In every reachable state two holders of one resource are both SHARED. |
| LockRuns.SomeHolderCanRun | src/lock.cpp:8-164 | From every waiter the wait-for edges lead to a holder that is not waiting, or to one that alone holds what it waits for; to a running one while no upgrade is queued. |
| LockRuns.LocksLastUntilRelease | src/lock.cpp:115-164 | Strict two-phase locking: a granted lock stays granted until its owner's release_all. |
| LockRequests.GrantedExactlyWhen | src/lock.cpp:13-28 | A request is granted at once exactly when its owner holds as much already, or nobody is queued and the resource is free or held and wanted by readers only. |
| LockRequests.GrantedMeansHeld | src/lock.cpp:13-23 | After the answer "granted" the owner holds the resource at least in the mode asked for. |
| LockRequests.ObtainedMeansHeld | src/lock.cpp:8-164 | Over whole runs: a request that was granted, or queued and later promoted, holds its resource at least in the mode asked for until its owner releases. |
| LockRequests.RequestsExclude | src/lock.cpp:8-164 | Of two requests of different transactions for one resource that have both been granted or promoted and not released, each asked for SHARED. |
| LockRequests.NoOvertaking | src/lock.cpp:97-113 | Of two waiters for one resource that do nothing themselves, the later one stays behind the earlier one until that one is served. |
| LockRequests.SettledMeansBlocked | src/lock.cpp:97-113 | wake_up_waiters stops exactly when every queue front conflicts with some lock on its resource. |
| LockRequests.TurnedDownLeavesNoTrace | src/lock.cpp:25-58 | A request that is refused, or aborted for a deadlock, leaves the state as it was. |
| LockRequests.ReleasedEverything | src/lock.cpp:115-164 | After release_all its owner holds nothing and waits for nothing. |
| LockRuns.SettledExactlyWhen | src/lock.cpp:75-92 | A step leaves no grantable waiter exactly when it is not the timeout of a queue front behind which the next request is compatible with the holders: the timeout path promotes nobody. |
| LockRuns.TimeoutStrandsWaiter | src/lock.cpp:75-92 | A run of four calls: a timeout leaves a SHARED request waiting behind nobody, with only a SHARED holder. |
| LockUpgrades.AlwaysBlamedExactlyWhen | src/lock.cpp:8-204 | In every reachable state: whatever the others do from here on, a waiter is blamed on another transaction as long as it waits, exactly when it does not already hold the resource it asked for. |
| LockUpgrades.UpgradeIsNeverGranted | src/lock.cpp:97-113 | Whatever the others do, a queued upgrade stays queued beside the lock its owner holds, until the owner itself times out or releases. |
| LockUpgrades.OthersCanLeave | src/lock.cpp:115-164 | From any queued upgrade the other holders can release, one after the other, until the upgrade waits for its own lock alone. |
| LockUpgrades.SomePromotionsSettle | src/lock.cpp:97-113 | wake_up_waiters comes to an end in a state without grantable fronts. |
| LockUpgrades.QueuedRequestIsBlockedBySomebody | include/pg/lock.h:98-117 | At the moment it is queued, a request has a wait-for edge exactly when another transaction holds the resource. |
| LockUpgrades.UpgradeBlocksOnItself | include/pg/lock.h:98-106 | Concrete run: the only holder of a SHARED lock asks for EXCLUSIVE, is queued, and waits for nobody. |
| LockManager.Manager.Acquire | src/lock.cpp:8-95 | acquire on the lock table fields has exactly the outcome and the new state of the specification, for grant, re-entry, try-lock failure, deadlock and wait; `LockRequests` says what these mean for the requester. |
| LockManager.Manager.GiveUp | src/lock.cpp:75-92 | Leaving the queue removes the request and drops an empty head. |
| LockManager.Manager.ReleaseAll | src/lock.cpp:115-164 | release_all reaches a state the specification of release allows, promotions in some order included. |
| LockManager.Manager.WakeUpWaiters | src/lock.cpp:97-113 | wake_up_waiters promotes queue fronts until no front is grantable. |
| LockManager.Manager.BuildWaitForGraph | src/lock.cpp:190-204 | The built graph is the wait-for relation of the table. |
| Transactions.TransactionManager.BeginTransaction | src/tx.cpp:15-24 | A new id, recorded as in progress and active; nothing else changes. |
| Transactions.TransactionManager.TakeSnapshot | src/tx.cpp:26-47 | xmax is the next id, the active set excludes the owner, xmin is the least active id or xmax, and xmin is published. |
| Transactions.TransactionManager.OldestSnapshotXmin | src/tx.cpp:59-74 | The horizon is the least of the next id, the active ids and the published xmins of running transactions. |
| Transactions.TransactionManager.Commit | src/tx.cpp:76-83 | Records COMMITTED, ends the transaction and withdraws its published xmin. |
| Transactions.TransactionManager.Abort | src/tx.cpp:85-92 | Records ABORTED, ends the transaction and withdraws its published xmin. |
| Transactions.TransactionManager.SetStatus | src/tx.cpp:130-142 | The result is the SetStatus step of the runs of `Mvcc`: recorded in the map and the commit log, ended unless in progress, next id above it. |
| Mvcc.SnapshotViewIsFixed | src/mvcc.cpp:5-73 | At any later moment of any run while the owner is active, a tuple is visible exactly when its creator is the owner or had committed when the snapshot was taken and its deleter is neither. |
| Mvcc.AllOrNothing | src/mvcc.cpp:5-73 | A transaction's inserts are seen exactly when its deletes are. |
| Mvcc.RunKeepsInv | src/tx.cpp:15-92 | Every run keeps snapshots, active set and statuses consistent, and decided statuses never change. |
| Mvcc.SetStatusExactlyWhen | src/tx.cpp:130-142 | set_status keeps the manager consistent for any arguments, and rewrites no decided fate exactly when the transaction is running, unknown so far, or has the status already. |
| TxStatuses.StepDecides | src/tx.cpp:15-142 | Begin, commit, abort and set_status change the status of their own transaction, as their name says, and of no other. |
| TxStatuses.ReopenedAnswers | src/tx.cpp:8-14 | After any run a manager opened on the commit log answers for every transaction as the old one; for one that had not finished, in progress. |
| Mvcc.SafeExactlyWhen | src/vacuum.cpp:33-43 | Calling a version dead below a horizon loses a snapshot no visible row exactly when the horizon covers the snapshot. |
| Mvcc.HorizonIsMonotone | src/tx.cpp:59-74 | The horizon never falls during a run, and bounds the xmin of every snapshot held then or taken later. |
| Mvcc.DeadStaysInvisible | src/vacuum.cpp:33-43 | What is dead for the horizon stays invisible to every snapshot held at any later moment. |
| Mvcc.StaleSnapshotLosesRow | src/tx.cpp:49-74 | Concrete run: a transaction that holds two snapshots publishes only the newer one, and VACUUM may remove a row the older one sees. |
| Heap.BoundedWalkIsComplete | src/heap.cpp:357-414 | The walk limited to num_slots + 1 steps finds a version exactly when the unlimited chain walk does, and the same one. |
| Heap.FirstVisibleIsNear | src/heap.cpp:370-376 | The first visible version on a chain is fewer hops away than the page has slots (pigeonhole). |
| Heap.HeapFile.HotSearch | src/heap.cpp:357-414 | hot_search returns the result of the chain walk from the root, through redirects and HOT successors. |
| HotChains.VisibleExactlyWhen | src/mvcc.cpp:5-73 | A version is visible exactly when its creator is seen (own, or committed before the snapshot) and its deleter, if any, is not. |
| HotChains.ChainAnswers | src/heap.cpp:357-414 | On a chain of versions, some of them redirects, hot_search answers with the first one the snapshot sees. |
| HotChains.NothingAnswers | src/heap.cpp:357-414 | It answers nothing when the snapshot sees none. |
| HotChains.HotUpdateExtendsChain | src/heap.cpp:217-262 | A HOT update of the last version, by the headers it writes, makes the chain one version longer. |
| HotChains.HotUpdateUnseen | src/heap.cpp:217-262 | A snapshot that does not see the updater gets from the root what it got before. |
| HotChains.HotUpdateSeenExactlyWhen | src/heap.cpp:217-262 | A snapshot that sees the updater gets the new version, exactly when it sees no earlier version whose successor it does not see. |
| HotChains.VacuumKeepsChain | src/vacuum.cpp:46-95 | As long as its last version stays, VACUUM leaves the chain a chain. |
| HotChains.ChainAfter | src/heap.cpp:217-262 | After any number of HOT updates with VACUUM in between the page holds the chain of all versions. |
| HotChains.NewestSeenIsFound | src/heap.cpp:357-414 | From the root of such a chain hot_search gives the newest version seen, to a snapshot that sees every earlier one with it. |
| Heap.HeapFile.SeqScan | src/heap.cpp:351-354 | The scan under a snapshot returns the visible rows in page and slot order. |
| Vacuum.CollectDead | src/vacuum.cpp:9-76 | Phase 1 on a page: a version goes exactly when its creator rolled back or its deleter committed below the horizon, and becomes a redirect to its HOT successor or DEAD; other slots stay; the dead index entries are collected in slot order. |
| Vacuum.Reclaim | src/vacuum.cpp:79-95 | Phase 3 on a page frees exactly the DEAD slots and counts them. |
| Vacuum.CleanIndex | src/vacuum.cpp:151-160 | Phase 2 removes each dead entry once from an index, which stays sorted. |
| Vacuum.Run | src/vacuum.cpp:114-177 | The three phases leave the specified heap and the specified indexes. |
| VacuumTheory.VacuumIsInvisible | src/vacuum.cpp:114-177 | For every snapshot a running transaction holds at any later moment, taken before or after VACUUM, hot_search from every root, the sequential scan, index lookup and index scan are the same before and after. |
| VacuumTheory.HotResultUnchanged | src/heap.cpp:357-414 | Turning dead chain members into redirects or free slots changes no chain walk of a snapshot that does not see them. |
| VacuumTheory.RowsUnchanged | src/heap.cpp:351-354 | The same for the visible rows of a sequential scan. |
| VacuumTheory.RemoveAllHitless | src/btree.cpp:77-92 | Removing index entries that lead to nothing visible changes neither lookup nor index scan. |
| VacuumTheory.DeadTidsMembers | src/vacuum.cpp:49-69 | The collected list holds exactly the entries of dead chain ends. |
| VacuumTheory.NoEntryNamesFreedSlot | src/vacuum.cpp:131-173 | After the three phases no index entry names a freed slot: every entry left names a row with its key or a redirect. |
| VacuumTheory.RedirectLeadsToFreeSlotExactlyWhen | src/vacuum.cpp:46-95 | When there was anything to remove: a redirect that an entry names leads to a free slot exactly when the version it was redirected to was a dead end itself, or was free or DEAD already. |
| VacuumMaximality.SeenExactlyWhen | src/mvcc.cpp:5-73 | Some reader at the horizon sees a version exactly when its creator committed and its deleter has not, or committed at or above the horizon and is another transaction. |
| VacuumMaximality.VacuumTakesExactly | src/vacuum.cpp:9-76 | Of the versions whose creator has decided, phase 1 takes exactly those no reader at the horizon can see, except what a transaction at or above the horizon made and deleted itself. |
| VacuumMaximality.KeptIsNeeded | src/vacuum.cpp:9-76 | A version left in place has a running creator, or is seen by some reader at the horizon, or is such an own deletion. |
| VacuumMaximality.AbortedRowsGo | src/vacuum.cpp:33-36 | The rows of a rolled back transaction go at once, whatever the horizon. |
| VacuumMaximality.HorizonIsGreatest | src/tx.cpp:59-74 | No higher horizon would do: below it lies an active id or the xmin an active transaction has published. |
| SlottedPage.Page.constructor | src/page.cpp:8-17 | A fresh page is well formed and holds no slots. |
| SlottedPage.Page.InsertTuple | src/page.cpp:51-105 | The first UNUSED slot is recycled, never a DEAD one, else a slot is appended; every other slot keeps its bytes; it fails exactly when the room does not suffice. |
| SlottedPage.NeedIs | src/page.cpp:51-105 | An insertion needs the tuple's bytes, and four more exactly when no slot is UNUSED. |
| SlottedPage.Page.InsertTupleAt | src/page.cpp:188-222 | The slot asked for gets the bytes, all others keep theirs, the failing cases are exact, and repeating the call changes no byte; a page of zeroes refuses every tuple and stays as it is. |
| SlottedPage.Page.SetLinePointer | src/page.cpp:157-163 | Overwriting a line pointer that names no bytes changes that slot only; it fails exactly for slots out of range. |
| SlottedPage.Page.Defragment | src/page.cpp:107-148 | Compaction keeps every slot number, flag, redirect target and tuple's bytes, and ends with the free space as large as the live lengths allow. |
| SlottedPage.LiveLengthFits | src/page.cpp:107-148 | Pairwise disjoint live ranges above pd_upper have total length at most the tuple area, so compaction never writes into the line pointers. |
| SlottedPage.PlacedView | src/page.cpp:67-80 | Writing a tuple just below pd_upper and naming it keeps the page well formed and every other slot's bytes. |
| SlottedPage.CompactedNext | src/page.cpp:122-134 | Moving one more tuple keeps the moved ones intact and disjoint. |
| SlottedPage.LiveBytesAreLengths | src/page.cpp:107-148 | The lengths in the line pointers add up to the bytes the slots hold. |
| SlottedPage.OverwrittenView | src/page.cpp:188-222 | Overwriting a tuple in place changes that slot only, and nothing at all when the bytes are the same. |
| PageActions.InsertedAtIsPutAt | src/page.cpp:188-222 | A successful insert_tuple_at on the bytes does to the decoded slots what redo of an insertion does. |
| PageActions.MarkedIsLinePointerSet | src/vacuum.cpp:46-70 | What VACUUM does to a slot is overwriting its line pointer, if it changes it at all. |
| WalLog.FieldRoundTrip | src/wal.cpp:90-95 | A fixed-width little-endian field reads back when the value fits. |
| WalLog.PackRoundTrip | src/wal.cpp:90-95 | A packed header reads back field by field. |
| WalLog.ReadWhole | src/wal.cpp:247-291 | A complete record is read back as it was written, whatever follows it. |
| WalLog.ReadTorn | src/wal.cpp:254-262 | A record cut anywhere is not read. |
| WalLog.LogRoundTrip | src/wal.cpp:247-291 | Cut a log at any byte: the scan returns, in order, exactly the records wholly before the cut. |
| WalLog.ScanLog | src/wal.cpp:247-291 | The scan loop computes the specified scan. |
| WalFormat.LittleEndian | include/pg/wal.h:36-49 | Byte k of a field is the k-th least significant byte of its value. |
| WalFormat.RecordIsReadExactlyWhen | src/wal.cpp:250-271 | A record is read exactly when header and payload are there and the stored checksum is that of the header, its checksum zeroed, and the payload; its fields are those at the fixed offsets. |
| WalFormat.WrittenFieldsAre | src/wal.cpp:69-95 | A written record has its fields, payload and checksum at the fixed offsets. |
| WalManager.Wal.AppendRecord | src/wal.cpp:69-101 | The record starts at the current LSN, names the previous one, and the file stays the encoding of the records in order. |
| WalManager.Wal.FlushTo | src/wal.cpp:163-171 | Afterwards every record that starts below the target is durable; a sync always reaches a record boundary, also when the flushed LSN falls inside a record. |
| WalManager.Wal.LogCommit | src/wal.cpp:112-116 | Everything below the commit record is durable; the commit record itself exactly when flushed_lsn_ lay below its start. |
| WalManager.CommitAfterCheckpoint | src/wal.cpp:112-138 | After any checkpoint the next log_commit returns with its COMMIT record not forced to disk. |
| WalManager.Wal.LogCheckpoint | src/wal.cpp:124-138 | The checkpoint record is appended and durable, flushed_lsn_ reaches the end, and the set of imaged pages is emptied. |
| WalManager.Wal.LogFpi | src/wal.cpp:140-144 | The image record is appended and the page marked as imaged. |
| Redo.RepeatHistory | src/wal.cpp:307-372 | A formatted page that holds exactly what its LSN names is brought by redo to the replay of the whole log, full-page images included, up to infomask bits. |
| Redo.RedoRestoresExactlyWhen | src/wal.cpp:307-372 | Of a page on disk that holds what its LSN names, formatted or not, redo makes the replay of the whole log exactly when it is formatted, or the log holds an image of it, or puts no tuple on it. |
| Redo.BlankStaysBlank | src/page.cpp:188-205 | A page of zeroes stays without tuples under redo until an image of it is replayed. |
| Redo.RedoAfterPartialRedo | src/wal.cpp:203-226 | Redo interrupted after any prefix and started again gives the same page. |
| Redo.SecondRedoChangesNothing | src/wal.cpp:203-226 | A second redo changes nothing. |
| UpdateEffects.RedoUpdateEffect | src/wal.cpp:345-372 | Redo of an unseen update record: the old version keeps row and creator and gets deleter and successor, the new one is in its slot, all other slots stay, the LSN is the record's end. |
| UpdateEffects.RedoInsertEffect | src/wal.cpp:333-344 | Redo of an unseen insertion: the slot holds the tuple, all others stay, the LSN is the record's end. |
| UpdateEffects.RedoImageEffect | src/wal.cpp:314-332 | Redo of an image: the page is the image, whatever it held. |
| Redo.Recovery.WithPage | src/wal.cpp:207-226 | A page whose LSN is past the record is left alone; otherwise the action is applied and the LSN set to the record's end; no other page changes. |
| Redo.Recovery.RedoOne | src/wal.cpp:312-372 | One record, of any kind, does to every page what redo of that page prescribes; updates may span two pages. |
| Redo.Recovery.Run | src/wal.cpp:307-372 | The redo pass from the last checkpoint does to every page what redo of that page prescribes. |
| Durability.HeapMatchesRedo | src/heap.cpp:92-325 | Whatever a logged heap operation does to a page in the pool, redoing its record does too, up to infomask bits; other pages are left alone by both. |
| Durability.HotUpdateMatchesRedo | src/heap.cpp:217-325 | The same for a HOT update, which changes two slots of one page. |
| UpdateEffects.InsertEffect | src/heap.cpp:92-180 | In the pool an insertion fills its slot and nothing else; the page LSN is one past the record's start. |
| UpdateEffects.HotUpdateEffect | src/heap.cpp:217-262 | In the pool a HOT update marks the old version with deleter, successor and HOT bit, puts the new one in its slot and changes nothing else. |
| UpdateEffects.HotUpdateIsChainStep | src/heap.cpp:217-262 | On the version hot_update writes, that is the step that lengthens a chain in `HotChains`. |
| UpdateEffects.StampEffect | src/heap.cpp:182-215 | An ordinary update marks the old version with deleter and successor, leaves its HOT bit alone and changes nothing else. |
| UpdateEffects.HeaderEffect | src/heap.cpp:295-325 | A header change replaces one header and nothing else. |
| UpdateEffects.ImageEffect | src/heap.cpp:86-90 | A full-page image logs what the pool holds and changes nothing. |
| UpdateEffects.WriteEffect | src/buffer_pool.cpp:24-34 | Writing a page puts on disk what the pool holds, a checkpoint does so for all pages. |
| Durability.ExtendKeepsInv | src/pager.cpp:28-40 | Extending the file by a page of zeroes, formatted in the pool or not, keeps the agreement of log, pool and disk. |
| CrashRecovery.StepKeepsInv | src/heap.cpp:92-325 | Every extension of the file, insert, update, HOT update, header change, commit, page write and checkpoint keeps the agreement of log, pool and disk. |
| CrashRecovery.WalRuleHolds | src/buffer_pool.cpp:24-34 | In every reachable state a heap page on disk reflects only durable records. |
| CrashRecovery.CommitIsDurableExactlyWhen | src/wal.cpp:112-116 | The commit record is durable after log_commit exactly when flushed_lsn_ lay below its start. |
| CrashRecovery.RedoRestoresHistory | src/wal.cpp:307-372 | Crash at any moment of any run, let any prefix of the log with all durable records survive: redo from the last checkpoint brings a page, up to infomask bits, to what the pool held when the last surviving record was written, exactly when the page is formatted on disk, or an image of it is replayed, or no replayed record puts a tuple on it. |
| UpdateEffects.SlotAfterRedo | src/wal.cpp:307-372 | On a page that redo restores, a row version whose slot is not written again is found after the crash with the row, creator, deleter and successor it had. |
| UpdateEffects.HotUpdateSurvivesCrash | src/heap.cpp:217-262 | A HOT update whose record survives is there after redo: old and new version by their fields; a snapshot sees the new one if it sees the updater, else the old one if it sees its creator. |
| UpdateEffects.UpdateSurvivesCrash | src/heap.cpp:182-215 | The same for an ordinary update across two pages. |
| CrashRecovery.CommittedRowOnNewPageIsLost | src/heap.cpp:149-172 | Concrete run: the file is extended for a row, the row is logged and committed, every record survives, and redo leaves the page empty. |
| CrashRecovery.CommitAfterCheckpointIsNotDurable | src/wal.cpp:112-138 | Concrete run: checkpoint, then commit; the COMMIT record may be lost. |
| BufferPool.Pool.FetchPage | src/buffer_pool.cpp:36-74 | Fetching changes no page's contents, pins the page once more, and fails exactly for pages outside the file or when no frame is free and all are pinned. |
| BufferPool.Pool.WriteFrame | src/buffer_pool.cpp:24-34 | The log is flushed up to the page LSN before the page is written; the logical contents stay. |
| BufferPool.Pool.LoadPage | src/buffer_pool.cpp:65-71 | Giving a clean unpinned frame to another page keeps the page table injective and the logical contents. |
| BufferPool.Pool.Sweep | src/buffer_pool.cpp:150-181 | The clock sweep fails exactly when every frame is pinned, and otherwise finds an unpinned frame within six rounds, so the coded limit never cuts it short. |
| BufferPool.Pool.VictimFrame | src/buffer_pool.cpp:150-181 | The victim is unpinned and clean, and no page's contents change. |
| BufferPool.Pool.UnpinPage | src/buffer_pool.cpp:93-107 | Releasing a pin changes no contents; the dirty flag only accumulates; false exactly for unknown pages. |
| BufferPool.Pool.WriteThroughPin | include/pg/buffer_pool.h:138-183 | A write through a pin changes that page's contents and nothing else. |
| BufferPool.Pool.FlushPage | src/buffer_pool.cpp:109-120 | The page is clean afterwards; no contents change. |
| BufferPool.Pool.FlushAll | src/buffer_pool.cpp:122-128 | Afterwards the disk equals the logical contents, except for pages changed through a pin and not yet declared dirty. |
| BufferPool.Pool.NewPage | src/buffer_pool.cpp:79-91 | The file grows by a formatted, pinned, dirty page; when no frame can be had it has grown by a zeroed page all the same. |
| BufferPool.LoadKeeps | src/buffer_pool.cpp:57-73 | Eviction and load preserve the invariant and the page array the pool stands for. |
| BufferPool.ModifiedKeeps | src/buffer_pool.cpp:36-107 | Changing a pinned page changes the page array at that page only. |
| BufferPool.UnpinnedKeeps | src/buffer_pool.cpp:93-107 | Unpinning preserves the page array, provided the last pin of a written page is released as dirty. |
| BufferPool.CleanMatchesDisk | src/buffer_pool.cpp:122-128 | When every frame is clean the disk is the page array. |
| CommitLog.SetStatusBits | src/clog.cpp:116-119 | Setting two bits of a byte reads back and leaves the three neighbours alone. |
| CommitLog.PlacesDiffer | src/clog.cpp:106-110 | No two transactions share page, byte and bits. |
| CommitLog.SetInPageSetsOne | src/clog.cpp:106-121 | Writing one status changes the recorded status of that transaction and of no other. |
| CommitLog.BlankPageChangesNothing | src/clog.cpp:36-43 | A zeroed page records IN_PROGRESS for all its transactions, so extending the file changes no answer. |
| CommitLog.LoadKeeps | src/clog.cpp:89-103 | Reusing a clean frame for another page loses nothing. |
| CommitLog.AllCleanMeansOnDisk | src/clog.cpp:140-147 | With no dirty frame the file holds the pages. |
| CommitLog.CLogManager.VictimFrame | src/clog.cpp:45-63 | An unused frame if there is one, else one with the least LRU counter. |
| CommitLog.CLogManager.FindOrLoadFrame | src/clog.cpp:74-104 | The frame holds the page asked for, stamped newest; on a hit nothing else changes, on a miss only an unused or the least recently used frame is given up; no status is lost. |
| CommitLog.CLogManager.SetStatus | src/clog.cpp:106-121 | Afterwards the transaction has the new status and every other one its old status, for any number of buffers. |
| CommitLog.CLogManager.GetStatus | src/clog.cpp:123-138 | Returns the last status set, IN_PROGRESS if none, whatever was evicted since. |
| CommitLog.CLogManager.Flush | src/clog.cpp:140-147 | Afterwards the file alone records every status. |
| CommitLog.CLogManager.constructor | src/clog.cpp:9-21 | Opening a file that records statuses answers with those statuses, with any number of buffers. |
| FreeSpace.CategorySufficesExactlyWhen | include/pg/fsm.h:50-60 | A sufficient category guarantees the bytes asked for exactly when no more than 8160 are asked for. |
| FreeSpace.RootBounds | src/fsm.cpp:52-56 | No leaf exceeds the root, so a page whose root is too small may be skipped. |
| FreeSpace.Descend | src/fsm.cpp:58-76 | From a root that is large enough the descent reaches the leftmost leaf that is. |
| FreeSpace.BubbleUp | src/fsm.cpp:97-111 | Every internal node is the maximum of its children again, although the walk stops early, and the other leaves are untouched. |
| FreeSpace.LowestPage | src/fsm.cpp:73-76 | The first good leaf of the first good tree is the lowest heap page whose category suffices. |
| FreeSpace.FreeSpaceMap.EnsureCapacity | src/fsm.cpp:31-42 | The map grows to the pages needed and no further, and no category changes. |
| FreeSpace.FreeSpaceMap.UpdatePage | src/fsm.cpp:82-112 | The map then records the reported free bytes for that page and what it recorded before for all others. |
| FreeSpace.FreeSpaceMap.SearchPage | src/fsm.cpp:44-80 | Returns the lowest page whose category suffices, none exactly when there is none; for 1 to 8160 bytes the page really last reported at least that much. |
| Toast.JoinRestores | src/toast.cpp:69-86 | Cutting a value into chunks and joining them gives the value back, for every length. |
| Toast.JoinNeedsAll | src/toast.cpp:111-119 | Fetching succeeds exactly when every chunk is indexed. |
| Toast.TupleRoundTrip | src/toast.cpp:187-195 | A chunk with its 16-byte header reads back from its tuple. |
| Toast.AppendedTuple | src/toast.cpp:26-55 | One more tuple on the last page is one more chunk found by the scan. |
| Toast.StoredValueJoins | src/toast.cpp:102-122 | A stored value reads back whole exactly as long as it has not been deleted. |
| Toast.ReopenedIndexExactlyWhen | src/toast.cpp:132-143 | Reopening rebuilds the index that was lost exactly when nothing stored had been deleted; deleted chunks come back. |
| Toast.StringRoundTripExactlyWhen | src/toast.cpp:98-130 | A string survives store_string and fetch_string exactly when it contains no NUL. |
| Toast.ToastManager.constructor | src/toast.cpp:10-19 | Reopening by scanning the pages finds the same chunks, every value ever stored, and a next id above all used ones. |
| Toast.ToastManager.ScanExistingPages | src/toast.cpp:26-55 | The scan computes the chunk map and next id of the pages. |
| Toast.ToastManager.Store | src/toast.cpp:57-96 | Up to 2048 bytes are inline; more are stored under a fresh id without disturbing any stored value. |
| Toast.ToastManager.FlushChunkToPage | src/toast.cpp:184-228 | A scan of the pages would find the chunk besides all others; the file grows by a page exactly when the last page has no room. |
| Toast.ToastManager.Fetch | src/toast.cpp:102-122 | Returns the original bytes of every stored value, of any length; fails for deleted ones. |
| Toast.ToastManager.DeleteValue | src/toast.cpp:132-143 | Removes a value's chunks from the index only; the pages keep them. |
| MultimapIndex.InsertKeepsSorted | src/btree.cpp:7-9 | Insertion keeps key order, equal keys in insertion order. |
| MultimapIndex.InsertKeepsMembers | src/btree.cpp:7-9 | Insertion adds exactly the entry. |
| MultimapIndex.InsertGoesBehindEquals | src/btree.cpp:7-9 | A new entry stands behind every entry whose key is not larger and before all others, which keep their order. |
| MultimapIndex.RemoveKeepsOthers | src/btree.cpp:24-33 | Removal takes out one equal entry and no other. |
| MultimapIndex.BTreeIndex.FindEntries | src/btree.cpp:15-22 | The ctids of a key in order. |
| MultimapIndex.FindIs | src/btree.cpp:15-22 | A search finds the ctids of exactly the entries with the key, in index order. |
| MultimapIndex.RangeIs | src/btree.cpp:51-62 | A range holds exactly the entries with a key between the bounds, both included, in index order. |
| MultimapIndex.BTreeIndex.RemoveEntry | src/btree.cpp:24-33 | Within the range of equal keys the first entry with the ctid goes, all others stay in place; answers whether there was one. |
| MultimapIndex.BTreeIndex.EqualRange | src/btree.cpp:24-26 | The bounds between which exactly the entries with the key stand. |
| MultimapIndex.RemoveKeepsSorted | src/btree.cpp:24-33 | Removal keeps key order. |
| BTreePages.ShapeIsSearchable | src/disk_btree.cpp:93-119 | In a tree of height 0 or 1 with separators that bound the leaves, every key's descent ends in the only leaf that may hold it. |
| BTreeSearch.SearchableAnswers | src/disk_btree.cpp:317-348 | When every key is routed to the only leaf that may hold it, the walk along the leaf chain finds what the multimap finds, although it stops early. |
| BTreeSearch.EarlierEntryIsLost | src/disk_btree.cpp:317-348 | An entry before the leaf where the walk starts makes the answer wrong. |
| BTreeUpdates.PutKeepsShape | src/disk_btree.cpp:121-145 | Inserting an entry into the leaf its key routes to keeps the tree's shape and is multimap insertion on the contents, equal keys included. |
| BTreeUpdates.RootLeafSplit | src/disk_btree.cpp:184-216 | Splitting the root leaf between two different keys gives a tree of height 1 with the same contents, one root flag and correct parents. |
| BTreeUpdates.InnerLeafSplit | src/disk_btree.cpp:217-251 | Splitting another leaf between two different keys and inserting its separator keeps shape and contents. |
| BTreeUpdates.SeparatorGoesBehind | src/disk_btree.cpp:226-245 | The promoted key lands right behind the separator of the leaf it came from, not below it and strictly below the next. |
| BTreeUpdates.SplitRootDescends | src/disk_btree.cpp:253-308 | A root split at any level leaves find_leaf_page unchanged for every key. |
| BTreeUpdates.RouteThroughHalves | src/disk_btree.cpp:106-115 | Routing through the new root and one half is routing through the old root. |
| BTreeUpdates.SplitRootSearchable | src/disk_btree.cpp:253-308 | A tree whose root has split is searched as before, with the same contents. |
| BTreeUpdates.TakeKeepsSearchable | src/disk_btree.cpp:393-421 | Taking an entry out of its leaf is multimap removal, and searches stay right even with empty leaves. |
| BTreeCuts.SplitAnswersExactlyWhen | src/disk_btree.cpp:153-224 | After the split of any leaf of a tree of height 0 or 1, equal keys allowed: the contents are the same, and find_entries answers like the multimap for every key exactly when the halves do not meet in one key, which is also exactly when the tree keeps its shape. |
| BTreeCuts.OneKeyLosesHalf | src/disk_btree.cpp:184-216 | A root leaf full of one key: after its split find_entries returns the right half only. |
| BTreeCuts.VersionsAreLost | include/pg/disk_btree.h:24 | Concrete tree: 64 entries of one key fill a leaf, and 32 of them are found after the split. |
| BTreeCuts.SplitRootFinds | src/disk_btree.cpp:253-308 | A root split changes no answer of find_entries, right or wrong. |
| BTreeCuts.ParentsAfterRootSplit | src/disk_btree.cpp:253-308 | After the root has split at height 1 exactly the leaves of the left half have a parent that points back at them. |
| DiskIndex.DiskBTree.InsertEntry | src/disk_btree.cpp:121-151 | The contents change as the multimap does, for any key; searches are right afterwards exactly when no full leaf was split through one key; then, while the root is at level 0 or 1, all invariants and page limits hold again. |
| DiskIndex.DiskBTree.SplitLeafPage | src/disk_btree.cpp:153-224 | The lower half of the entries stays, the upper half is on the new page, the contents are the same; searches stay right exactly when the halves do not meet in one key, and then the invariants hold again. |
| DiskIndex.DiskBTree.InsertIntoInternal | src/disk_btree.cpp:226-251 | The separator is inserted in key order, and the root splits exactly when it reaches its limit. |
| DiskIndex.DiskBTree.SplitInternalPage | src/disk_btree.cpp:253-308 | The root's children are halved under a new root one level up. |
| DiskIndex.DiskBTree.FindLeafPage | src/disk_btree.cpp:93-119 | The descent loop ends in the leaf the key routes to, also in a tree that no longer answers right. |
| DiskIndex.DiskBTree.FindEntries | src/disk_btree.cpp:317-348 | Returns what the walk along the leaf chain collects, in any tree whose descents end in leaves; what the multimap finds when the tree is searchable. |
| DiskIndex.DiskBTree.RangeScan | src/disk_btree.cpp:350-375 | Returns the multimap's range, across leaves. |
| DiskIndex.DiskBTree.RemoveEntry | src/disk_btree.cpp:393-421 | Removes the first equal entry as the multimap does, answers whether there was one, and keeps all invariants. |
| DiskIndex.DiskBTree.constructor | src/disk_btree.cpp:18-32 | A new file is one empty root leaf. |
| DiskIndex.DiskBTree.Open | src/disk_btree.cpp:33-44 | The page with the root flag is the root: there is only one. |
| Plans.HashJoinIsNestedLoop | src/executor.cpp:359-423 | Hash join yields the rows of the nested loop with key equality, each as often, whatever order the hash table keeps. |
| Plans.PlanChangePreservesRows | src/executor.cpp:271-423 | Running every hash join of a plan as a nested loop preserves the plan's rows, each as often, as long as no LIMIT chooses among rows in hash order. |
| PlanLimits.LimitAgreesExactlyWhen | src/executor.cpp:203-240 | A LIMIT above a hash join lets the same rows through as above the nested loop, whatever order the hash table keeps, exactly when it does not end inside the matches of one outer row, or these are all alike. |
| PlanLimits.LimitDependsOnHashOrder | src/executor.cpp:203-240 | Concrete plans: LIMIT 1 above the join of two rows with themselves on a constant; for some order of the hash table another row comes out. |
| PlanRun.Next | src/executor.cpp:163-423 | For every plan node over any children: the row handed out is the first of those still to come, and the others remain. |
| PlanRun.Open | src/executor.cpp:203-382 | init of any plan, however nested: all of its rows are still to come, offsets discarded and hash tables complete. |
| PlanRun.ExecuteSlots | src/executor.cpp:465-474 | Opening any plan and pulling until no row is left yields exactly its rows, in order. |
| Plans.NestedLoopPermuted | src/executor.cpp:281-321 | Permuting the inputs of a nested loop permutes its output. |
| Plans.BucketIsEqualRange | src/executor.cpp:417-421 | The rows of a bucket are the joins with its equal_range, in that order. |
| PlanRows.NestedLoopRowsAre | src/executor.cpp:281-321 | The rows of a nested loop: one for each pair of positions that satisfies the predicate, in outer-major order, with the outer row's columns first and the inner row's second. |
| PlanRows.HashJoinRowsAre | src/executor.cpp:359-423 | A hash join yields such rows for the pairs with equal keys, each as often. |
| PlanRows.NestedLoopRowExactlyWhen | include/pg/executor.h:41-49 | A row is handed out by a nested loop exactly when it has the columns of an outer and an inner row that satisfy the predicate. |
| PlanRows.HashJoinRowExactlyWhen | include/pg/executor.h:41-49 | The same for a hash join and equal keys. |
| PlanRows.FilterRowsAre | src/executor.cpp:163-179 | A filter hands out the rows that pass, each once for each time it came, in their order. |
| PlanRows.LimitRowsAre | src/executor.cpp:203-240 | A limit hands out the rows from the offset on, at most the limit. |
| PlanRows.SeqScanRowsAre | src/executor.cpp:28-75 | A sequential scan hands out exactly the visible rows, each once, by page and slot. |
| PlanRows.IndexScanRowsAre | src/executor.cpp:109-134 | An index scan hands out, in the order of the candidates, every version hot_search finds from them, none twice. |
| PlanRows.LookupIs | src/btree.cpp:77-92 | index_lookup answers with the first candidate from which hot_search finds a version. |
| PlanRows.SlotsAre | include/pg/executor.h:32-39 | A scanned row has its own columns and no inner ones. |
| Plans.QueriesDoNotNoticeVacuum | src/executor.cpp:18-423 | No plan of a running transaction, of any shape, returns anything else after VACUUM. |
| Executor.SeqScanNode.Next | src/executor.cpp:28-75 | The streaming scan hands out the visible rows in page and slot order, one a call, then end of relation for ever. |
| Executor.IndexScanNode.Next | src/executor.cpp:109-134 | Hands out each candidate's visible version, each version once. |
| Executor.FilterNode.Next | src/executor.cpp:163-179 | Hands out the child's rows that pass, in order. |
| Executor.LimitNode.Init | src/executor.cpp:203-214 | Exactly the offset is discarded, or the whole child if it is shorter. |
| Executor.LimitNode.Next | src/executor.cpp:216-240 | Hands out the child's rows after the offset, up to the limit, and pulls no row beyond it. |
| Executor.NestedLoopJoinNode.Next | src/executor.cpp:281-321 | Hands out the outer-major filtered product, rewinding the inner relation for each outer row. |
| Executor.NestedLoopJoinNode.NextMatch | src/executor.cpp:305-316 | The next inner row that joins becomes the next output row; none is skipped. |
| Executor.HashJoinNode.Init | src/executor.cpp:359-382 | Every inner row is in the table and the cursor stands before the first joined row. |
| Executor.HashJoinNode.Next | src/executor.cpp:384-423 | Hands out, for each outer row in turn, its whole bucket. |
| Executor.RowAt | src/executor.cpp:163-179 | A row made from input k stands in the output behind all rows made from earlier inputs. |
| Executor.ScannedRowAt | src/executor.cpp:28-75 | A visible row stands in the scan's output behind all that precede it in page and slot order. |
| Executor.LoopMatches | src/executor.cpp:305-316 | The row a match yields is the next one of the filtered product. |
| Executor.ProbedRowAt | src/executor.cpp:395-421 | The rows of an outer row's bucket follow those of all earlier outer rows. |

## Left out

- Integer widths: ids, LSNs and counters are unbounded; 32- and 64-bit wrap-around and `INVALID_PAGE_ID` exhaustion are not modelled.
- Threads: each critical section under a mutex is one atomic step; condition variables and spurious wake-ups are not modelled.
- A second request by a transaction that is still blocked in its first is excluded from the lock runs.
- Checksums: CRC-32 is any function of the bytes it is given, so a damaged record is assumed to be noticed.
- The log's payload bytes and the redo actions of `Redo` are not connected byte for byte.
- Redo assumes that tuples fit formatted pages; torn pages and the recovery path without a buffer pool are not modelled.
- Recovery beyond redo: the undo pass, redo of TOAST chunks, appending after a torn tail, unlogged VACUUM between checkpoint and crash, and several relations in one log.
- The page header's LSN bytes are not used by `SlottedPage`; TOAST chunk insertion is modelled without its log records.
- The transaction manager sees the commit log as a map; `CommitLog` proves that it is one, with no failing pager.
- Registered extra snapshots do not occur in the runs of `Mvcc`; set_status occurs where it rewrites no decided fate.
- Reuse of a slot that a redirect or an old t_ctid still names: the VACUUM theorem is about the VACUUM call.
- Lost updates in the SQL layer, and "one visible version per row", are not claimed.
- B+tree beyond height 1: children moved by an internal split keep their old parent pointer (`ParentsAfterRootSplit`), so insertion is proved while the root is at level 0 or 1; non-root internal splits and physical page capacity are left out.
- DiskIndex.DiskBTree.InsertEntry: starts from a tree of height 0 or 1; a tree that has lost an entry, or has outgrown height 1, is searched but not inserted into.
- DiskIndex.DiskBTree.SplitLeafPage: the same trees of height 0 or 1.
- DiskIndex.DiskBTree.InsertIntoInternal: the internal page is the root, the only one there is at height 1.
- DiskIndex.DiskBTree.SplitInternalPage: likewise the root.
- DiskIndex.DiskBTree.Open: the file holds a tree of height 0 or 1.
- DiskIndex.DiskBTree.RangeScan: asks for a searchable tree, as RemoveEntry does; what they do in a tree that has lost an entry is not stated.
- Toast.ToastManager.Store: assumes that fewer than 2^64 values have been stored and that a value is shorter than 2^32 bytes, the widths of the pointer and chunk header fields.
- Toast.ToastManager.FlushChunkToPage: covers pages that hold no recyclable slots, as TOAST itself leaves them; chunk replay into a given slot is left out.
- Toast.ToastManager.ScanExistingPages: pages of zeroes and UNUSED slots, which a crash or undo may leave in a TOAST file, are not covered.
- Toast.ToastManager.constructor: the same.
- BufferPool.Pool.UnpinPage: assumes that a holder who has written a page declares it dirty when it releases the last pin, as the engine's callers do.
- FreeSpace.FreeSpaceMap.SearchPage: reopening an FSM file from disk and its flush are not modelled.
- Executor classes take row sources as children, the promise every node keeps; that whole plans keep it is proved on values (`PlanRun`). Heap, index and statuses do not change while a plan runs; null children and predicates, `end` and timing counters are left out.
- Executor.HashJoinNode.Init: the unordered_multimap is a sequence to which entries are added at places given by an arbitrary fixed rule.
- Vacuum.Reclaim: the call of defragment that follows is not in the contract; `SlottedPage.Page.Defragment` proves that it changes no slot.
- Vacuum.Run: updates of the free space map and statistics other than the freed slots are left out.
- WalManager.Wal.LogCheckpoint: the flush of the buffer pool and the sync of the file before the record belong to `CrashRecovery`.
- SlottedPage.Page.SetLinePointer: covers pointers that name no bytes, the only ones VACUUM and undo set.
- PlanLimits.LimitAgreesExactlyWhen: covers a LIMIT without OFFSET directly above a hash join.
- VacuumMaximality.VacuumTakesExactly: statuses SUB_COMMITTED, which nothing sets, and versions whose creator is still running are not covered.
- `explain` and `dump` texts and diagnostic counters.
- Sockets, SQL parsing, catalog, control file and the file layer.
