# Verification of the engine's core

A Dafny model of the parts of the database engine that keep state or must agree with a simpler meaning,
and proofs of what they promise. `dafny verify dfyconfig.toml` checks everything.

The model follows the program's own parts:

- **Locks** (`WaitsFor`, `Serializability`, `LockTable`, `LockSafety`, `LockLiveness`, `LockOutcomes`, `LockManager`). The
  lock table, the transaction table, the wound-wait, wait-die and plain-waiting schemes and the deadlock
  detector, as a state machine over begin, request, acquire, commit and abort, and as a class whose methods
  are proved to make exactly those steps. Every run is serializable in commit order and free of deadlock, and what
  becomes of each request and each transaction is told from what was granted.
- **Timestamps and versions** (`Timestamp`, `MultiVersion`), the two other strategies.
- **B+ tree index** (`BPlusTree` to `BPlusStore`, `NodeCodec`). First the tree as a value: shape, order,
  exactness of the descent, search, range search, and the map it is under distinct keys. Then the linked
  nodes: a heap of nodes holds a tree, an update of one node is an update at one position of it, and the
  operations, which change nodes in place, look parents up and split upwards, come to hold what the value
  says. Saving and loading, and the hash index codec.
- **Buffer, log and recovery** (`BufferPool`, `BufferSteps`, `BufferManager`, `BufferLru`, `WriteAheadLog`, `Recovery`,
  `RecoverySafety`, `RecoveryEngine`, `RecoveryRuns`, `RecoveryCalls`, `RecoveryTrail`, `LogTruncation`, `FailureRecovery`,
  `BackwardReader`).
  What one sees through buffer and disk is one map; every operation is judged by what it does to it. Recovery,
  rollback, checkpoints and the truncation of the log, first on any log, then on the logs that runs write.
- **Files** (`RowBlocks`, `RowReading`, `SchemaCodec`, `Formats`): rows packed in blocks, random access, the schema's bytes.
- **Expressions and queries** (`ExprGrammar`, `ExpressionParser`, `ExprRoundTrip`, `ExprSoundness`, `ExprEval`, `ExprLaws`,
  `Optimizer`, `QueryMeaning`, `QueryOrder`): the recursive descent and the rendering it undoes, the two-pass evaluation of
  flattened lists, the rewrite of cross joins, and the comparisons of conditions. `ExprGrammar` is the grammar as functions, `ExpressionParser` the program's
  descent over a moving cursor, proved to compute them.

## Where the code does less than it says

Each of these is modelled as the code has it, with a lemma for the exact condition or for an input that fails.

- A read that wounds holders runs over the lock's own holder set, which the first abort shrinks, so that the
  call ends in an error after one abort (`LockTable.Validate`, `LockLiveness.OldestIsServed`).
- Wait-die compares with the youngest holder but records the oldest. It prevents deadlock where no request
  meets an older and a younger holder at once (`LockLiveness.WaitDieRun`), and not in general
  (`LockLiveness.RefusedHasVictimIff`, `LockLiveness.WaitDieReachesDeadlock`).
- A range search starts at the last leaf that may hold its lower bound and misses copies before it
  (`BPlusIndex.RangeCompleteIff`).
- Loading an index sets its order to 5, whatever it was (`BPlusStore.Load`).
- A write to a row whose deletion is in the buffer is logged, with the deleted row as before-image, and lost
  (`BufferSteps.ReplayIsSeenIff`, `BufferSteps.WriteIsLost`); recovery and rollback bring the deleted row back
  (`RecoverySafety.RecoversCommittedIff`, `RecoveryRuns.WriteOverDeletion`).
- Redoing a deletion and undoing an insertion only take the row out of the buffer, which uncovers the disk
  (`RecoverySafety.RecoversIff`, `RecoverySafety.DeletionComesBack`, `Recovery.RollbackRestoresIff`,
  `RecoverySafety.InsertionComesBack`).
- The smallest identifier is taken for the oldest transaction (`LogTruncation.KeepsAllIff`,
  `LogTruncation.ShorteningKeepsKeyIff`, `LogTruncation.LeastIsNotOldest`).
- Decoding blocks tells types apart by width, pads char values with spaces and reads each of their bytes as a
  character (`RowBlocks.FieldSurvivesIff`, `RowBlocks.CharacterChanged`, `RowBlocks.CharFilled`,
  `RowBlocks.TextAsNumber`). Reading one row by its number goes by the types and strips char values instead
  (`RowReading.FieldReadsIff`).
- Stamps begin at zero, so an identifier below it can be refused without a conflict (`Timestamp.RefusedIff`).
- Flattening drops parentheses (`ExprEval.FlattenIsTokensIff`, `ExprEval.ParenthesesLost`).
- The search for a join condition goes through ON conditions and under OR, and the rewrite never checks the
  scope of what it found (`QueryMeaning.OptimizerKeepsAnswerIff`, `QueryMeaning.OnConditionEmpties`,
  `QueryMeaning.OrConditionLoses`).
- The optimizer stops after ten iterations (`Optimizer.FixpointIff`, `Optimizer.ElevenAreTooMany`).

## Model

| member | source | states |
|---|---|---|
| WaitsFor.DetectDeadlock | Concurrency_Control_Manager/lib/transaction_model.py:161-198 | a list is returned exactly when the waits-for graph has a cycle, and the list is a cycle of the graph without repetitions |
| WaitsFor.FindCycle | Concurrency_Control_Manager/lib/transaction_model.py:171-191 | the search from one transaction returns a real cycle, or every transaction it visited reaches none, with the path of the search restored |
| WaitsFor.OrderedIsAcyclic | Concurrency_Control_Manager/lib/transaction_model.py:161-198 | a graph whose finished transactions are ordered so that edges go to earlier ones has no cycle: why an exhausted search is a proof |
| Serializability.CommitOrderSerializes | Concurrency_Control_Manager/lib/lock_based_strategy.py:98-268 | any strict history gives every read of a committed transaction the version, and every object the last version, that running the committed transactions one after another in commit order gives them |
| LockSafety.RunSerializable | Concurrency_Control_Manager/lib/lock_based_strategy.py:98-268 | in every run, under every prevention scheme, the committed transactions' granted operations are equivalent to the serial execution in commit order |
| LockSafety.RunKeepsInv | Concurrency_Control_Manager/lib/lock_based_strategy.py:98-268 | every reachable state keeps: lock holders are active, write locks have one holder, active transactions keep their locks, conflicting grants are separated by the first one's end, and no cycle of waiting remains |
| LockSafety.StepKeepsInv | Concurrency_Control_Manager/lib/transaction_coordinator.py:44-67 | each begin, request, acquisition, commit or abort keeps that invariant |
| LockSafety.ValidateKeeps | Concurrency_Control_Manager/lib/lock_based_strategy.py:144-251 | each request keeps it, and an allowed request leaves no holder in the way of the requester, who is still active |
| LockSafety.VictimBreaksDeadlock | Concurrency_Control_Manager/lib/deadlock_detector.py:9-17 | when a new wait closes a cycle, aborting any one transaction of a detected cycle leaves no cycle |
| LockSafety.MeetingCycles | Concurrency_Control_Manager/lib/transaction_model.py:161-198 | each transaction waiting for one other, two cycles through one transaction are the same set of transactions |
| LockLiveness.WoundWaitRun | Concurrency_Control_Manager/lib/lock_based_strategy.py:56-96 | in every run under wound-wait each recorded wait is for a smaller identifier, and there is no cycle |
| LockLiveness.WoundWaitHasNoVictim | Concurrency_Control_Manager/lib/deadlock_detector.py:9-17 | a refused request under wound-wait changes nothing but the requester's recorded wait: detection never chooses a victim |
| LockLiveness.OldestIsServed | Concurrency_Control_Manager/lib/lock_based_strategy.py:144-251 | the oldest active transaction never waits: a write is allowed at once, a blocked read fails after wounding the holder and is allowed when repeated |
| LockLiveness.EndingReleases | Concurrency_Control_Manager/lib/end_transaction.py:32-94 | after a commit or an abort the locks are those of the others, unchanged, and none of the transaction's own |
| LockLiveness.RefusedHasVictimIff | Concurrency_Control_Manager/lib/lock_based_strategy.py:144-251 | under every scheme a refused request ends with a deadlock victim, the youngest of a cycle, exactly if the recorded waits lead from the oldest blocker to the requester; otherwise it only records the wait |
| LockLiveness.WaitDieRun | Concurrency_Control_Manager/lib/lock_based_strategy.py:56-96 | in every run under wait-die in which no request meets an older and a younger holder at once, waits are only for younger transactions, there is no cycle, and no request aborts anybody |
| LockLiveness.WaitDieHasNoVictim | Concurrency_Control_Manager/lib/deadlock_detector.py:9-17 | a refused wait-die request whose blockers are all younger, while recorded waits are for younger ones, changes nothing but the requester's recorded wait |
| LockLiveness.WaitDieReachesDeadlock | Concurrency_Control_Manager/lib/lock_based_strategy.py:56-96 | otherwise wait-die does not prevent deadlock: a run without commits or aborts leads to a transaction waiting for an older one that is about to wait for it |
| LockLiveness.WaitDieAbortsAVictim | Concurrency_Control_Manager/lib/deadlock_detector.py:9-17 | the next request of that run closes the cycle, and the younger of the two is aborted by detection |
| LockManager.ConcurrencyControl.constructor | Concurrency_Control_Manager/lib/lock_based_strategy.py:23-30 | the empty tables satisfy the invariant |
| LockManager.ConcurrencyControl.BeginTransaction | Concurrency_Control_Manager/lib/transaction_model.py:71-78 | the new state is the step Begin's; an identifier in use is an error |
| LockManager.ConcurrencyControl.ValidateOperation | Concurrency_Control_Manager/lib/transaction_coordinator.py:49-59 | the new state and the response are the step Request's, and the invariant is kept |
| LockManager.ConcurrencyControl.ExecuteOperation | Concurrency_Control_Manager/lib/transaction_coordinator.py:44-47 | the new state and the response are the step Acquire's, and the invariant is kept |
| LockManager.ConcurrencyControl.CommitTransaction | Concurrency_Control_Manager/lib/transaction_coordinator.py:61-64 | an active transaction leaves the active ones and its locks for the committed, its commit recorded, and nobody else moves; otherwise the call raises and nothing changes |
| LockManager.ConcurrencyControl.AbortTransaction | Concurrency_Control_Manager/lib/transaction_coordinator.py:66-67 | the same for a rollback and the aborted, with nothing recorded; a call for any other transaction is refused |
| LockManager.ConcurrencyControl.ValidateObject | Concurrency_Control_Manager/lib/lock_based_strategy.py:144-251 | the lock table, the recorded waits, the aborted transactions and the response are those of a request |
| LockManager.ConcurrencyControl.Conflicted | Concurrency_Control_Manager/lib/lock_based_strategy.py:157-251 | the wait, wound and die branches, the deadlock callback included, together make exactly that request |
| LockManager.ConcurrencyControl.LogObject | Concurrency_Control_Manager/lib/lock_based_strategy.py:98-142 | the lock is taken and the wait cleared exactly when the request is allowed |
| LockManager.ConcurrencyControl.ShouldWait | Concurrency_Control_Manager/lib/lock_based_strategy.py:56-89 | waiting is decided by the oldest holder under wound-wait, by the youngest under wait-die, always under plain waiting |
| LockManager.ConcurrencyControl.Wound | Concurrency_Control_Manager/lib/lock_based_strategy.py:231-247 | aborting the holders one by one ends in the state in which all of them are aborted |
| LockManager.ConcurrencyControl.CheckAndResolve | Concurrency_Control_Manager/lib/deadlock_detector.py:9-17 | nothing changes without a cycle; otherwise exactly the youngest transaction of a real cycle is aborted |
| LockManager.ConcurrencyControl.EndTransaction | Concurrency_Control_Manager/lib/end_transaction.py:32-94 | an active transaction's locks are released and it is recorded as committed or aborted; any other is refused and nothing changes |
| LockManager.ConcurrencyControl.ReleaseLocks | Concurrency_Control_Manager/lib/lock_based_strategy.py:253-268 | each lock loses the holder, and a lock without holders disappears |
| LockManager.YoungestOf | Concurrency_Control_Manager/lib/deadlock_detector.py:9-17 | the victim is the largest identifier of the cycle |
| LockOutcomes.WhoIsWhere | Concurrency_Control_Manager/lib/transaction_coordinator.py:44-67 | at every point of a run, committed are exactly the transactions that finished while active, aborted exactly those rolled back, wounded or chosen as a deadlock's victim, and active the others that began |
| LockOutcomes.CommitIsForGood | Concurrency_Control_Manager/lib/end_transaction.py:32-94 | who finishes while active is committed at every later point, never aborted, and its commit is the last entry of the history right after |
| LockOutcomes.RequestOutcome | Concurrency_Control_Manager/lib/lock_based_strategy.py:98-251 | a request is denied exactly if somebody still active was granted something conflicting and the scheme makes the requester wait for it; it is allowed exactly if nobody was, or a write may wound; aborted are exactly the wounded, or the youngest of the deadlock the wait closes |
| LockOutcomes.RefusalRecords | Concurrency_Control_Manager/lib/lock_based_strategy.py:157-251 | a refused transaction that survives waits for the oldest in its way, and nobody else's wait changes |
| LockOutcomes.AcquisitionIsRecorded | Concurrency_Control_Manager/lib/transaction_coordinator.py:44-67 | an acquisition enters the history exactly if the transaction is active and the request would be allowed |
| LockOutcomes.SerialCounts | Concurrency_Control_Manager/lib/lock_based_strategy.py:98-268 | the serial execution holds each operation granted to a committed transaction as often as it was granted, and nothing else |
| LockOutcomes.SerialInOrder | Concurrency_Control_Manager/lib/lock_based_strategy.py:98-268 | in it the transactions stand one after another in the order of their commits |
| LockOutcomes.NothingLeftOut | Concurrency_Control_Manager/lib/lock_based_strategy.py:98-268 | in every run the two executions compared hold exactly the operations granted to those who committed |
| Timestamp.TimestampOrderSerializes | Concurrency_Control_Manager/lib/timestamp_based_strategy.py:27-70 | operations whose conflicts are in timestamp order compute the same reads and final versions as the transactions run one after another by timestamp |
| Timestamp.ByTimestampIsSerial | Concurrency_Control_Manager/lib/timestamp_based_strategy.py:27-70 | that execution has the same operations, ascending by timestamp |
| Timestamp.TimestampBasedStrategy.LogObject | Concurrency_Control_Manager/lib/timestamp_based_strategy.py:27-43 | logging an allowed operation keeps conflicting grants in timestamp order, and the stamps exactly those of the last writer and the latest reader |
| Timestamp.TimestampBasedStrategy.ValidateObject | Concurrency_Control_Manager/lib/timestamp_based_strategy.py:45-70 | a request is refused exactly if a conflicting operation of a later transaction was granted, or its identifier is below the zero that stamps begin at |
| Timestamp.TimestampBasedStrategy.Run | Concurrency_Control_Manager/lib/timestamp_based_strategy.py:27-70 | for every sequence of requests, each is judged so by what was granted before it, and what was granted computes what the serial order by timestamp computes |
| MultiVersion.ExactlyOneVisible | Concurrency_Control_Manager/lib/multi_version_strategy.py:58-79 | from an object's first version on, exactly one version covers a timestamp and the backward search finds it; before it none does |
| MultiVersion.WriteIsLocal | Concurrency_Control_Manager/lib/multi_version_strategy.py:31-56 | a granted write is what is read from its timestamp on, and no read below it sees other data than before |
| MultiVersion.CollectionKeepsSeen | Concurrency_Control_Manager/lib/multi_version_strategy.py:96-121 | garbage collection leaves the same version visible at every timestamp not below its bound |
| MultiVersion.CollectedIsSuffix | Concurrency_Control_Manager/lib/multi_version_strategy.py:111-116 | what is kept is the end of the chain: the versions live or expired at or after the bound; all before it expired below |
| MultiVersion.MultiVersionStrategy.LogWrite | Concurrency_Control_Manager/lib/multi_version_strategy.py:31-56 | the latest live version, found from the back, expires and the new one follows; other objects stay |
| MultiVersion.MultiVersionStrategy.ValidateRead | Concurrency_Control_Manager/lib/multi_version_strategy.py:63-79 | a read is refused exactly if the object has versions but none created by then; the fallback search never decides |
| MultiVersion.MultiVersionStrategy.ValidateWrite | Concurrency_Control_Manager/lib/multi_version_strategy.py:81-88 | a write is refused exactly if a version of a later transaction exists |
| MultiVersion.MultiVersionStrategy.GarbageCollectVersions | Concurrency_Control_Manager/lib/multi_version_strategy.py:96-121 | every active transaction sees the same version of every object as before; kept are exactly the end of each chain that is live or did not expire before every active transaction |
| MultiVersion.MultiVersionStrategy.Run | Concurrency_Control_Manager/lib/multi_version_strategy.py:31-121 | in every run a write is refused exactly if one of a later transaction to the object was granted before, and each object's versions are the last of its granted writes, in order, through all collections |
| MultiVersion.SeesLastWrite | Concurrency_Control_Manager/lib/multi_version_strategy.py:58-79 | on such versions a reader sees the last granted write of a transaction not after it |
| BPlusTree.GrowShape | Storage_Manager/b_plus_tree_index.py:228-281 | insertion keeps all leaves at one depth, one more child than keys and at most order-1 keys in a node |
| BPlusTree.GrowFlat | Storage_Manager/b_plus_tree_index.py:96-107 | insertion puts in one entry and keeps all others in their order, through any splits |
| BPlusOrder.GrowOrdered | Storage_Manager/b_plus_tree_index.py:96-107 | insertion keeps keys sorted and separators between their subtrees, duplicates allowed |
| BPlusOrder.FoundLeafSplits | Storage_Manager/b_plus_tree_index.py:219-226 | before the leaf the descent finds no key exceeds the key sought, after it every key does |
| BPlusOrder.FirstLeafSplits | Storage_Manager/b_plus_tree_index.py:43-52 | before the leaf where a search starts to walk every key is smaller |
| BPlusExact.GrowTight | Storage_Manager/b_plus_tree_index.py:96-107 | insertion keeps every separator equal to the least key of the subtree on its right |
| BPlusExact.TightFinds | Storage_Manager/b_plus_tree_index.py:32-41 | so if a key is in the tree at all, the one leaf the descent finds has it: the early existence test of a search is sound |
| BPlusExact.GrowStrict | Storage_Manager/b_plus_tree_index.py:96-107 | inserting a key that is not in the tree keeps keys distinct across every separator |
| BPlusExact.DeleteFlat | Storage_Manager/b_plus_tree_index.py:109-118 | deletion takes out exactly one matching entry if the found leaf has one, and nothing otherwise |
| BPlusExact.DeleteOrdered | Storage_Manager/b_plus_tree_index.py:109-118 | deletion keeps the order |
| BPlusExact.DeleteShape | Storage_Manager/b_plus_tree_index.py:109-118 | deletion keeps depth, child counts and the bound on keys |
| BPlusIndex.BuildSound | Storage_Manager/b_plus_tree_index.py:96-107 | for every sequence of insertions into an empty tree of order at least 2: sorted, tight, balanced, bounded, and holding exactly the inserted multiset |
| BPlusIndex.SearchFindsAll | Storage_Manager/b_plus_tree_index.py:32-63 | for every such tree, duplicates included, a search returns exactly the multiset of values inserted under the key, and nothing exactly if there are none |
| BPlusIndex.SoundSearch | Storage_Manager/b_plus_tree_index.py:32-63 | and returns them in leaf order |
| BPlusIndex.RangeCompleteIff | Storage_Manager/b_plus_tree_index.py:65-93 | a range search answers in key order, and completely exactly if no copies of its lower bound lie before the leaf the descent finds, or the range is empty |
| BPlusIndex.RangeMissesOnlyLow | Storage_Manager/b_plus_tree_index.py:65-93 | what it misses is only ever under the lower bound itself |
| BPlusIndex.RangeLosesACopy | Storage_Manager/b_plus_tree_index.py:65-93 | three values under one key in a tree of order 3: a range search returns two of them |
| BPlusIndex.EmptyIsMap | Storage_Manager/b_plus_tree_index.py:26-30 | the new index is the empty map |
| BPlusIndex.MapInsert | Storage_Manager/b_plus_tree_index.py:96-107 | with distinct keys an insertion is a map update |
| BPlusIndex.MapDelete | Storage_Manager/b_plus_tree_index.py:109-118 | a deletion removes the key if it has that value, and otherwise changes nothing |
| BPlusIndex.MapLookup | Storage_Manager/b_plus_tree_index.py:32-63 | a search is a map lookup |
| BPlusIndex.MapRange | Storage_Manager/b_plus_tree_index.py:65-93 | a range search returns every value with a key in the range, in key order |
| BPlusHeap.FindsParent | Storage_Manager/b_plus_tree_index.py:283-294 | searching the linked nodes for the parent of a node finds the one above it, or nothing at the root |
| BPlusSteps.RiseIsGrow | Storage_Manager/b_plus_tree_index.py:228-281 | splitting bottom-up from the leaf, looking parents up, gives the tree that inserting top-down gives |
| BPlusSteps.LeafHalved | Storage_Manager/b_plus_tree_index.py:228-246 | halving a leaf and linking the new one in leaves a chain of all leaves in order and no node shared |
| BPlusSteps.InnerHalved | Storage_Manager/b_plus_tree_index.py:264-281 | halving an inner node leaves the chain as it was, moves the middle key up and shares no node |
| BPlusSteps.ParentTakes | Storage_Manager/b_plus_tree_index.py:257-259 | a parent with the new child put in holds the tree again |
| BPlusView.LeafInHole | Storage_Manager/b_plus_tree_index.py:219-226 | the leaf a descent reaches is the one with as many leaves before it as lie left of the path |
| BPlusView.WalkLeaf | Storage_Manager/b_plus_tree_index.py:54-61 | the node a walk reaches after some steps along the chain holds the leaf with that number |
| BPlusNodes.BPlusTreeIndex.constructor | Storage_Manager/b_plus_tree_index.py:26-30 | an empty tree of the given order |
| BPlusNodes.BPlusTreeIndex.FindLeaf | Storage_Manager/b_plus_tree_index.py:219-226 | the leaf reached and the path to it, along which the key decides every turn |
| BPlusNodes.BPlusTreeIndex.FindParent | Storage_Manager/b_plus_tree_index.py:283-294 | the recursive search over linked nodes is the search over the tree they hold |
| BPlusNodes.BPlusTreeIndex.Search | Storage_Manager/b_plus_tree_index.py:32-63 | the linked nodes answer what the tree as a value answers, through the early test, the second descent and the walk |
| BPlusNodes.BPlusTreeIndex.SearchRange | Storage_Manager/b_plus_tree_index.py:65-93 | likewise for a range, from the found or the leftmost leaf to the first key beyond the range |
| BPlusNodes.WalkAt | Storage_Manager/b_plus_tree_index.py:54-63 | the walk along the chain, stopping at the first greater key, collects every value under the key |
| BPlusNodes.WalkIn | Storage_Manager/b_plus_tree_index.py:79-93 | the walk of a range search collects every value within the bounds |
| BPlusNodes.BPlusTreeIndex.Insert | Storage_Manager/b_plus_tree_index.py:96-107 | in place, the nodes come to hold exactly the tree with the entry inserted, every node once, leaves chained in order, and each new node has the index's order |
| BPlusNodes.BPlusTreeIndex.SplitLeaf | Storage_Manager/b_plus_tree_index.py:228-246 | the split rises through the ancestors as far as nodes overflow, up to a new root |
| BPlusNodes.BPlusTreeIndex.InsertIntoParent | Storage_Manager/b_plus_tree_index.py:248-262 | the new node and its key enter the parent right after the split node, or a new root |
| BPlusNodes.BPlusTreeIndex.SplitInternal | Storage_Manager/b_plus_tree_index.py:264-281 | likewise for an inner node |
| BPlusNodes.BPlusTreeIndex.Delete | Storage_Manager/b_plus_tree_index.py:109-118 | in place, the nodes come to hold exactly the tree with the entry deleted |
| BPlusNodes.RebuildLeafLinks | Storage_Manager/b_plus_tree_index.py:125-139 | the leaves in order are returned and linked each to the next; the last link and all other nodes stay |
| BPlusStore.SerializeNode | Storage_Manager/index.py:82-124 | the bytes written for the linked nodes are the encoding of the tree they hold, each node with its order |
| BPlusStore.DeserializeNode | Storage_Manager/index.py:126-182 | fresh nodes, none shared and none linked, hold the tree the bytes decode to, and the offset is the one after it; an error exactly if the bytes do not decode |
| BPlusStore.Load | Storage_Manager/b_plus_tree_index.py:141-149 | the loaded index has order 5, holds the decoded tree and chains its leaves in order; it is in good order again if the tree fits order 5 |
| BPlusStore.SaveAndLoad | Storage_Manager/b_plus_tree_index.py:120-149 | saving any index and loading it gives back the same tree and the same orders of its nodes |
| BPlusStore.Create | Storage_Manager/b_plus_tree_index.py:189-204 | indexing a column builds the tree of its keys with their row numbers, every node with the index's order |
| BPlusStore.CreatedFindsRows | Storage_Manager/b_plus_tree_index.py:202-204 | a search in it lists each row with the key exactly once, and no other row |
| NodeCodec.RoundTrip | Storage_Manager/index.py:82-182 | decoding an encoded tree at any offset of any larger buffer returns the same tree and the offset just past it |
| NodeCodec.HashRoundTrip | Storage_Manager/index.py:5-80 | decoding an encoded hash index returns the same keys with the same rows |
| NodeCodec.SerializeHash | Storage_Manager/index.py:5-39 | the bytes appended are the encoding of the dictionary, or an error if a length or number does not fit |
| NodeCodec.DeserializeHash | Storage_Manager/index.py:41-80 | the dictionary is the one that assigning the decoded items in turn makes |
| BufferPool.Merge | Storage_Manager/storage_engine.py:141-180 | the merge of a table's rows with buffered rows has each key once, with the buffered row, no row where it is deleted, or else the row itself |
| BufferManager.SaveTable | Storage_Manager/storage_engine.py:714-743 | saving a prepared table leaves under each key its new row, nothing if it was deleted, or the old row |
| BufferManager.SavedIsSeen | Storage_Manager/storage_engine.py:689-749 | the merge of the flush and the merge of the save together put on disk what was seen through buffer and disk |
| BufferManager.SaveTables | Storage_Manager/storage_engine.py:689-749 | saving all prepared tables makes the disk alone show what was seen |
| BufferManager.BufferManager.Scan | Storage_Manager/storage_engine.py:141-180 | a scan returns exactly the rows one sees, each once |
| BufferManager.BufferManager.FlushDirtyBlocks | Failure_Recovery/buffer_manager.py:163-234 | the view stays, the disk equals it, and all rows are clean; with nothing dirty the buffer is emptied |
| BufferManager.BufferManager.EvictBlock | Failure_Recovery/buffer_manager.py:144-158 | exactly the first key in the order of use leaves, after a flush if it was dirty, the others keep their order, and the view stays |
| BufferManager.BufferManager.AddToBuffer | Failure_Recovery/buffer_manager.py:138-142 | one row is put in, others are seen as before, and the buffer stays within its capacity |
| BufferManager.BufferManager.ReadBlock | Failure_Recovery/buffer_manager.py:39-74 | a row is found exactly if it is buffered or seen, reading changes nothing of the view, through loads and evictions, and moves the key to the end of the order of use |
| BufferManager.BufferManager.WriteBlock | Failure_Recovery/buffer_manager.py:76-108 | a write is one update of the view and logs the old view as before-image, exactly if the row is not deleted in the buffer; then it stays hidden |
| BufferManager.BufferManager.DeleteBlock | Failure_Recovery/buffer_manager.py:110-136 | a deletion removes one key from the view, and is logged exactly if there was a row |
| BufferManager.BufferManager.Do | Failure_Recovery/buffer_manager.py:39-136 | one request is one step: what is seen afterwards, what is logged, which rows are hidden, and a disk that stays or takes over what was seen |
| BufferManager.BufferManager.Run | Failure_Recovery/buffer_manager.py:39-136 | for any sequence of requests, evictions and flushes: replaying the logged after-images gives what is seen under a key exactly if the key is not lost; lost keys were written after their deletion; the logged before-images are what was seen exactly if the run is clean, as it is for careful callers |
| BufferLru.OrderIsByUse | Failure_Recovery/buffer_manager.py:34-37 | in every run the buffered keys stand in the order of their last use |
| BufferLru.EvictsEarliest | Failure_Recovery/buffer_manager.py:138-158 | only a full buffer gives up a row to a request, only for a key it does not hold, and the row whose last use is earliest |
| BufferSteps.ReplayIsSeenIff | Failure_Recovery/buffer_manager.py:76-136 | in every run, replay and view agree under a key exactly if the last request logged for it was no write that met its buffered deletion |
| BufferSteps.FaithfulIff | globalsy/loggers/wal_manager.py:50-73 | in every run, each before-image logged is the value the log before it gives, exactly if no write met a buffered deletion and every deletion was given the row seen |
| BufferSteps.CarefulIsClean | Failure_Recovery/buffer_manager.py:76-136 | a caller who writes no key after deleting it, and passes the rows to be seen to deletions, has such a run |
| BufferSteps.WriteIsLost | Failure_Recovery/buffer_manager.py:94-108 | a row deleted and written again: the log replays to the new row, and none is seen |
| BufferManager.BufferManager.WriteForRecovery | Failure_Recovery/buffer_manager.py:240-250 | one update of the view, a tombstone included, and without eviction one update of the buffer |
| BufferManager.BufferManager.DeleteForRecovery | Failure_Recovery/buffer_manager.py:252-260 | the row leaves the buffer, so that one sees what the disk has |
| WriteAheadLog.BeforeImagesRewind | globalsy/loggers/wal_manager.py:50-73 | in a log whose before-images are right they lead from the last state back to every earlier one, key by key |
| Recovery.AfterRedo | Failure_Recovery/recovery.py:34-57 | after the redo pass a key has the after-image of its last operation not aborted, or the disk's row if that was a deletion |
| Recovery.AfterUndo | Failure_Recovery/recovery.py:62-82 | after the undo pass a key has the before-image of the first operation undone, or the disk's row if that was an insertion |
| Recovery.RollbackRestoresIff | Failure_Recovery/recovery.py:101-134 | for any log, rolling a transaction back gives a key it wrote a certain value exactly if that is the before-image of its first operation there or, if there is none, what the disk has; keys it did not write stay |
| Recovery.FaithfulRollbackIff | Failure_Recovery/recovery.py:101-134 | where before-images are right and nobody else wrote the key, that is its value at the start exactly if the first operation was no insertion or the disk has no such row |
| RecoverySafety.RecoversIff | Failure_Recovery/recovery.py:15-99 | for any log, disk and flushes before the crash: recovery reaches its aim for a key exactly if the disk has no row where a row is taken out of the buffer, and the old value where nothing was done |
| RecoverySafety.IntendedIsCommittedIff | Failure_Recovery/recovery.py:15-99 | for a log in which transactions act between their start and end, that aim is the checkpoint with the committed operations applied in log order, exactly if the first before-image of an unfinished transaction under the key is that value |
| RecoverySafety.RecoversCommittedIff | Failure_Recovery/recovery.py:15-99 | recovery gives a key that value exactly if the first unfinished before-image, or the disk where it is none, is that value; without one, exactly if the row is not taken out of the buffer over one on disk, and the disk has the checkpoint value of a key left alone |
| RecoverySafety.RecoversWithoutDeletions | Failure_Recovery/recovery.py:15-99 | for a log of insertions and updates, exactly if the first unfinished before-image, or the disk where it is none, is that value |
| RecoverySafety.DeletionComesBack | Failure_Recovery/recovery.py:166-185 | a committed deletion of a row on disk is not redone: the row is back after recovery |
| RecoverySafety.DeletedRowComesBack | Failure_Recovery/buffer_manager.py:94-108 | a write over a buffered deletion logs the deleted row as before-image, and recovery and rollback bring the deleted row back, on a log without deletions |
| RecoverySafety.InsertionComesBack | Failure_Recovery/recovery.py:187-205 | rolling back an insertion that was flushed leaves the row |
| RecoveryRuns.RunsShowCommitted | Failure_Recovery/failure_recovery_manager.py:85-101 | in every disciplined run after a checkpoint, rollbacks, evictions and flushes included: under a key no unfinished transaction wrote, one sees the checkpoint with the committed operations applied in log order |
| RecoveryRuns.RunsRecoverIff | Failure_Recovery/recovery.py:15-99 | after a crash at any point of such a run, recovery gives a key the checkpoint with the committed operations applied exactly if it does not take the row out of the buffer over one on disk |
| RecoveryRuns.NextKeeps | Failure_Recovery/failure_recovery_manager.py:85-101 | every begin, request, commit and rollback keeps, key by key: committed values are seen, the first before-image of an unfinished writer is the committed value, a key has one unfinished writer, and what recovery leaves alone has its old value on disk |
| RecoveryRuns.RollbackRestoresStart | Failure_Recovery/recovery.py:101-134 | a transaction that begins, asks and is rolled back while nobody else writes a key leaves the key as it was at the start, unless it inserted it first; then exactly if the disk had no such row, if nothing is evicted meanwhile |
| RecoveryRuns.WriteOverDeletion | Failure_Recovery/buffer_manager.py:94-108 | a permitted run whose one fault is a write that meets a buffered deletion: recovery and rollback both bring the deleted row back |
| RecoveryCalls.PartiesByCalls | Failure_Recovery/failure_recovery_manager.py:85-101 | at every point of a run the log says started, committed and aborted of exactly those whose begin, finish and rollback was called |
| RecoveryCalls.LosersByCalls | Failure_Recovery/recovery.py:30-57 | in a disciplined run recovery takes for unfinished exactly those who began and neither finished nor were rolled back |
| RecoveryCalls.ShownByCalls | Failure_Recovery/failure_recovery_manager.py:85-101 | under a key that no running transaction changed one sees the value at the checkpoint with the changes of exactly those who finished, in the order of the calls |
| RecoveryCalls.RecoveredByCalls | Failure_Recovery/recovery.py:15-99 | after a crash at any point recovery gives each key that value, exactly if it does not take the row out of the buffer over one on disk |
| RecoveryEngine.RecoveryEngine.FindLastCheckpoint | Failure_Recovery/recovery.py:212-221 | the entries after the last checkpoint, in order, and the transactions it lists |
| RecoveryEngine.RecoveryEngine.Redo | Failure_Recovery/recovery.py:28-57 | whatever is evicted, the pass leaves the undo set and, under each key, the last after-image redone; with room the very buffer of the redo fold |
| RecoveryEngine.RecoveryEngine.Undo | Failure_Recovery/recovery.py:62-82 | whatever is evicted, the backward pass leaves under each key the first before-image undone, and writes one compensation per operation and one abort per transaction; with room the very buffer of the undo fold |
| RecoveryEngine.RecoveryEngine.Recover | Failure_Recovery/recovery.py:15-99 | the aim of recovery is on disk under every key but those whose row it takes out of the buffer last; with room the disk is what the two passes make of buffer and log under every key |
| RecoveryEngine.RecoveryEngine.AbortTransaction | Failure_Recovery/recovery.py:101-134 | on disk every key has the first before-image of the transaction since its start, keys it did not write stay, an inserted key has, with room, what the disk had; logged is one entry for each of its effective operations since its start, the latest first, with the images exchanged, and nothing else |
| FailureRecovery.FailureRecoveryManager.SaveCheckpoint | Failure_Recovery/failure_recovery_manager.py:116-143 | the view stays, the disk equals it, and the log keeps exactly the checkpoint, or the entries still needed |
| FailureRecovery.FailureRecoveryManager.AbortTransaction | Failure_Recovery/failure_recovery_manager.py:99-101 | the abort is logged before the rollback, which the new entry does not disturb: one rollback step of the runs |
| RecoveryTrail.RollbackLogs | Failure_Recovery/recovery.py:101-164 | a rollback logs the abort and then the reversals of the transaction's operations since its start, from the latest to the first |
| RecoveryTrail.AddedEndAtFirst | Failure_Recovery/recovery.py:117-134 | under each key the last added after-image is the first before-image since the start |
| RecoveryTrail.AddedChain | Failure_Recovery/recovery.py:117-134 | where an operation's before-image is an earlier one's after-image, the two added entries follow on each other likewise |
| RecoveryTrail.TrailAnswers | Failure_Recovery/recovery.py:62-83 | recovery logs, from the end, a reversal for each operation to undo and an abort at the start of each unfinished transaction, and nothing else |
| RecoveryTrail.RecoveryFinishes | Failure_Recovery/recovery.py:15-99 | if every unfinished transaction has its start in the log, after recovery no transaction is left to undo, and a second recovery logs nothing |
| FailureRecovery.FailureRecoveryManager.Do | Failure_Recovery/failure_recovery_manager.py:85-101 | begin, commit, rollback and the requests to the buffer manager are the steps of those runs |
| FailureRecovery.RunAndRecover | Failure_Recovery/failure_recovery_manager.py:145-147 | any calls after a checkpoint, then a crash that leaves disk and log, then recovery: if the run was disciplined the disk has, told by the calls alone, the changes of exactly those who finished, under every key but those where recovery uncovers a row on disk |
| LogTruncation.ClearBeforeCheckpoint | globalsy/loggers/wal_manager.py:431-449 | the log from its last checkpoint on, or all of it if there is none |
| LogTruncation.TruncationKeepsRecovery | globalsy/loggers/wal_manager.py:431-449 | truncated at a checkpoint with nothing going on, the log gives recovery the same operations to redo, the same transactions to undo in the same order, the same buffer and the same new entries |
| LogTruncation.ClearBeforeOldest | globalsy/loggers/wal_manager.py:193-261 | kept are the last checkpoint and the listed transactions' entries from the start of the smallest identifier on |
| LogTruncation.KeepsAllIff | globalsy/loggers/wal_manager.py:193-261 | nothing of those transactions is lost exactly if the start of the smallest identifier comes before all their entries |
| LogTruncation.LeastIsNotOldest | globalsy/loggers/wal_manager.py:193-261 | with the smallest identifier started last, the older transaction's operation is dropped and recovery leaves what it wrote |
| LogTruncation.ShorteningKeepsRecovery | Failure_Recovery/failure_recovery_manager.py:133-143 | if nothing of those transactions is lost then, whatever is logged afterwards, recovery from the shortened log makes the same buffer |
| LogTruncation.ShorteningKeepsKeyIff | Failure_Recovery/failure_recovery_manager.py:133-143 | in any case recovery from the shortened log gives a key the same row exactly if the first kept operation to undo leaves the same as the first of all, and they differ only if that was dropped |
| BackwardReader.IterFileBackward | globalsy/loggers/wal_manager.py:332-350 | for every file and every chunk size the lines come out last to first as if split at once, only an empty first line dropped |
| BackwardReader.ReadsBackWritten | globalsy/loggers/wal_manager.py:33-37 | what was written line by line is read back in reverse, after one empty line |
| RowBlocks.FieldSurvivesIff | Storage_Manager/serializer.py:64-79 | a field that fits is written in its column's width and read back as it was exactly if it is a number, a text not ending in a zero byte, or a char value of full length in seven-bit characters other than zero, and its width is not that of a number |
| RowBlocks.CharacterChanged | Storage_Manager/serializer.py:73-75 | a character of two bytes in a char column is read back as two characters |
| RowBlocks.CharFilled | Storage_Manager/serializer.py:73-75 | a short char value is read back with spaces |
| RowBlocks.TextAsNumber | Storage_Manager/serializer.py:64-68 | a text of three bytes or fewer in a column of length three is read back as a number |
| RowBlocks.RowSurvivesIff | Storage_Manager/serializer.py:125-141 | a row is read back as it was exactly if all its fields are |
| RowBlocks.ReadingsAgree | Storage_Manager/serializer.py:318-349 | reading a single row by column types gives what the full scan gives, if no column is of type char or a text as wide as a number |
| RowBlocks.SerializeWithBlocks | Storage_Manager/serializer.py:82-152 | row i lies at (i div per-block) * 1024 + (i mod per-block) * row size, and the file ends with the last row |
| RowBlocks.ScanBlocks | Storage_Manager/serializer.py:56-80 | the scan finds in any bytes as many whole rows as each block holds, at those offsets |
| RowBlocks.CountsBack | Storage_Manager/serializer.py:56-62 | a file of n rows scans as n rows: the padding of blocks never reads as a row |
| RowBlocks.PackedScans | Storage_Manager/storage_engine.py:109-139 | scanning a packed file gives the rows back, and each row read at its offset is the scan's |
| RowBlocks.Serialize | Storage_Manager/serializer.py:82-152 | the file packs the encodings of the rows |
| RowBlocks.Deserialize | Storage_Manager/serializer.py:24-80 | each row of the scan is the decoding of the bytes at its offset |
| RowBlocks.ReadRow | Storage_Manager/storage_engine.py:109-132 | the row at a number is decoded from the bytes at its offset; past the end there is none |
| RowBlocks.PastTheEnd | Storage_Manager/storage_engine.py:113-127 | a number past the last row lies past the end of a packed file, so no row is read cut off |
| RowBlocks.TableRoundTrip | Storage_Manager/serializer.py:24-152 | a saved table scans back with as many rows, each as it was exactly if its fields survive, and equal to the row read by its number where the columns are plain |
| RowReading.FieldReadsIff | Storage_Manager/serializer.py:318-349 | a field of any type read by its column's type is as it was exactly if it is a number, a text not ending in a zero byte, or a char value in characters between 1 and 127 that neither begins nor ends with white space, of any length |
| RowReading.RowReadsIff | Storage_Manager/serializer.py:318-349 | a row read by its columns' types is as it was exactly if all its fields are |
| RowReading.SaveAndRead | Storage_Manager/storage_engine.py:109-132 | a saved table has a row at every number below its length and at no other, and each read by its number is as it was exactly under that condition on its fields |
| RowReading.StrippedIs | Storage_Manager/serializer.py:344-344 | stripping leaves what stands between white space and does not begin or end with any |
| Formats.WordDigits | Storage_Manager/serializer.py:131-131 | the four bytes of a number, the most significant first |
| Formats.SampleRow | Storage_Manager/serializer.py:121-141 | the bytes of a row of an int, a varchar and a char |
| Formats.SampleInner | Storage_Manager/index.py:82-130 | the bytes of a node over two leaves, each child with its length before it |
| Formats.SampleHash | Storage_Manager/index.py:5-39 | the bytes of a hash index |
| Formats.SampleSchema | Storage_Manager/serializer.py:154-217 | the bytes of a schema with a primary key and a cascading foreign key |
| SchemaCodec.SchemaRoundTrip | Storage_Manager/serializer.py:154-296 | a writable schema is written and read back, column names in lower case, with lengths, primary keys and foreign keys, whatever lower-casing does to letters |
| SchemaCodec.Deserialize | Storage_Manager/serializer.py:219-296 | the loop over the bytes returns the decoded schema, or an error exactly where decoding fails |
| ExprRoundTrip.ParsingUndoesPrinting | Query_Optimizer/lib/parsers/expression_parser.py:9-171 | parsing the rendering of any tree of the grammar, anywhere among other tokens, before a token that cannot continue it, returns the tree and stops at that token |
| ExprRoundTrip.PrintReads | Query_Optimizer/lib/parsers/expression_parser.py:9-171 | the same at every precedence level: the descent arrives with the tree in hand where its own loop goes on |
| ExprSoundness.OrSound | Query_Optimizer/lib/parsers/expression_parser.py:9-171 | a tree is returned only for tokens that spell it, with parentheses wherever the binding needs them and possibly around other parts |
| ExprSoundness.ParsedIsGrammatical | Query_Optimizer/lib/parsers/expression_parser.py:9-171 | only trees of the grammar are returned |
| ExpressionParser.Parser.Advance | Query_Optimizer/lib/parsers/base_parser.py:20-26 | the cursor moves one token on |
| ExpressionParser.Parser.ParseOr | Query_Optimizer/lib/parsers/expression_parser.py:12-21 | tree, cursor and errors are those of the grammar's disjunctions |
| ExpressionParser.Parser.ParseAnd | Query_Optimizer/lib/parsers/expression_parser.py:23-32 | of its conjunctions |
| ExpressionParser.Parser.ParseNot | Query_Optimizer/lib/parsers/expression_parser.py:34-40 | of negations |
| ExpressionParser.Parser.ParseComparison | Query_Optimizer/lib/parsers/expression_parser.py:42-95 | of comparisons, LIKE, IN and BETWEEN |
| ExpressionParser.Parser.ParseValues | Query_Optimizer/lib/parsers/expression_parser.py:68-77 | of value lists |
| ExpressionParser.Parser.ParseAdditive | Query_Optimizer/lib/parsers/expression_parser.py:97-107 | of sums |
| ExpressionParser.Parser.ParseMultiplicative | Query_Optimizer/lib/parsers/expression_parser.py:109-119 | of products |
| ExpressionParser.Parser.ParsePrimary | Query_Optimizer/lib/parsers/expression_parser.py:121-171 | of primaries |
| ExprEval.OnePass | Storage_Manager/storage_engine.py:920-942 | one pass over the resolved list applies each of its operators where it stands |
| ExprEval.EvaluateExpression | Storage_Manager/storage_engine.py:884-964 | resolution, the two passes and the final test give the value or error of Evaluated, whose arithmetic the ExprLaws state |
| ExprEval.EvaluationIsMeaning | Storage_Manager/storage_engine.py:884-964 | for every expression written without parentheses, evaluating the flattened list gives the tree's value, an error exactly when a column is missing or a divisor is zero |
| ExprEval.FlattenIsTokensIff | Query_Processor/classes.py:951-967 | flattening gives the tokens of the rendering exactly if the rendering has no parentheses |
| ExprEval.ParenthesesLost | Query_Processor/classes.py:951-967 | (a + a) * a at 3 means 18 and evaluates to 12 |
| ExprLaws.OperatorLaw | Storage_Manager/storage_engine.py:920-964 | between any two lists written without parentheses: the result of - added to the right value is the left value, that of / multiplied by it likewise, + and * are sum and product; it fails exactly if a side does or the divisor is zero |
| ExprLaws.TwoOperands | Storage_Manager/storage_engine.py:884-964 | the same for two operands, numbers or columns |
| ExprLaws.FromTheLeft | Storage_Manager/storage_engine.py:920-964 | operators of one level are applied from the left, and a product or quotient before what follows it |
| ExprLaws.FromTheRight | Storage_Manager/storage_engine.py:920-964 | a product or quotient comes before the sum or difference on its left |
| ExprLaws.ThreeOperands | Storage_Manager/storage_engine.py:884-964 | a - b - c is the d with d + c + b = a, a + b * c is a plus the product, and so on |
| ExprLaws.TwoQuotients | Storage_Manager/storage_engine.py:884-964 | a / b / c is the q with q * c * b = a, and fails exactly if b or c is zero |
| ExprLaws.EvenLengthFails | Storage_Manager/storage_engine.py:960-964 | a list of even length is always an error |
| Optimizer.Optimize | Query_Optimizer/lib/optimization/optimizer.py:31-71 | the loop ends with the plan of at most ten rewrites, stopping at the first that changes nothing |
| Optimizer.CombineConverts | Query_Optimizer/lib/optimization/rules/selection_rules.py:260-298 | on a parsed query each rewrite turns one cross join, the outermost, into a theta join, and finds the same condition again |
| Optimizer.FixpointIff | Query_Optimizer/lib/optimization/optimizer.py:31-71 | the optimizer ends with a plan it would not change exactly if it finds no condition or there are at most ten cross joins |
| Optimizer.ElevenAreTooMany | Query_Optimizer/lib/optimization/optimizer.py:31-71 | eleven cross joins under an equality: the plan the optimizer ends with is not one it would keep |
| Optimizer.FindIsFirst | Query_Optimizer/lib/optimization/rules/selection_rules.py:311-345 | the condition found is the first equality of the plan, those of the joins before the selection's |
| Optimizer.ConvertsOutermost | Query_Optimizer/lib/optimization/rules/selection_rules.py:284-298 | converting gives the outermost join without a condition this one, and changes nothing else |
| QueryMeaning.ProcessCrossJoin | Query_Processor/classes.py:726-751 | the nested loops make the product, row by row |
| QueryMeaning.ProcessThetaJoin | Query_Processor/classes.py:692-715 | the nested loops keep of the product the rows on which the condition holds, in order; which these are QueryOrder.ThetaJoinPairs and ThetaJoinOrders say |
| QueryOrder.ProductAt | Query_Processor/classes.py:726-751 | the product holds every pair of rows once, the right rows running faster |
| QueryOrder.ThetaJoinPairs | Query_Processor/classes.py:692-715 | a pair is in the theta join exactly if the condition holds of the two rows merged, and the pairs keep their order |
| QueryOrder.ThetaJoinOrders | Query_Processor/classes.py:692-715 | for columns of amounts a pair is in the join on =, <>, <, >, <= or >= exactly if the two real numbers stand so |
| QueryOrder.AmountsCompare | Storage_Manager/storage_engine.py:809-826 | a comparison of amounts, of columns or numbers, holds exactly if the real numbers stand so |
| QueryOrder.TextsCompare | Storage_Manager/storage_engine.py:809-826 | a comparison of texts holds exactly if they stand so in the order of a dictionary |
| QueryOrder.DictionaryIsTotal | Storage_Manager/storage_engine.py:809-826 | of two texts exactly one comes first unless they are equal, and nothing comes before the empty one |
| QueryOrder.DictionaryIsTransitive | Storage_Manager/storage_engine.py:809-826 | and the order is transitive |
| QueryOrder.Trichotomy | Storage_Manager/storage_engine.py:809-826 | of two amounts or two texts exactly one of <, = and > holds; > is < turned round, <= and >= the complements of > and < |
| QueryOrder.QualifiedAt | Query_Processor/classes.py:1573-1581 | each row keeps its values under the table's name and the column's |
| QueryMeaning.ConvertFilters | Query_Optimizer/lib/optimization/rules/selection_rules.py:284-294 | converting the top, or a join with both columns in its scope, leaves exactly the rows on which the condition holds |
| QueryMeaning.ConvertEmpties | Query_Optimizer/lib/optimization/rules/selection_rules.py:311-345 | converting a join with only one of the columns in its scope leaves no row at all |
| QueryMeaning.CombineAnswer | Query_Optimizer/lib/optimization/rules/selection_rules.py:260-345 | one rewrite, wherever the equality was found, filters the answer by it, leaves it alone, or empties it, as the converted join has both columns or is the top, neither, or one |
| QueryMeaning.IteratedAnswer | Query_Optimizer/lib/optimization/optimizer.py:31-71 | the answer after any number of iterations, from the scopes of the joins converted |
| QueryMeaning.OptimizerKeepsAnswerIff | Query_Optimizer/lib/optimization/optimizer.py:31-71 | all iterations keep the answer, row for row in order, exactly if either a converted join below the top has just one column and there was no answer, or none has and the equality holds on all rows or no converted join demands it |
| QueryMeaning.DemandedKeepsAnswerIff | Query_Optimizer/lib/optimization/optimizer.py:31-71 | for an equality the WHERE demands: exactly if no converted join below the top has just one column, or there was no answer |
| QueryMeaning.OnKeepsAnswerIff | Query_Optimizer/lib/optimization/rules/selection_rules.py:311-345 | the same for an equality found in the ON condition of a join |
| QueryMeaning.OnConditionEmpties | Query_Optimizer/lib/optimization/rules/selection_rules.py:311-345 | FROM a, b JOIN c ON b.x = c.x: the condition is put on the cross join of a and b, and a row is lost |
| QueryMeaning.OrConditionLoses | Query_Optimizer/lib/optimization/rules/selection_rules.py:311-345 | an equality under OR is taken for a join condition, and a row is lost |

## Left out

- Index keys are integers: the tree only compares them, and any finite set of texts has an order-preserving numbering. UTF-8 and float packing are taken as given pairs of inverses.
- Identifiers of transactions are integers, also where the program compares them as texts.
- Rows carry an integer primary key and one integer for all other columns in the buffer and recovery modules; composite keys, whose values one of the merges compares in dictionary order and the other in schema order, are not modelled.
- Tables without any disk file: writes and recovery require the table to exist, as the save would otherwise raise.
- RecoveryEngine.RecoveryEngine.Recover: says what is under a key whose row is last taken out of the buffer only if the buffer has room for every row the log mentions, because an eviction in between flushes rows that the removal then uncovers.
- RecoveryEngine.RecoveryEngine.AbortTransaction: the same, for keys the transaction inserted first.
- FailureRecovery.RunAndRecover: the same.
- BufferPool.Merge: says nothing of the order of the merged rows, of which those only in the buffer come in the order of a dictionary.
- BufferManager.SaveTable: the same.
- QueryMeaning.OptimizerKeepsAnswerIff: speaks of queries whose columns exist and whose comparisons do not raise a type error; natural joins, the projection, ORDER BY and LIMIT are not part of the plans.
- QueryOrder.QualifiedAt: takes column names to be in lower case already, as schemas save them.
- The plan is a value: that the condition found becomes a node shared by two parents is not modelled, and nothing changes it afterwards.
- Distribution, projection and join rules and the other selection rules: they look for node types the SELECT parser never builds.
- The test that skips holders not younger than the requester when wounding: a requester that does not wait is older than every holder, so it never skips one.
- The iteration order of sets and dictionaries is left open.
- File access, JSON, time stamps of log entries, sockets, threads, sleeping and retries; each public call is one step.
- The validation-based strategy, statistics, cost estimates, DDL by regular expression, sessions, foreign-key checks, index maintenance on update, mock storage.
