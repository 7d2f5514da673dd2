# Verified model of a teaching storage engine

This project models the hard parts of a small relational storage engine in Dafny and proves what they are for:
the B+ tree index, the lock manager, the extendible hash table, the LRU replacer and the buffer pool built on them,
the slotted table page with the table heap and transaction rollback, the reader-writer latch, the log record codec and
the overflow-checked integer arithmetic. `dafny verify dfyconfig.toml` checks everything.

How the parts are laid out:

- **B+ tree.** `BTreeNodes` (page contents), `BTreeShape` (the invariant), `BTreeGrow`, `BTreeShrink`, `BTreeBorrow`,
  `BTreeSteps` (what each page operation does to a whole tree), `BTreeSearch` (search, leaf chain, the misfiling borrow),
  `BPlusTree` (the index object) and `BTreePageArrays` (the page operations on their arrays). Pages are a map from page id to
  node, so parent ids, separators and next links are real state. The invariant is stated page by page with a ghost fence per
  page: the key interval it is responsible for, and its level.
- **Lock manager.** `LockProtocol` (state and atomic steps), `LockSafety`, `LockTheorems`, `LockSerial`, `LockUncontested`,
  `LockProgress`, `LockHistory` (theorems about runs), `LockUpgrade`, `LockDeadlock` (runs in which they fail),
  `LockManager` (the object whose critical sections are the steps).
- **Extendible hash.** `PowersOfTwo`, `HashDirectory`, `HashRewrite`, `ExtendibleHash`.
- **Buffer pool.** `LruReplacer`, `BufferPool` (the pool as a value), `BufferContents` and `BufferPins` (what page holders see
  over whole runs, what pins count and what is evicted), `BufferPoolManager` (the object, using the hash table and the
  replacer through their contracts).
- **Table page and rollback.** `ByteCodec`, `SlottedPage`, `SlottedUpdate` (tiling), `TablePage` (the byte buffer),
  `HeapCells`, `PageUndo`, `Rollback` (the write set and its undo), `Revival`, `NearPage`, `AbortRun` (aborts in which marks
  come off early or undos are refused), `CommitDeletes`, `TableHeap`.
- **Log.** `LogCodec`, `LogBuffer`.
- **Latch** and **integers.** `ReaderWriterLatch`, `IntegerArithmetic`.
- `Config` holds the shared constants.

Places where the code does not do what it is meant to do are modelled as the code is, with the exact condition under which
the intended property holds:

- A leaf that borrows from its right neighbour makes the moved key its own separator, so that key is lost to search
  (`BPlusTree.Remove`: search agrees with the map if and only if the removal does not borrow from the right).
- `LockUpgrade` does not count the request it makes exclusive and can be overtaken while it sleeps. The counter law states by
  how much `exclusive_cnt` is off. `CycleExactly` states when the conflict graph has a cycle, both ways, and `Progress` holds
  in every run in which no shared request slips in behind an older exclusive one, which `WaitDieEnterExact` shows to be the
  exact step that breaks wait-die. Two concrete runs show a cycle and a deadlock.
- `UpdateTuple` does not move marked tuples. `UpdateExact` states when the page survives, both ways.
- An UPDATE log record writes the new tuple four bytes early. `RecordRoundTrip` states when it is still read back, and
  `AppendThenScan` when a whole log is, both ways.
- `TableHeap::MarkDelete` records a delete whatever it finds. `DeleteUndoExact` and `CommitExact` state when undoing it and
  committing it are right, both ways.
- Undoing a shrinking update needs room that a directory grown in between may have taken, and the abort loop does not look.
  `AbortExact` states when an abort trips an assertion, when every undo goes through and when the table is restored, each
  both ways, and that a refused undo never damages a page.
- The latch sends one notification per drop from the maximal reader count. `NobodyOversleeps` states for how many threads
  that is enough, both ways.
- `DeletePage` answers false even when it deletes, contrary to its comment.

## Model

| member | source | states |
|---|---|---|
| `BPlusTreeIndex.BPlusTree.FindLeafPage` | project/src/index/b_plus_tree.cpp:677-762 | the descent ends in the leaf whose fence contains the key, or in the leftmost leaf |
| `BPlusTreeIndex.BPlusTree.GetValue` | project/src/index/b_plus_tree.cpp:46-73 | a point query returns exactly what the separators lead to; in a valid tree that is the map: found iff the key is in it, with its value |
| `BPlusTreeIndex.BPlusTree.StartNewTree` | project/src/index/b_plus_tree.cpp:110-126 | an empty tree becomes a one-leaf tree holding the pair |
| `BPlusTreeIndex.BPlusTree.Insert` | project/src/index/b_plus_tree.cpp:86-101 | keeps the whole tree invariant; false iff the key was present and then nothing changes; otherwise the map gains exactly the pair; nothing above any insert-safe page of the search path changes |
| `BPlusTreeIndex.BPlusTree.InsertIntoLeaf` | project/src/index/b_plus_tree.cpp:137-185 | the leaf part of an insertion: duplicate check, in-place insert, or split and upward linking |
| `BPlusTreeIndex.BPlusTree.SplitLeafPage` | project/src/index/b_plus_tree.cpp:195-208 | a full leaf that takes one more pair splits in two, chained and fenced, awaiting its parent entry |
| `BPlusTreeIndex.BPlusTree.InsertIntoParent` | project/src/index/b_plus_tree.cpp:220-331 | links the new page into its parent, splitting upwards to any height, and restores the full invariant; pages above an insert-safe ancestor keep every byte |
| `BPlusTreeIndex.BPlusTree.SplitParent` | project/src/index/b_plus_tree.cpp:264-327 | an internal page that is full splits with the new entry in it, and the parent ids of the moved children follow |
| `BPlusTreeIndex.BPlusTree.GrowRoot` | project/src/index/b_plus_tree.cpp:223-246 | a split root gets a new root above it |
| `BPlusTreeIndex.SplitEntries` | project/src/index/b_plus_tree.cpp:275-306 | the temporary copy and its two halves are the parent entries with the new child inserted behind the old one |
| `BPlusTreeIndex.BPlusTree.Remove` | project/src/index/b_plus_tree.cpp:344-370 | removes exactly the key from the map and from the leaf chain; the tree is valid again, and search agrees with the map, if and only if the removal does not borrow from a right leaf; nothing above any remove-safe page of the path changes |
| `BPlusTreeIndex.BPlusTree.CoalesceOrRedistributeLeaf` | project/src/index/b_plus_tree.cpp:381-472 | an underfull leaf is merged, refilled or left alone; size limits hold again; the tree stays valid unless it borrows from the right |
| `BPlusTreeIndex.BPlusTree.CoalesceOrRedistributeInternal` | project/src/index/b_plus_tree.cpp:381-472 | the same for internal pages, recursively to the root; always ends in a valid tree |
| `BPlusTreeIndex.BPlusTree.CoalesceLeaf` | project/src/index/b_plus_tree.cpp:488-503 | two leaves become one: chain, separators and contents stay consistent |
| `BPlusTreeIndex.BPlusTree.CoalesceInternal` | project/src/index/b_plus_tree.cpp:488-503 | two internal pages become one around the separator pulled down from the parent |
| `BPlusTreeIndex.BPlusTree.RedistributeInternal` | project/src/index/b_plus_tree.cpp:516-534 | one child moves between neighbours through the parent separator; shape and every leaf are kept |
| `BPlusTreeIndex.BPlusTree.RedistributeLeaf` | project/src/index/b_plus_tree.cpp:516-534 | borrowing from the left keeps the tree valid; borrowing from the right always leaves one key misfiled |
| `BPlusTreeIndex.BPlusTree.BorrowLeafFromLeft` | project/src/page/b_plus_tree_leaf_page.cpp:308-340 | the last pair of the left leaf moves over and its key becomes the separator: still a search tree |
| `BPlusTreeIndex.BPlusTree.BorrowLeafFromRight` | project/src/page/b_plus_tree_leaf_page.cpp:269-293 | the first pair of the right leaf moves over and its own key becomes the separator (line 289), so search no longer finds it |
| `BPlusTreeIndex.BPlusTree.AdjustRoot` | project/src/index/b_plus_tree.cpp:547-581 | an empty root leaf empties the tree; a root with one child hands over to it |
| `BPlusTreeIndex.BPlusTree.ValidAgrees` | project/src/index/b_plus_tree.cpp:46-73 | in a valid tree the search result equals the map on every key |
| `BPlusTreeIndex.BPlusTree.ChainIsMap` | project/src/index/b_plus_tree.cpp:592-597 | walking the next-page links from the leftmost leaf lists exactly the map in strictly ascending key order |
| `BPlusTreeIndex.BPlusTree.InsertFromFile` | project/src/index/b_plus_tree.cpp:844-856 | any run of insertions keeps the invariant; the result is the map built by first-insert-wins |
| `BTreeSearch.SearchIsMap` | project/src/index/b_plus_tree.cpp:46-73 | well-formed shape and leaf contents imply that search finds exactly the pairs of the map |
| `BTreeSearch.ChainLists` | project/src/page/b_plus_tree_leaf_page.cpp:145-155 | from any leaf the chain lists, in ascending order, exactly the pairs from that leaf's lower fence on |
| `BTreeSearch.BorrowRightFinds` | project/src/page/b_plus_tree_leaf_page.cpp:269-293 | after the right borrow exactly one key is lost to search and every other key is found as before |
| `BTreeSearch.BorrowRightExample` | project/src/page/b_plus_tree_leaf_page.cpp:289-289 | a concrete well-formed tree and key whose removal takes that borrow |
| `BTreeGrow.SplitInternalShape` | project/src/page/b_plus_tree_internal_page.cpp:183-203 | cutting an internal page keeps ordering, depth, fences and the parent ids of the moved children |
| `BTreeGrow.SplitLeafShape` | project/src/page/b_plus_tree_leaf_page.cpp:145-155 | cutting a leaf keeps the shape, with the right half awaiting a parent |
| `BTreeGrow.LinkChildShape` | project/src/page/b_plus_tree_internal_page.cpp:162-174 | inserting the separator and child after the split page makes the tree whole again |
| `BTreeGrow.NewRootShape` | project/src/page/b_plus_tree_internal_page.cpp:146-154 | a populated new root over two halves is a well-formed tree one level higher |
| `BTreeShrink.MergeLeafOk` | project/src/page/b_plus_tree_leaf_page.cpp:244-259 | merging a leaf into its left neighbour keeps shape, chain and contents |
| `BTreeShrink.MergeInternalShape` | project/src/page/b_plus_tree_internal_page.cpp:255-302 | merging internal neighbours keeps shape and leaves every leaf alone |
| `BTreeShrink.DropRootShape` | project/src/index/b_plus_tree.cpp:562-580 | dropping a one-child root leaves a well-formed tree |
| `BTreeBorrow.RebalanceInternalShape` | project/src/page/b_plus_tree_internal_page.cpp:312-411 | any redistribution of entries between internal neighbours through the separator keeps the shape |
| `BTreeBorrow.BorrowLastIs` | project/src/page/b_plus_tree_internal_page.cpp:365-411 | moving the last child right is that redistribution |
| `BTreeBorrow.BorrowFirstIs` | project/src/page/b_plus_tree_internal_page.cpp:312-358 | moving the first child left is that redistribution |
| `BTreeShape.UniqueAtLevel` | project/src/index/b_plus_tree.cpp:677-762 | at each level only one page is responsible for a key |
| `BTreeShape.ChildWithin` | project/src/page/b_plus_tree_internal_page.cpp:112-134 | the child chosen for a key is fenced around it: K(i) <= K < K(i+1) |
| `BTreePageArrays.LeafPage.Place` | project/src/page/b_plus_tree_leaf_page.cpp:110-131 | the binary search yields the position of the first key not below the new one |
| `BTreePageArrays.LeafPage.Insert` | project/src/page/b_plus_tree_leaf_page.cpp:106-136 | shifting in place equals the sorted insertion of the pair |
| `BTreePageArrays.LeafPage.Search` | project/src/page/b_plus_tree_leaf_page.cpp:177-198 | the binary search finds the key or proves it absent |
| `BTreePageArrays.LeafPage.Lookup` | project/src/page/b_plus_tree_leaf_page.cpp:177-198 | found iff the key is present, with its value |
| `BTreePageArrays.LeafPage.RemoveAndDeleteRecord` | project/src/page/b_plus_tree_leaf_page.cpp:210-234 | in-place removal equals dropping exactly the pair with that key, if any |
| `BTreePageArrays.LeafPage.MoveHalfTo` | project/src/page/b_plus_tree_leaf_page.cpp:145-166 | donor and recipient together hold the old pairs in order; the recipient gets the upper half |
| `BTreePageArrays.LeafPage.MoveAllTo` | project/src/page/b_plus_tree_leaf_page.cpp:244-259 | the recipient holds its pairs followed by the donor's and takes over its next link |
| `BTreePageArrays.LeafPage.MoveFirstToEndOf` | project/src/page/b_plus_tree_leaf_page.cpp:269-301 | the first pair leaves the front of one page for the end of the other, and its key becomes the separator of its old page in the parent (line 289) |
| `BTreePageArrays.LeafPage.MoveLastToFrontOf` | project/src/page/b_plus_tree_leaf_page.cpp:308-340 | the last pair leaves the end of one page for the front of the other, and its key becomes the separator at the given parent index |
| `BTreePageArrays.InternalPage.Lookup` | project/src/page/b_plus_tree_internal_page.cpp:112-134 | the binary search returns the child responsible for the key |
| `BTreePageArrays.InternalPage.InsertNodeAfter` | project/src/page/b_plus_tree_internal_page.cpp:162-174 | the backward shift inserts the new entry just behind the old child |
| `BTreePageArrays.InternalPage.Remove` | project/src/page/b_plus_tree_internal_page.cpp:226-233 | closes the gap of one entry |
| `BTreePageArrays.InternalPage.MoveHalfTo` | project/src/page/b_plus_tree_internal_page.cpp:183-215 | donor and recipient together hold the old entries; the recipient gets the larger half |
| `BTreePageArrays.InternalPage.MoveAllTo` | project/src/page/b_plus_tree_internal_page.cpp:255-302 | the recipient ends with the donor's entries, the parent separator as the first key |
| `BTreePageArrays.InternalPage.MoveFirstToEndOf` | project/src/page/b_plus_tree_internal_page.cpp:312-358 | first child moves left under the separator; the following key goes up |
| `BTreePageArrays.InternalPage.MoveLastToFrontOf` | project/src/page/b_plus_tree_internal_page.cpp:365-411 | last child moves right; the separator comes down behind it and the last key goes up |
| `LockSafety.StepKeeps` | project/src/concurrency/lock_manager.cpp:10-194 | every step, upgrades included, keeps the lock-table invariant |
| `LockSafety.RunKeeps` | project/src/concurrency/lock_manager.cpp:10-194 | the invariant holds in every state of every run |
| `LockTheorems.GrantsInEveryState` | project/src/concurrency/lock_manager.cpp:37-59 | in every reachable state granted requests form a prefix of each queue and a granted exclusive request is the head and the only one granted |
| `LockTheorems.NoLostWakeup` | project/src/concurrency/lock_manager.cpp:175-191 | a step that turns another waiter's condition from false to true issues notify_all, upgrades included |
| `LockTheorems.NotifyExactly` | project/src/concurrency/lock_manager.cpp:57-191 | an Unlock notifies iff it is accepted and took away the head of the queue, a grant iff it is shared, no other step does |
| `LockHistory.StateIs` | project/src/concurrency/lock_manager.cpp:157-172 | in every run a transaction is growing, shrinking, committed or aborted exactly according to the steps it has made: finished, turned away, unlocked too early, unlocked |
| `LockHistory.UnlockExactly` | project/src/concurrency/lock_manager.cpp:157-194 | over runs: under strict two-phase locking an Unlock is accepted iff its transaction has committed or aborted by then, otherwise always; refused it changes no queue, accepted it takes exactly the transaction's request out of that queue |
| `LockHistory.LockSets` | project/src/concurrency/lock_manager.cpp:53-154 | over runs: a record is in the exclusive set iff an exclusive lock on it was granted, in the shared set iff a shared one was and none has been granted exclusively since |
| `LockHistory.HeldIsListed` | project/src/concurrency/lock_manager.cpp:53-154 | every lock held is in the lock set of its mode |
| `LockHistory.ReleasesEverything` | project/src/concurrency/transaction_manager.cpp:52-62 | unlocking the records of the lock sets, in any order, as Commit and Abort do, leaves no request of the transaction in any queue |
| `LockHistory.OldestIs` | project/src/concurrency/lock_manager.cpp:19-33 | oldest is the smallest id that has ever joined the queue, even after that transaction has left |
| `LockHistory.TurnedAwayExactly` | project/src/concurrency/lock_manager.cpp:10-33 | over runs: a lock call returns false iff its transaction has ended, or an older one has ever joined the queue and the call is exclusive or exclusive_cnt is not zero |
| `LockHistory.UpgradeExactly` | project/src/concurrency/lock_manager.cpp:127-132 | an upgrade is accepted iff the transaction is not aborted and every older transaction in the queue stands behind an exclusive request |
| `LockSerial.TwoPhase` | project/src/concurrency/lock_manager.cpp:157-172 | after its first release a transaction is granted nothing more |
| `LockSerial.LockPointOrder` | project/src/concurrency/lock_manager.cpp:10-155 | in every run, upgrades included, in which no sleeping upgrader is overtaken, conflicting locks are granted in the order of last grants |
| `LockSerial.Serializable` | project/src/concurrency/lock_manager.cpp:10-155 | in such runs lock points grow along every path of the conflict graph, so it has no cycle |
| `LockSerial.CycleExactly` | project/src/concurrency/lock_manager.cpp:101-155 | the exact condition: the conflict graph of a run has a cycle iff some transaction is granted its upgrade after another was granted an exclusive lock on the same record while it slept |
| `LockSerial.ClaimStep` | project/src/concurrency/lock_manager.cpp:134-194 | a lock, even while it is being upgraded, is given up only by the owner's own accepted Unlock |
| `LockUncontested.UncontestedSerializable` | project/src/concurrency/lock_manager.cpp:101-155 | a condition on the upgrade calls alone: if no accepted upgrade meets another sleeping upgrader on its record, the run is serializable |
| `LockUncontested.AlwaysSharedAhead` | project/src/concurrency/lock_manager.cpp:109-139 | then everything ahead of a sleeping upgrader is shared |
| `LockSerial.NoConflictHeld` | project/src/concurrency/lock_manager.cpp:37-97 | two transactions never hold conflicting locks on a record at once |
| `LockProgress.ExclusiveCountLaw` | project/src/concurrency/lock_manager.cpp:134-139 | modulo size_t, exclusive_cnt is the number of queued exclusive requests minus the upgrades ever made on the record |
| `LockProgress.CountExact` | project/src/concurrency/lock_manager.cpp:86-86 | without upgrades exclusive_cnt is exactly the number of queued exclusive requests |
| `LockProgress.WaitDieAlways` | project/src/concurrency/lock_manager.cpp:19-139 | in every run, upgrades included, in which no shared request slips in behind an older exclusive one, oldest bounds every queued id and a conflicting later request is always older |
| `LockProgress.NextBlocker` | project/src/concurrency/lock_manager.cpp:37-51 | a sleeper that cannot move is blocked by a younger transaction or by one that can move |
| `LockProgress.Progress` | project/src/concurrency/lock_manager.cpp:19-139 | in every state of such a run, following blockers reaches a transaction that can move: no deadlock |
| `LockProgress.WaitDieEnterExact` | project/src/concurrency/lock_manager.cpp:23-33 | a lock request keeps wait-die iff it is not a shared one admitted behind an exclusive request of an older transaction |
| `LockProgress.WaitDieUpgrade` | project/src/concurrency/lock_manager.cpp:127-139 | an upgrade keeps wait-die |
| `LockProgress.NoUpgradeNoneSlipsIn` | project/src/concurrency/lock_manager.cpp:24-28 | without upgrades nothing slips in |
| `LockDeadlock.OneUpgradeDeadlocks` | project/src/concurrency/lock_manager.cpp:24-28 | a run of ten steps with one uncontested upgrade after which two transactions sleep behind each other and neither can move |
| `LockUpgrade.UpgradeBreaksOrder` | project/src/concurrency/lock_manager.cpp:134-154 | a run of twelve steps in which a sleeping upgrader is overtaken by another: they conflict both ways and the counter wraps below zero |
| `LockManagerObject.LockManager.WaitPredicate` | project/src/concurrency/lock_manager.cpp:37-51 | the loop over the queue decides the wait condition |
| `LockManagerObject.LockManager.EnterLock` | project/src/concurrency/lock_manager.cpp:10-33 | the code before the wait is the enqueue step, dying and aborted callers included |
| `LockManagerObject.LockManager.GrantLock` | project/src/concurrency/lock_manager.cpp:53-59 | the code after the wait is the grant step, whose lock sets `LockSets` describes, and notifies exactly when the step does |
| `LockManagerObject.LockManager.EnterUpgrade` | project/src/concurrency/lock_manager.cpp:101-139 | the upgrade move and its wait-die loop are the upgrade step |
| `LockManagerObject.LockManager.FindSourceAndTarget` | project/src/concurrency/lock_manager.cpp:112-125 | the scan finds the own request and the first exclusive one from it on |
| `LockManagerObject.LockManager.Unlock` | project/src/concurrency/lock_manager.cpp:157-194 | false iff locking is strict and the transaction neither committed nor aborted; the release loop is the unlock step and notifies exactly when the step does |
| `ExtendibleHashTable.ExtendibleHash.Find` | project/src/hash/extendible_hash.cpp:73-85 | answers as the plain map does |
| `ExtendibleHashTable.ExtendibleHash.Remove` | project/src/hash/extendible_hash.cpp:92-103 | removes exactly the key; true iff it was present; all invariants and the pair count kept |
| `ExtendibleHashTable.ExtendibleHash.Insert` | project/src/hash/extendible_hash.cpp:156-242 | the map gains or replaces exactly the pair; directory, buckets, sizes and both counts stay exact, as long as no more keys share their low 30 bits than fit one bucket |
| `ExtendibleHashTable.ExtendibleHash.EnsureBucket` | project/src/hash/extendible_hash.cpp:161-164 | a null slot gets a new empty bucket owning its class; every other slot and every bucket stay as they were |
| `ExtendibleHashTable.ExtendibleHash.PutIntoBucket` | project/src/hash/extendible_hash.cpp:165-175 | the pair goes into the bucket of its class, which may be one over |
| `ExtendibleHashTable.ExtendibleHash.SplitBucket` | project/src/hash/extendible_hash.cpp:178-238 | an overfull bucket is split and the directory rewritten so that everything fits again |
| `ExtendibleHashTable.Split` | project/src/hash/extendible_hash.cpp:108-139 | the loop ends with two non-empty buckets that share out the items by the first bit in which their hashes differ |
| `ExtendibleHashTable.Deepen` | project/src/hash/extendible_hash.cpp:112-137 | one round extends the prefix by a bit and parts the keys, or hands all of them over |
| `ExtendibleHashTable.RewriteDirectory` | project/src/hash/extendible_hash.cpp:191-238 | either branch yields a directory of the right length whose every slot leads to the bucket of its class |
| `ExtendibleHashTable.SplitKeeps` | project/src/hash/extendible_hash.cpp:178-238 | splitting keeps the whole table invariant and adds one bucket |
| `HashRewrite.RewriteInPlace` | project/src/hash/extendible_hash.cpp:220-237 | the in-place strides put the two halves at exactly their congruence classes |
| `HashRewrite.RewriteLarger` | project/src/hash/extendible_hash.cpp:192-219 | the grown directory repeats every old slot and places the two halves |
| `HashDirectory.KeyBucket` | project/src/hash/extendible_hash.cpp:146-148 | a key can only be in the bucket its low bits select |
| `HashDirectory.TargetOk` | project/src/hash/extendible_hash.cpp:178-238 | the rewritten directory gives each bucket exactly the indices of its class |
| `LruReplacer.LRUReplacer.Insert` | project/src/buffer/lru_replacer.cpp:21-45 | list and table stay linked and in step; the value becomes the most recent member |
| `LruReplacer.LRUReplacer.Victim` | project/src/buffer/lru_replacer.cpp:50-72 | takes the least recent member, or reports an empty list |
| `LruReplacer.LRUReplacer.Erase` | project/src/buffer/lru_replacer.cpp:78-101 | takes out exactly the value, the rest in order; true iff it was a member |
| `LruReplacer.LRUReplacer.Check` | project/src/buffer/lru_replacer.cpp:109-117 | the debug walk's assertions hold in every valid state |
| `LruReplacer.LRUReplacer.ContentsFacts` | project/src/buffer/lru_replacer.cpp:21-101 | members are distinct, counted by size and are exactly the table's keys |
| `LruReplacer.RunOrdered` | project/src/buffer/lru_replacer.cpp:21-101 | after any run the members stand in the order of their latest Insert |
| `LruReplacer.VictimIsOldest` | project/src/buffer/lru_replacer.cpp:50-72 | the next victim is the member whose latest Insert is oldest |
| `LruReplacer.StaysUntilTaken` | project/src/buffer/lru_replacer.cpp:21-101 | a value is a member iff nothing has erased or chosen it since its latest Insert |
| `BufferPoolManagerObject.BufferPoolManager.FetchPage` | project/src/buffer/buffer_pool_manager.cpp:59-105 | is the fetch of the value model; a resident page gets one pin more; null iff the page is absent and every frame pinned |
| `BufferPoolManagerObject.BufferPoolManager.NewPage` | project/src/buffer/buffer_pool_manager.cpp:184-223 | next id, a zeroed frame pinned once; null iff every frame is pinned |
| `BufferPoolManagerObject.BufferPoolManager.UnpinPage` | project/src/buffer/buffer_pool_manager.cpp:113-131 | is the unpin of the value model: false iff absent or not pinned |
| `BufferPoolManagerObject.BufferPoolManager.FlushPage` | project/src/buffer/buffer_pool_manager.cpp:139-149 | writes the page out, leaves the dirty flag, false iff absent |
| `BufferPoolManagerObject.BufferPoolManager.DeletePage` | project/src/buffer/buffer_pool_manager.cpp:159-174 | the frame of an unpinned resident page leaves table and replacer for the free list, a pinned page stays as it is; answers false in every case |
| `BufferPoolManagerObject.BufferPoolManager.ReadIn` | project/src/buffer/buffer_pool_manager.cpp:81-104 | the taken frame is unpinned, written back if dirty, then filled from disk |
| `BufferPoolManagerObject.BufferPoolManager.BeginPage` | project/src/buffer/buffer_pool_manager.cpp:197-222 | the taken frame is unpinned, written back if dirty, then zeroed for the new id |
| `BufferPoolManagerObject.PageIdsUncrowded` | project/src/hash/extendible_hash.cpp:32-34 | at most two non-negative 32-bit page ids share their low 30 bits, so they never drive the page table into overflow |
| `BufferPool.TakeFacts` | project/src/buffer/buffer_pool_manager.cpp:71-81 | the frame taken has pin count 0; none is to be had iff all are pinned; a free frame comes before a resident page, and of those the head of the replacer |
| `BufferPool.FetchOk` | project/src/buffer/buffer_pool_manager.cpp:59-105 | keeps every frame in exactly one place and the page table a bijection; null iff absent and all pinned |
| `BufferPool.NewOk` | project/src/buffer/buffer_pool_manager.cpp:184-223 | the same for a new page, whose id was in no frame |
| `BufferPool.UnpinOk` | project/src/buffer/buffer_pool_manager.cpp:113-131 | accepted iff pinned; takes one pin, keeps or sets the mark, and the last one moves the frame to the end of the replacer; nothing else changes |
| `BufferPool.DeleteOk` | project/src/buffer/buffer_pool_manager.cpp:159-174 | an unpinned resident page leaves the table and the replacer, its frame goes to the end of the free list, and every other page keeps its frame, bytes and place; any other delete changes nothing |
| `BufferPool.WritePage` | project/src/disk/disk_manager.cpp:67-80 | writes one page, filling any gap, and touches no other page of the file |
| `BufferContents.StepKept` | project/src/buffer/buffer_pool_manager.cpp:59-223 | every step keeps the pool in possession of a carefully handled page's last bytes |
| `BufferContents.FetchReturnsLastWritten` | project/src/buffer/buffer_pool_manager.cpp:59-223 | after any run in which no last holder lets page p go clean with changes neither unpinned dirty nor flushed, a successful fetch of p returns the bytes last written to it |
| `BufferContents.CarelessUnpinLoses` | project/src/buffer/buffer_pool_manager.cpp:113-131 | letting a changed page go clean loses the change: a four-step run on any full pool |
| `BufferPins.PinsAreHolders` | project/src/buffer/buffer_pool_manager.cpp:64-126 | over every run from a started pool: the pin count of a page is its successful fetches and creations less its accepted unpins |
| `BufferPins.UnpinExactly` | project/src/buffer/buffer_pool_manager.cpp:113-131 | an unpin is accepted iff that number is positive |
| `BufferPins.FetchExactly` | project/src/buffer/buffer_pool_manager.cpp:59-81 | a fetch fails iff the page is absent and every frame holds a page with a holder |
| `BufferPins.HeldStays` | project/src/buffer/buffer_pool_manager.cpp:59-223 | while a page has a holder it stays in its frame |
| `BufferPins.Leaves` | project/src/buffer/buffer_pool_manager.cpp:59-223 | a page leaves the pool iff it is deleted with no holder, or a frame is taken while none is free and it heads the replacer; otherwise it keeps its frame and its bytes |
| `BufferPins.ComesIn` | project/src/buffer/buffer_pool_manager.cpp:59-223 | a page comes in only by a fetch of it or as the page created |
| `BufferPins.DirtyExactly` | project/src/buffer/buffer_pool_manager.cpp:113-131 | over runs: a page is dirty iff a holder has let it go dirty since it came in |
| `BufferPins.DiskStep` | project/src/buffer/buffer_pool_manager.cpp:82-149 | on disk exactly the flushed page and the evicted dirty page change, and they get the bytes of their frames |
| `BufferPins.FetchBytes` | project/src/disk/disk_manager.cpp:85-103 | a page read in has its bytes on disk, zeros at the end of the file, and beyond it what the frame held |
| `BufferPins.EvictsLongestIdle` | project/src/buffer/buffer_pool_manager.cpp:71-78 | over runs: the page whose frame is taken has been without a holder longer than any other page that has none |
| `SlottedPage.InsertOk` | project/src/page/table_page.cpp:53-102 | an insert fills a slot that was empty, keeps the tiling, disturbs no other slot |
| `SlottedPage.InsertRefused` | project/src/page/table_page.cpp:57-80 | an insert is refused iff the room is short of the bytes, or of the bytes and eight more when no slot is empty; otherwise it takes the first empty slot |
| `SlottedPage.FlipOk` | project/src/page/table_page.cpp:156-159 | turning a size's sign keeps tiling and all bytes |
| `SlottedPage.FirstEmpty` | project/src/page/table_page.cpp:61-74 | the first empty slot, or the slot count |
| `SlottedUpdate.UpdateExact` | project/src/page/table_page.cpp:162-233 | an update that goes through returns the old bytes, and keeps the tiling iff the length is unchanged or no marked tuple lies at a lower offset; then it stores the new bytes and disturbs no other slot |
| `SlottedUpdate.ShrinkBreaks` | project/src/page/table_page.cpp:225-231 | shrinking above a marked tuple always breaks the tiling |
| `SlottedUpdate.GrowBreaks` | project/src/page/table_page.cpp:225-231 | growing above a marked tuple always breaks the tiling |
| `SlottedUpdate.MarkedBelowExample` | project/src/page/table_page.cpp:228-228 | a page reached by two inserts and a mark on which an update breaks |
| `SlottedUpdate.ApplyDeleteOk` | project/src/page/table_page.cpp:240-285 | removal empties the slot, closes the gap, keeps the tiling and every other slot, marked ones included |
| `TablePageBytes.TablePage.Init` | project/src/page/table_page.cpp:13-28 | the buffer stores an empty page |
| `TablePageBytes.TablePage.FindEmptySlot` | project/src/page/table_page.cpp:61-74 | the slot scan over the stored directory |
| `TablePageBytes.TablePage.InsertTuple` | project/src/page/table_page.cpp:53-102 | on the bytes, the insert of the value model; the first 16 bytes stay |
| `TablePageBytes.TablePage.MarkDelete` | project/src/page/table_page.cpp:110-160 | on the bytes, the mark of the value model |
| `TablePageBytes.TablePage.UpdateTuple` | project/src/page/table_page.cpp:162-233 | on the bytes, the update of the value model: memmove, new bytes, offset fix-up loop |
| `TablePageBytes.TablePage.ApplyDelete` | project/src/page/table_page.cpp:240-285 | on the bytes, the removal of the value model |
| `TablePageBytes.TablePage.RollbackDelete` | project/src/page/table_page.cpp:293-323 | on the bytes, the unmark of the value model |
| `TablePageBytes.TablePage.GetTuple` | project/src/page/table_page.cpp:325-359 | returns the stored bytes of a live tuple; an empty slot and a tuple marked as deleted are not found |
| `HeapCells.GetFindsLive` | project/src/page/table_page.cpp:325-359 | a read finds bytes iff the slot holds them live |
| `HeapCells.GetAfterInsert` | project/src/page/table_page.cpp:53-102 | an inserted tuple is read back and every other slot reads as before |
| `HeapCells.GetAfterUpdate` | project/src/page/table_page.cpp:162-233 | a safely updated tuple is read back, the old one was, and every other slot reads as before |
| `HeapCells.GetAfterMark` | project/src/page/table_page.cpp:110-160 | a marked tuple is not found, and is again, with its bytes, once the mark is turned back |
| `HeapCells.GetAfterRemove` | project/src/page/table_page.cpp:240-285 | a removed tuple is not found and every other slot reads as before |
| `TablePageBytes.TablePage.ShiftOffsets` | project/src/page/table_page.cpp:225-231 | the fix-up loop shifts exactly the live slots below |
| `TablePageBytes.TablePage.CloseOffsets` | project/src/page/table_page.cpp:279-284 | the fix-up loop shifts exactly the used slots below |
| `TablePageBytes.StoresOne` | project/src/page/table_page.cpp:391-420 | a buffer stores at most one page |
| `TablePageBytes.CompactParts` | project/src/page/table_page.cpp:214-224 | memmove, pointer update and copy leave the spliced tuple area |
| `TableHeapObject.TableHeap.InsertTuple` | project/src/table/table_heap.cpp:36-84 | oversized tuples are rejected and abort; others land in the first page of the chain with room, in a slot that was empty, with one insert record |
| `TableHeapObject.TableHeap.FindRoom` | project/src/table/table_heap.cpp:50-79 | the walk ends at the first page with room, adding one page when there is none, and changes no other page |
| `TableHeapObject.TableHeap.MarkDelete` | project/src/table/table_heap.cpp:86-100 | marks a live tuple; records a delete and answers true whatever it finds |
| `TableHeapObject.TableHeap.UpdateTuple` | project/src/table/table_heap.cpp:102-119 | goes through iff the tuple is live and there is room; the table stays valid iff the update is safe; the old tuple is recorded iff updated and not aborted |
| `TableHeapObject.TableHeap.UndoOne` | project/src/concurrency/transaction_manager.cpp:68-79 | the undo of one record while aborted leaves no record of its own; false exactly if the update back was refused |
| `TableHeapObject.Abort` | project/src/concurrency/transaction_manager.cpp:63-82 | for any write set of inserts, deletes whatever they found and safe updates of any length: gets through iff every recorded delete names a slot its page has; every undo goes through iff for each shrinking update the room before it pays for the directory entries appended to its page later; the table holds what it held at Begin iff no deleted tuple was marked at Begin and no tuple's first update was refused; with every undo through it is the same byte for byte, but for empty slots and pages |
| `AbortRun.AbortExact` | project/src/concurrency/transaction_manager.cpp:63-82 | over every run of writes, the outcome of the abort loop: when it trips, when every undo goes through, exactly which tuples come out different, and that every table on the way is well formed even after a refused undo |
| `AbortRun.RollingStep` | project/src/concurrency/transaction_manager.cpp:66-80 | one turn of the loop on a table in which earlier undos may have been refused: it trips iff it undoes a delete whose slot is missing, and keeps the table well formed and near the one before the write |
| `NearPage.NearUpdate` | project/src/page/table_page.cpp:162-233 | on a page where some tuples have lost their bytes, the update back either goes through safely and restores its tuple or is refused and costs that tuple alone |
| `NearPage.NearInsert` | project/src/page/table_page.cpp:240-285 | on such a page the removal undoes the insert |
| `NearPage.NearMark` | project/src/page/table_page.cpp:293-323 | on such a page the unmarking undoes the delete, whatever it found |
| `Revival.RevivedUpdate` | project/src/page/table_page.cpp:206-229 | a safe update does not depend on which tuples are marked |
| `TableHeapObject.WriteOne` | project/src/table/table_heap.cpp:36-119 | an applicable write goes through and leaves exactly one record that undo can reverse, or changes nothing |
| `TableHeapObject.RunAndAbort` | project/src/concurrency/transaction_manager.cpp:63-82 | any list of such writes followed by Abort, with the same exact conditions |
| `Rollback.MarkedStays` | project/src/page/table_page.cpp:110-160 | a tuple that was marked when the transaction began stays marked, byte for byte, whatever the transaction writes |
| `TableHeapObject.Commit` | project/src/concurrency/transaction_manager.cpp:24-37 | the apply-delete loop gets through iff the recorded deletes are of slots that are not empty, each recorded once; then it empties exactly those slots |
| `Rollback.UndoRestores` | project/src/concurrency/transaction_manager.cpp:68-79 | undoing the last write, on any table like the one after it and with room, gives a table like the one before it, also when later undos have unmarked tuples early |
| `Rollback.DeleteUndoExact` | project/src/table/table_heap.cpp:95-98 | the undo of a recorded delete runs through and is right iff the slot exists and was not already marked |
| `Rollback.UndoPageRestores` | project/src/page/table_page.cpp:162-233 | page by page: the undo of an update goes through iff there is room for the old tuple, and every undo that goes through gives back the page before |
| `Rollback.RoomForUndo` | project/src/page/table_page.cpp:180-183 | there is room for the undo of an update iff the room before it, if it shrinks, covers eight bytes for each entry appended since |
| `Rollback.ShrinkThenInsertExample` | project/src/page/table_page.cpp:180-183 | a page on which the undo of a shrinking update does not go through, because an insert has grown the directory |
| `PageUndo.UndoUpdate` | project/src/page/table_page.cpp:162-233 | a safe update is undone by the update back, byte for byte, exactly if there is room |
| `PageUndo.UndoEmptied` | project/src/page/table_page.cpp:173-179 | an update to an empty tuple cannot be undone |
| `PageUndo.UndoInsert` | project/src/page/table_page.cpp:240-285 | an insert is undone by the removal, byte for byte |
| `CommitDeletes.CommitExact` | project/src/page/table_page.cpp:240-285 | the value of the commit loop: it trips no assertion iff the recorded deletes are of slots that are not empty, each recorded once; then exactly those slots are emptied |
| `CommitDeletes.DeletedTwice` | project/src/page/table_page.cpp:273-273 | deleting a live tuple twice and committing trips the assertion |
| `CommitDeletes.CommitOfLiveDeletes` | project/src/concurrency/transaction_manager.cpp:24-37 | if every delete was of a live tuple, commit gets through and changes no live tuple |
| `CommitDeletes.StaysTidy` | project/src/page/table_page.cpp:276-278 | empty slots keep offset 0 through every page operation, an update to an empty tuple excepted |
| `CommitDeletes.StaysMarked` | project/src/page/table_page.cpp:110-126 | a tuple the transaction deleted stays marked and untouched to the end |
| `HeapCells.UpdateCell` | project/src/page/table_page.cpp:162-233 | what an update does to the slots' contents, per outcome |
| `HeapCells.MarkCell` | project/src/page/table_page.cpp:110-160 | marking turns a live tuple into a marked one and leaves other slots; true iff the slot exists and is not marked |
| `LogCodec.RecordRoundTrip` | project/src/logging/log_manager.cpp:114-161 | a written record is read back with its size iff it is not an update or the overlap (line 151) destroys nothing; its header and size are read back in any case |
| `LogCodec.UpdateBack` | project/src/logging/log_manager.cpp:146-152 | an update comes back iff the last four bytes of the serialized old tuple spell the new length |
| `LogCodec.OverlapExample` | project/src/logging/log_manager.cpp:151-151 | a concrete update that does not come back |
| `LogCodec.TupleLayout` | project/src/logging/log_manager.cpp:128-145 | a record with one tuple: size, record id, length and bytes at their offsets |
| `LogCodec.UpdateLayout` | project/src/logging/log_manager.cpp:146-152 | an update: the size counts both tuples in full, the second begins four bytes early |
| `LogCodec.TupleBack` | project/src/table/tuple.cpp:123-137 | a tuple is read back iff its serialized form is what is stored |
| `LogCodec.ZerosStop` | project/src/logging/log_recovery.cpp:24-27 | zero bytes hold no record |
| `LogBuffer.LogManager.AppendLogRecord` | project/src/logging/log_manager.cpp:114-161 | next LSN, record written at the end, earlier records untouched |
| `LogBuffer.LogManager.WriteUpdate` | project/src/logging/log_manager.cpp:146-152 | the second tuple overwrites the last four bytes of the first |
| `LogBuffer.Scan` | project/src/logging/log_recovery.cpp:82-94 | the scan finds the headers of the appended records in order and the bodies that survive, maps each LSN to its offset, knows the open transactions, and halts early only on a record that does not survive |
| `LogBuffer.AppendThenScan` | project/src/logging/log_recovery.cpp:82-86 | any list of records that fits with one header to spare comes back in order with consecutive LSNs iff the overlap destroys none of them; each LSN found leads to its offset |
| `LogBuffer.ActiveMeans` | project/src/logging/log_recovery.cpp:88-93 | a transaction is in the table iff its latest record does not end it, with that record's LSN |
| `ByteCodec.IntRoundTrip` | project/src/page/table_page.cpp:392-406 | a 32-bit integer survives its four bytes |
| `ReaderWriterLatch.StepInv` | project/src/include/common/rwmutex.h:28-60 | every critical section keeps the latch invariant |
| `ReaderWriterLatch.EveryRun` | project/src/include/common/rwmutex.h:28-60 | for any number of threads every reachable state is safe: one writer at most holds or drains, the count is exact, a writer inside excludes readers; with at most 2^32 threads, one more than the count can hold, nobody sleeps through its event |
| `ReaderWriterLatch.NobodyOversleeps` | project/src/include/common/rwmutex.h:43-60 | no run of n threads leaves a thread asleep through its event if and only if n is at most 2^32 |
| `ReaderWriterLatch.Overfill` | project/src/include/common/rwmutex.h:50-60 | with 2^32 + 1 threads or more, filling the latch, two more readers and one release leave the second of them asleep |
| `ReaderWriterLatch.WakesForEvent` | project/src/include/common/rwmutex.h:37-60 | a step wakes another thread only for the event it waits for |
| `ReaderWriterLatch.NoNewReader` | project/src/include/common/rwmutex.h:43-48 | no thread starts reading once a writer has entered |
| `ReaderWriterLatch.SomeoneMoves` | project/src/include/common/rwmutex.h:28-60 | if a thread waits, some thread can leave or look again |
| `ReaderWriterLatch.RWMutex.WLock` | project/src/include/common/rwmutex.h:28-35 | is the step of the protocol and keeps its invariants; a caller that gets inside is alone there, any other sleeps |
| `ReaderWriterLatch.RWMutex.LookAgain` | project/src/include/common/rwmutex.h:30-46 | the same for a thread that wakes up in one of the three loops |
| `ReaderWriterLatch.RWMutex.WUnlock` | project/src/include/common/rwmutex.h:37-41 | is the step; nobody is left asleep on the readers' condition variable |
| `ReaderWriterLatch.RWMutex.RLock` | project/src/include/common/rwmutex.h:43-48 | is the step; a caller that gets inside meets no writer, any other sleeps |
| `ReaderWriterLatch.RWMutex.RUnlock` | project/src/include/common/rwmutex.h:50-60 | is the step; when the last reader leaves no draining writer is left asleep |
| `IntegerArithmetic.AddExact` | project/src/include/type/integer_parent_type.h:81-103 | throws iff the true sum does not fit the wider type, otherwise returns it |
| `IntegerArithmetic.SubtractExact` | project/src/include/type/integer_parent_type.h:105-127 | the same for differences |
| `IntegerArithmetic.MultiplyExact` | project/src/include/type/integer_parent_type.h:129-151 | the same for products |
| `IntegerArithmetic.QuotientTest` | project/src/include/type/integer_parent_type.h:141-148 | prod / y == x holds for no wrapped product |
| `IntegerArithmetic.ResultCanBeNull` | project/src/include/type/integer_parent_type.h:129-151 | a true result equal to the minimum comes back as NULL |

## Left out

- SQLite shell and extension API, the virtual table layer, schema and type dispatch, casts, decimals and string formatting: glue or many easy members.
- Disk I/O: the database file is a sequence of pages and page allocation a counter; partial pages, stream errors and 32-bit file offsets are not modelled. In particular a short read at the end of the file leaves the stream failed, after which later writes are lost.
- Log flushing: the flush thread, its promises and timeouts, the buffer swap of a full log buffer, and every durability claim.
- Recovery beyond the scan loop of Redo: Undo passes size and offset in swapped order and Redo does not initialise later pages, so the intended claim is not true of the code.
- Write-ahead ordering in the buffer pool: the wait for the log before writing back a dirty page, and `FlushPage`, which does not wait at all.
- B+ tree concurrency: latches, pins, the root mutex and thread interleavings; what remains of latch crabbing is that nothing above a safe page changes.
- B+ tree page deletion: a merged page leaves the map of pages when it is merged, not when the page set is unlocked; out-of-memory exceptions from the buffer pool are not modelled.
- B+ tree keys: integers under their usual order stand for keys under a total-order comparator; values are integers.
- Header page: agreement of its record with the current root, which fails silently when an emptied tree is restarted.
- Index and table iterators, `TableHeap::begin`, `GetFirstTupleRid` and `GetNextTupleRid`: little beyond the leaf-chain order.
- ExtendibleHashTable.ExtendibleHash.Insert: requires that no more keys share the low 30 bits of their hashes than fit one bucket; page ids satisfy this. Beyond 30 bits the code shifts an int into or past its sign bit before it can reach the overflow branch, which C++ leaves undefined.
- ExtendibleHashTable.Split: requires two keys that differ in the low 30 bits, for the same reason.
- ExtendibleHashTable.Deepen: the iteration over a bucket's items is one comprehension per bit, so its order is not modelled.
- BTreePageArrays.InternalPage.MoveHalfTo: the parent ids of the moved children are written at the tree level (`BTreeGrow.SplitInternal`), not here.
- BTreePageArrays.InternalPage.MoveAllTo: the parent ids of the moved children are written at the tree level (`BTreeShrink.MergeInternal`), not here.
- BTreePageArrays.InternalPage.MoveFirstToEndOf: the parent id of the moved child and the parent's separator are written at the tree level (`BTreeBorrow.BorrowFirst`), not here.
- BTreePageArrays.InternalPage.MoveLastToFrontOf: the parent id of the moved child and the parent's separator are written at the tree level (`BTreeBorrow.BorrowLast`), not here.
- BufferPoolManagerObject.BufferPoolManager.FetchPage: requires an allocated page id; negative ids and ids never handed out are not modelled.
- BufferPoolManagerObject.BufferPoolManager.NewPage: requires that fewer than 2^31 pages have been allocated.
- TableHeapObject.TableHeap.InsertTuple: pages are values rather than buffer-pool frames, and a full buffer pool, for which the code aborts the transaction or dereferences null, is not modelled.
- TableHeapObject.Abort: an update to an empty tuple and an update that breaks its page are outside its write sets; `PageUndo.UndoEmptied` and `SlottedUpdate.UpdateExact` say what they do.
- TableHeapObject.Commit: the exact condition is for pages whose empty slots have offset 0, which every operation but an update to an empty tuple keeps; lock release and the wait for the log are not modelled; one table per transaction.
- TablePageBytes.TablePage.InsertTuple: logging and locking inside the page operations, which run only when logging is enabled, are not modelled.
- LogBuffer.LogManager.AppendLogRecord: requires that the record fits the buffer; the swap that otherwise happens is left out.
- LogBuffer.Scan: one load of the log buffer; the outer loop over a longer log file, which can cut a record at a buffer boundary, and the replay on pages are left out.
- LockManagerObject.LockManager.EnterUpgrade: requires that the queue holds at most one request per transaction, as lock_manager.h demands of callers.
- IntegerArithmetic.MultiplyExact: signed overflow, undefined in C++, is taken as two's-complement wrap-around; division and modulo are left out as easy.
