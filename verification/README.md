# A verified model of the block cache and the radix trees

This project models two layers of the repository and proves that they fit together.

**Radix trees.** `base/data-struct/radix-tree-adaptive.c` keeps byte strings in a tree of seven shapes (a value, a value
with something below it, a chain of bytes, and nodes of 4, 16, 48 and 256 slots), all changed in place.
`base/data-struct/radix-tree-simple.c` offers the same interface as a ternary tree. Each is modelled twice: as a pure tree
with the source's branches, and as a class over linked nodes and arrays whose methods are proved to compute the pure
tree. Both are proved to be maps from byte strings to values, and so to give equal answers to any sequence of calls;
the one kind of insertion for which the adaptive tree is not a map is characterised by an if-and-only-if, and
`RadixAgreement.TreesDisagree` shows a run where it tells.

**Block cache.** `io/io-manager.c` is a write-back cache over asynchronous I/O. Class `IoManager` has its lists, its index,
its counters and, in each block, the dirty bits, reference count, request count and error flag. The engine is
nondeterministic: a wait finishes any non-empty set of requests, each well or badly, and a failed write may leave anything in
its sectors; whether it may fail at all is a parameter. The ghost field `logical` is what clients have stored, and `Valid()`
says, among other things, that cache and disk together always hold it. Every public call keeps `Valid()`, except where it is
said below, and only the updating calls change `logical`.
`io/io-manager-utils.c` reads and updates ranges of bytes on top of it; `CacheRuns.Serve` runs any sequence of calls and
`CacheRuns.ReadsBack`, `CacheRuns.IsDurable` and `CacheRuns.FailsExhausted` say what a client may rely on in every such run.

**The two together.** The index is a map in class `IoManager`. `BlockIndex` is that map kept in the linked adaptive tree, under
twelve-byte keys, with the walk over a device and its removal by the four-byte prefix. `IoManager` changes its map in three
places (`BlockInsert`, `BlockRemove`, `Prune`); `IndexedCache` shows for each that the tree's call, and the device table's
counting through the tree's destructor, keep all three in agreement.

**Smaller parts.** The device table with its reference counts (`DeviceTable`), the intrusive lists (`IntrusiveList`), the
batching job runner (`JobProcessor`) and the quoting of strings in place (`Quoting`). Over a cache, the job runner gives each
task the bytes that have been stored on its device (`JobProcessor.IoProcessor.Exec`).

| file | what it is |
|---|---|
| `Bytes.dfy` | bytes, keys, sequences without duplicates |
| `AdaptiveTree.dfy`, `NodeLemmas.dfy` | the pure adaptive tree, and what the operations on one node mean |
| `AdaptiveOps.dfy`, `AdaptiveProofs.dfy`, `AdaptiveEntries.dfy`, `AdaptiveMap.dfy`, `AdaptiveOrder.dfy` | its operations, that they are a map's, and the order of iteration |
| `AdaptiveHeap.dfy`, `AdaptiveGrow.dfy`, `AdaptiveShrink.dfy`, `AdaptiveInsert.dfy`, `Callbacks.dfy`, `AdaptiveRadix.dfy` | the linked structure, and class `RadixTree` |
| `SimpleTree.dfy`, `SimpleHeap.dfy`, `RadixAgreement.dfy` | the ternary tree, pure and linked, and the agreement of the two trees |
| `CacheState.dfy`, `BlockLists.dfy`, `BlockCache.dfy` | blocks, lists and class `IoManager` |
| `BlockKeys.dfy`, `BlockIndex.dfy`, `IndexedCache.dfy` | the keys of the index, the index in the tree, and cache, tree and device table together |
| `ByteRanges.dfy`, `ByteIo.dfy`, `CacheRuns.dfy` | flat addresses, reads and updates, and whole runs |
| `Departures.dfy` | runs from a new cache that end in the surprising ways listed below |
| `DeviceTable.dfy`, `IntrusiveList.dfy`, `JobProcessor.dfy`, `Quoting.dfy` | the smaller parts |

`dafny verify dfyconfig.toml` checks everything.

Where the code departs from what it says of itself, the model follows the code:

- Inserting over a key that a longer stored key extends stacks a second value (`AdaptiveProofs.InsertTheorem`).
- Iteration is in the lexicographic order that base/data-struct/radix-tree.h:45-47 promises if and only if in every node the
  bytes of the slots ascend, which nodes of 4, 16 and 48 slots do not see to (`AdaptiveOrder.IterationOrder`,
  `AdaptiveOrder.IterationUnordered`).
- Zeroing part of a block follows the dirty bits and not the mask (`BlockCache.IoManager.ZeroBlock`, `CacheState.ZeroedBeyond`).
- Zeroing part of a block that is not cached does not read the rest: the client is given what was in the buffer, and the cache
  stays `Valid()` if and only if that happens to be what is stored (`BlockCache.IoManager.GetBlockMask`,
  `Departures.ZeroExposes`). The byte calls only ever zero whole blocks.
- An update of no bytes that starts inside a sector makes that sector dirty (`ByteRanges.TouchedIs`,
  `ByteIo.Updater.PartialFn`).
- Getting a block that is not cached waits for ever when there is no free block, there are clean ones but all are held, nothing
  is pending, and every dirty block is held (`BlockCache.IoManager.Jammed`, `Departures.GetHangs`). This outcome is `Hung`.
- While a failed write of a block waits to be repeated, a whole-block update of it is refused and zeroes it all the same; no
  other failure changes anything (`BlockCache.IoManager.GetBlockMask`, `ByteIo.Ends`, `Departures.WriteZeroes`).
- A flush waits for ever if and only if a failed prefetch has left a block on the errored list: that block is issued as a write of
  no sectors, and then it is pending with no request under way (`BlockCache.IoManager.IssueWrite`, `BlockCache.IoManager.WaitAll`,
  `BlockCache.IoManager.Flush`, `Departures.FlushHangs`).
- A flush takes held dirty blocks off their list without writing them: the cache is `Valid()` after a flush that returns if and
  only if there was none (`BlockCache.IoManager.Flush`, `Departures.FlushForgets`).
- Writing a block again while a write of it is under way and has failed in part forgets the failure; nothing is promised of its
  contents after that, if and only if the disk lacks what that part should have written (`BlockCache.IoManager.IssueWrite`).
  So invalidating a device can succeed and lose what was stored, in exactly the blocks that are in that state before the call
  (`BlockCache.IoManager.InvalidateDev`, `Departures.DropForgets`).
- Invalidating a device drops it from the index also when some of its blocks could not be freed: with nothing to write, that is
  so exactly when a block has an error or is held; with something to write, it depends on whether the writes work
  (`BlockCache.IoManager.InvalidateDev`, `Departures.DropLeavesBlock`). It writes a dirty block also while somebody holds it.
- Reopening a path loses two holders and a descriptor if and only if neither the old nor the new access is exclusive, the path
  opens, and it names another device than it did (`DeviceTable.Table.UpgradeDev`, `Departures.ReopenLeaks`).

## Model

| member | source | states |
|---|---|---|
| `NodeLemmas.SetChildMeaning` | base/data-struct/radix-tree-adaptive.c:523-562 | Replacing the child that a byte already has changes that byte's child and no other's, in all four node shapes, and keeps the node well formed. |
| `NodeLemmas.AddChildMeaning` | base/data-struct/radix-tree-adaptive.c:316-430 | Adding a child for a new byte, with growth 4 to 16 to 48 to 256 when the node is full, gives that byte the child, leaves every other byte's child alone, and keeps occupancy, distinct bytes and the index bijection. |
| `NodeLemmas.DropChildMeaning` | base/data-struct/radix-tree-adaptive.c:565-640 | Dropping a byte's child, with degradation 256 to 48 to 16 to 4 at the thresholds, removes that child only and leaves a well formed node, or nothing when it was the last. |
| `NodeLemmas.DegradeTo16Meaning` | base/data-struct/radix-tree-adaptive.c:580-600 | The 16-slot node built from a 48-slot one has the same child for every byte. |
| `NodeLemmas.DegradeTo48Meaning` | base/data-struct/radix-tree-adaptive.c:602-625 | The 48-slot node built from a 256-slot one has the same child for every byte. |
| `AdaptiveProofs.LookupIsGet` | base/data-struct/radix-tree-adaptive.c:493-556 | Prefix lookup, when it consumes the key and stops at a value, finds exactly the value the tree means for that key. |
| `AdaptiveProofs.LookupStops` | base/data-struct/radix-tree-adaptive.c:493-556 | Prefix lookup stops only at a place where the blind append, or the split of a chain, is safe: an empty slot, a value, a chain the key leaves, or a node without the byte. |
| `AdaptiveProofs.InsertMeaning` | base/data-struct/radix-tree-adaptive.c:433-486 | In every shape the insertion branches produce a well formed tree in which the key has the new value and every other key the value it had, unless the key is restacked. |
| `AdaptiveProofs.InsertTheorem` | base/data-struct/radix-tree-adaptive.c:441-562 | The result of an insertion is a well formed tree if and only if the key was not both present and properly extended by another stored key; otherwise a second chain is stacked. |
| `AdaptiveEntries.RemoveMeaning` | base/data-struct/radix-tree-adaptive.c:642-776 | Removal takes away exactly the given key, keeps the tree well formed and reports the value it dropped. |
| `AdaptiveEntries.RemoveNothing` | base/data-struct/radix-tree-adaptive.c:642-776 | Removing an absent key changes nothing and drops nothing. |
| `AdaptiveEntries.EntriesMeaning` | base/data-struct/radix-tree-adaptive.c:971-1028 | Walking a well formed tree lists every stored pair once and nothing else. |
| `AdaptiveMap.InsertIsUpdate` | base/data-struct/radix-tree-adaptive.c:558-562 | On the map the tree stands for, insertion is update and the entry count follows, exactly when the key is not overwritten below a longer stored key. |
| `AdaptiveMap.RemoveIsDelete` | base/data-struct/radix-tree-adaptive.c:642-786 | On the map, removal is deletion of one key; it says whether the key was there and the count follows. |
| `AdaptiveMap.LookupIsSelect` | base/data-struct/radix-tree-adaptive.c:946-968 | Lookup is selection from the map. |
| `AdaptiveMap.RemoveSubtreeIsDelete` | base/data-struct/radix-tree-adaptive.c:808-942 | Removing a prefix deletes exactly the keys with that prefix, also when it ends inside a chain; the values dropped are theirs, each once, and their number is the count. |
| `AdaptiveMap.UnderExact` | base/data-struct/radix-tree-adaptive.c:790-806 | The pairs below a prefix, as the walk lists them, are exactly the stored pairs whose key has it, without repetition. |
| `AdaptiveMap.IterateIsUnder` | base/data-struct/radix-tree-adaptive.c:790-1036 | Starting the walk where prefix lookup stops, with the remainder matched against a chain, covers the pairs below the prefix. |
| `AdaptiveOrder.IterationOrder` | base/data-struct/radix-tree-adaptive.c:971-1028 | The walk lists the pairs in the lexicographic order of their keys if and only if in every node the bytes of the slots in use ascend. |
| `AdaptiveOrder.IterationUnordered` | base/data-struct/radix-tree.h:45-47 | After inserting the keys 2 and 1, in that order, iteration is not in the order that is promised. |
| `AdaptiveHeap.FindSlot` | base/data-struct/radix-tree-adaptive.c:523-553 | The loop or table of each node shape finds the slot of a byte exactly when the node has one. |
| `AdaptiveGrow.AddSlot` | base/data-struct/radix-tree-adaptive.c:316-430 | The in-place append, or the copy into the next larger node, leaves the heap holding the tree with that child added. |
| `AdaptiveShrink.EraseElt` | base/data-struct/radix-tree-adaptive.c:628-640 | Shifting the elements after an index down by one, in place, gives the array without that element, with a zero in the slot that falls free; erasing the last element writes nothing. |
| `AdaptiveShrink.DegradeToN4` | base/data-struct/radix-tree-adaptive.c:565-578 | A new 4-slot node holds the keys and children of the 16-slot one, in order. |
| `AdaptiveShrink.DegradeToN16` | base/data-struct/radix-tree-adaptive.c:580-600 | A new 16-slot node holds the children of the 48-slot one, in the order of their bytes. |
| `AdaptiveShrink.DegradeToN48` | base/data-struct/radix-tree-adaptive.c:602-625 | A new 48-slot node and its index hold the children of the 256-slot one. |
| `AdaptiveShrink.DropSlot` | base/data-struct/radix-tree-adaptive.c:702-773 | Erasing a slot in place, and degrading at the threshold, leaves the heap holding the tree without that child. |
| `AdaptiveInsert.InsertAt` | base/data-struct/radix-tree-adaptive.c:183-314 | What the insertion functions do at the place where lookup stopped, on the heap: a new chain and value, a value turned into a chain, a node, or a chain split in up to three. |
| `AdaptiveInsert.SplitChain` | base/data-struct/radix-tree-adaptive.c:251-314 | Splitting a prefix chain in place, for all positions of the first difference, leaves the heap holding the tree that the split means. |
| `AdaptiveRadix.InsertFrom` | base/data-struct/radix-tree-adaptive.c:433-562 | The descent and insertion on the heap yield the tree of the pure insertion, touching only the nodes of this tree and new ones. |
| `AdaptiveRadix.RemoveFrom` | base/data-struct/radix-tree-adaptive.c:642-776 | Removal on the heap yields the tree of the pure removal and calls the destructor once when a value goes. |
| `AdaptiveRadix.RemoveSubtreeFrom` | base/data-struct/radix-tree-adaptive.c:808-932 | Prefix removal on the heap yields the pruned tree, calls the destructor on each dropped value once and counts them. |
| `AdaptiveRadix.FreeNode` | base/data-struct/radix-tree-adaptive.c:106-168 | Freeing a subtree calls the destructor once on every value in it and counts them. |
| `AdaptiveRadix.IterateFrom` | base/data-struct/radix-tree-adaptive.c:971-1028 | The walk shows the visitor the values in slot order, each once, and stops at its first refusal. |
| `AdaptiveRadix.RadixTree.Size` | base/data-struct/radix-tree-adaptive.c:176-179 | The kept count is the number of keys. |
| `AdaptiveRadix.RadixTree.Lookup` | base/data-struct/radix-tree-adaptive.c:946-968 | Returns what the map has under the key. |
| `AdaptiveRadix.RadixTree.Insert` | base/data-struct/radix-tree-adaptive.c:558-562 | Map update; and in the one bad case, an overwrite below a longer key, the tree is no longer well formed although the count has grown. |
| `AdaptiveRadix.RadixTree.Remove` | base/data-struct/radix-tree-adaptive.c:778-786 | Map deletion; the answer says whether the key was there; the destructor sees the value exactly then. |
| `AdaptiveRadix.RadixTree.RemovePrefix` | base/data-struct/radix-tree-adaptive.c:934-942 | Deletes exactly the keys with the prefix, answers their number, and gives each removed value to the destructor once. |
| `AdaptiveRadix.RadixTree.Destroy` | base/data-struct/radix-tree-adaptive.c:170-174 | Gives every stored value to the destructor once. |
| `AdaptiveRadix.RadixTree.Iterate` | base/data-struct/radix-tree-adaptive.c:1030-1036 | Shows the visitor the values stored under a prefix, each once, up to its first refusal; in the order of the keys when the slots of every node are in the order of their bytes, and all of them only then. |
| `SimpleTree.SInsertIsUpdate` | base/data-struct/radix-tree-simple.c:125-157 | Insertion is map update whatever byte the node made for an exhausted key carries, and whether or not longer keys are stored. |
| `SimpleTree.SRemoveIsDelete` | base/data-struct/radix-tree-simple.c:159-183 | Removal is deletion of one key. |
| `SimpleTree.SRemovePrefixIsDelete` | base/data-struct/radix-tree-simple.c:185-198 | Prefix removal deletes exactly the keys with the prefix and drops their values, each once. |
| `SimpleHeap.InsertFrom` | base/data-struct/radix-tree-simple.c:125-152 | The descent through node pointers, on the heap, yields the tree of the pure insertion. |
| `SimpleHeap.RemoveFrom` | base/data-struct/radix-tree-simple.c:159-183 | Removal on the heap, unlinking nodes that became empty, yields the tree of the pure removal. |
| `SimpleHeap.PruneFrom` | base/data-struct/radix-tree-simple.c:185-198 | Prefix removal on the heap yields the pruned tree and the count. |
| `SimpleHeap.DestroyTree` | base/data-struct/radix-tree-simple.c:58-78 | Destroying a tree gives every value to the destructor once and counts them. |
| `SimpleHeap.CountValues` | base/data-struct/radix-tree-simple.c:86-101 | The recursive count is the number of stored keys. |
| `SimpleHeap.SimpleRadix.Lookup` | base/data-struct/radix-tree-simple.c:108-123 | Returns what the map has under the key. |
| `SimpleHeap.SimpleRadix.Insert` | base/data-struct/radix-tree-simple.c:154-157 | Map update, for every key. |
| `SimpleHeap.SimpleRadix.Remove` | base/data-struct/radix-tree-simple.c:159-183 | Map deletion, with the answer and the destructor call. |
| `SimpleHeap.SimpleRadix.RemovePrefix` | base/data-struct/radix-tree-simple.c:185-198 | Deletes exactly the keys with the prefix, counts them, and gives each value to the destructor once. |
| `RadixAgreement.TreesAgree` | base/data-struct/radix-tree.c:15-19 | The two implementations that this file chooses between give equal answers to every sequence of insert, lookup, remove, size and prefix removal in which no insertion overwrites a key below a longer one, whatever the uninitialised bytes. |
| `RadixAgreement.TreesDisagree` | base/data-struct/radix-tree.c:15-19 | Without that condition they do not: after a key, a longer one and the first again have been inserted, one counts three entries and the other two. |
| `BlockKeys.KeyOfIsInjective` | io/io-manager.c:1080-1088 | The twelve bytes of a block key determine device and block number. |
| `BlockKeys.PackedIsUnpacked` | io/io-manager.c:1080-1088 | The bytes of a number, least significant first, give the number back. |
| `BlockKeys.DevPrefix` | io/io-manager.c:1933-1938 | The first four bytes, used as a prefix, match exactly the keys of that device. |
| `BlockKeys.LookupIsIndexed` | io/io-manager.c:1090-1103 | Looking a block up in the tree is looking its name up in the index. |
| `BlockKeys.NeverOverlaps` | io/io-manager.c:1105-1115 | Block keys never meet the case in which tree insertion goes wrong. |
| `BlockKeys.InsertIsIndexed` | io/io-manager.c:1105-1115 | Inserting the key in the tree's map is inserting the block in the index. |
| `BlockKeys.RemoveIsIndexed` | io/io-manager.c:1117-1125 | Removing the key from the tree's map is removing that one block from the index. |
| `BlockKeys.PruneIsIndexed` | io/io-manager.c:1933-1951 | Removing a device's prefix from the tree's map removes exactly that device from the index. |
| `BlockIndex.BlockIndex.Lookup` | io/io-manager.c:1090-1103 | The linked tree, asked with the packed key, gives what the index has under the name. |
| `BlockIndex.BlockIndex.Insert` | io/io-manager.c:1105-1115 | The linked tree holds the index with that block added; the case in which insertion goes wrong never arises. |
| `BlockIndex.BlockIndex.Remove` | io/io-manager.c:1117-1125 | The linked tree holds the index without that block, and the destructor is given the block exactly when it was there. |
| `BlockIndex.BlockIndex.RemoveDevice` | io/io-manager.c:1948-1949 | The linked tree holds the index without the device, and the destructor is given each of the device's blocks once. |
| `BlockIndex.BlockIndex.Iterate` | io/io-manager.c:1936-1947 | The walk below the device's four bytes shows the visitor exactly the device's blocks, each once, until it answers false. |
| `IndexedCache.IndexedCache.BlockLookup` | io/io-manager.c:1090-1103 | The block that the tree gives is the one that the cache's map has. |
| `IndexedCache.IndexedCache.BlockInsert` | io/io-manager.c:1419-1424 | Inserting a block into the tree, counting it for its device and changing the cache's map keep tree, table and map in agreement. |
| `IndexedCache.IndexedCache.BlockRemove` | io/io-manager.c:1117-1125 | So does removing a block, which the tree gives to the destructor once and the table counts down. |
| `IndexedCache.IndexedCache.Prune` | io/io-manager.c:1948-1951 | So does removing a device: exactly its blocks leave all three, each through the destructor once, and its block count is nought. |
| `CacheState.RunListIsUnique` | io/io-manager.c:1265-1285 | Being ordered, disjoint, not adjacent, and covering exactly the set bits determines the runs of a partial write. |
| `CacheState.ZeroedIsUnique` | io/io-manager.c:1433-1462 | The zeroing loop clears one set of sectors: the mask, and whatever run of dirty sectors leaves it. |
| `CacheState.ZeroedIsMask` | io/io-manager.c:1433-1462 | The sectors that the zeroing loop clears are the mask if and only if no dirty sector outside the mask directly follows one inside it. |
| `CacheState.ZeroedBeyond` | io/io-manager.c:1433-1462 | It can be more than was asked for: with the first of two sectors asked for and the second dirty, both are cleared. |
| `BlockCache.IoManager.Create` | io/io-manager.c:1588-1657 | Refuses exactly the impossible sizes; otherwise every block is free and the cache shows what the disks hold. |
| `BlockCache.IoManager.Conservation` | io/io-manager.c:1163-1246 | Between calls every block is on exactly one of the five lists. |
| `BlockCache.IoManager.Counters` | io/io-manager.c:1157-1246 | The index names exactly the blocks that are not free, each under its own key; pending list, pending flag and request count agree; and the two counters are the true numbers. |
| `BlockCache.IoManager.Exclusion` | io/io-manager.c:1206-1217 | A held block has no request under way, no sector has two requests, and only dirty sectors are written. |
| `BlockCache.IoManager.Transfer` | io/io-manager.c:314-405 | What a finished request has done: a good write put the buffer's sectors on the disk, a bad one may have left anything in them, a good read filled the buffer; nothing else has changed. |
| `BlockCache.IoManager.CompleteIo` | io/io-manager.c:1219-1246 | Keeps the invariant; errors accumulate; only the last completion moves the block: with every run good the dirty bits go and it is clean, with one run bad it is errored and keeps every dirty bit, in any order of completion. |
| `BlockCache.IoManager.CompleteOne` | io/io-manager.c:1219-1246 | One finished request, good or bad, of any pending block keeps the whole cache invariant; a bad one leaves the error. |
| `BlockCache.IoManager.IssueSectors` | io/io-manager.c:1248-1258 | One request more is with the engine and counted. |
| `BlockCache.IoManager.IssuePartialWrite` | io/io-manager.c:1265-1285 | The requests, in the order in which they are issued, are the maximal runs of dirty sectors from the first to the last. |
| `BlockCache.IoManager.Issue` | io/io-manager.c:1294-1313 | A block at rest becomes pending with requests that cover its dirty sectors, run after run, and stays coherent; with no dirty sectors to write it has no request; a pending one is left alone. |
| `BlockCache.IoManager.IssueWrite` | io/io-manager.c:1320-1324 | Any block is on its way to the disk, also one whose last write failed, one with nothing to write, which then has no request, and a held one; its dirty bits stay. A pending one only forgets its error. Nothing is promised of its contents after that if and only if it was held, or some of what is not with the engine is not on the disk. |
| `BlockCache.IoManager.WaitIo` | io/io-manager.c:1326-1329 | At least one request finishes, and if and only if there is none it never returns; nothing that has been stored changes, and no block without a request changes. |
| `BlockCache.IoManager.WaitAll` | io/io-manager.c:1335-1339 | Ends with nothing pending and stored contents unchanged; it never returns if and only if a pending block was issued as a write of no sectors, and then such blocks are all that is left. |
| `BlockCache.IoManager.WaitSpecific` | io/io-manager.c:1341-1345 | Ends, with this block at rest. |
| `BlockCache.IoManager.Writeback` | io/io-manager.c:1347-1364 | Starts writing at most count dirty blocks, none of them held, and these are the first on the list: a walk over the list leaves the held ones and makes the others pending, all in order. Fewer only when all that is left is held, and none when all of them are; disk and contents unchanged. |
| `BlockCache.IoManager.FindUnusedCleanBlock` | io/io-manager.c:1370-1383 | Gives up the first clean block that nobody holds, and only that, if and only if there is one; nothing that is stored is lost. |
| `BlockCache.IoManager.MakeRoom` | io/io-manager.c:1396-1404 | When every clean block is held: waits for a request, having started sixteen writes, or as many as can be, if there is none; it waits for ever if and only if nothing is pending and every dirty block is held. |
| `BlockCache.IoManager.NewBlock` | io/io-manager.c:1385-1428 | A block under the new key, or a refusal, which leaves everything as it was. When a block is free, or clean and not held, it takes the first free one, or else the clean one that has gone unused for longest, and nothing else leaves the index or its list. It is refused when there is neither a free nor a clean one; and hangs when there are clean ones, all held, with nothing pending and every dirty one held, and only in such a state. |
| `BlockCache.IoManager.Link` | io/io-manager.c:1189-1198 | The block goes to the end of the clean list if it has nothing to write, and of the dirty list otherwise. |
| `BlockCache.IoManager.Hit` | io/io-manager.c:1464-1474 | A block that is used leaves its place for the end of the list it belongs on; the others keep their order. |
| `BlockCache.IoManager.ZeroBlock` | io/io-manager.c:1433-1462 | Clears at least the mask, and exactly the mask if and only if no run of dirty sectors leaves it; the rest keeps its bytes. |
| `BlockCache.IoManager.LookupOrReadBlock` | io/io-manager.c:1484-1537 | The one block of the key, with no request under way, listed by its dirty bits, with the error it was stored with or that of its read; refuses to write a held block; a hit at rest always succeeds and touches nothing else; an uncached block is always had when one is free, or clean and not held, and is not read when a part of it is to be zeroed; refused and hanging states as for a new block. |
| `BlockCache.IoManager.RecycleBlock` | io/io-manager.c:1750-1755 | A block with nothing to save leaves the index and is free. |
| `BlockCache.IoManager.GetBlockMask` | io/io-manager.c:1765-1797 | The block holds the stored contents; a writer holds it alone, not through a read-only handle; zeroing is the only change to the contents, in the mask and the dirty runs that leave it. Zeroing a part of an uncached block leaves the rest of the buffer as it was, and that is the only case in which the block may not hold the stored contents. A failed zeroing get zeroes the block if and only if the handle may write and a write of the block has failed and not been repeated; such a block at rest is always refused. A refusal has one of the reasons listed, and hanging is characterised before and after the call; a block at rest without error, and an uncached one when one is free or clean and not held, is always obtained. No sector becomes dirty but those of the mask. The block is last on its list after it; a miss that need not wait takes the place of the least recently used clean block, and no other block leaves the cache. |
| `BlockCache.IoManager.PutBlock` | io/io-manager.c:1807-1825 | One reference less; contents, dirty bits and the other holders' blocks unchanged. |
| `BlockCache.IoManager.NotDirtyIsOnDisk` | io/io-manager.c:1219-1246 | A byte whose sector is not dirty is on the disk as it has been stored. |
| `BlockCache.IoManager.Store` | io/io-manager-utils.c:170-171 | Bytes copied into dirty sectors of a held block are the stored contents from then on, and the cache stays coherent. |
| `BlockCache.IoManager.PrefetchBlock` | io/io-manager.c:1733-1746 | Changes nothing that anyone can see, and no block that is neither free nor clean; does nothing for a cached block, at the request limit, or when no block can be had, and otherwise leaves a read of that block under way, in the place of a free block or the least recently used clean one. Nothing becomes dirty. |
| `BlockCache.IoManager.Flush` | io/io-manager.c:1829-1849 | It never returns if and only if a failed prefetch is on the errored list: that block is then pending, and no request is under way. Otherwise it ends with nothing dirty or pending; true exactly when no block is errored, and then the disks hold all that was stored, except in dirty blocks that were held. The cache is whole after it returns if and only if no dirty block was held; one that was is on no list and not written. Every other dirty or errored block is written once, whether it returns or not. |
| `BlockCache.IoManager.InvalidateBlock` | io/io-manager.c:1855-1885 | On success the block has left the index and its contents are on the disk; on failure it is held, or its write failed and it is kept; it always succeeds for a block at rest that is clean and not held, and never for a held one. |
| `BlockCache.IoManager.InvalidateDev` | io/io-manager.c:1933-1951 | The index loses exactly the device. On success all its contents are on the disk, except in blocks a write of which was under way with a part failed and missing on the disk; exactly these are lost if they leave the cache, and the cache is whole if and only if the answer is success and there were none. With nothing of the device to write or under way it succeeds if and only if no block of it has an error or is held; a held block or a failed prefetch always makes it fail, and is left behind on a list without a name in the index. Nobody else notices anything. |
| `ByteRanges.UpdatedTwice` | io/io-manager-utils.c:101-142 | Two updates of adjoining ranges are one update of the whole range with the bytes in order. |
| `ByteRanges.StoredIsUpdated` | io/io-manager-utils.c:161-175 | Storing at an offset of a block is storing at the flat address of that offset, and nowhere else. |
| `ByteRanges.ZeroedIsUpdated` | io/io-manager-utils.c:223-234 | Zeroing a block is zeroing its range of flat addresses. |
| `ByteRanges.RegionMaskTouches` | io/io-manager-utils.c:146-157 | A sector is in the mask of a non-empty region exactly when some byte of the region is in the sector; for an empty one, exactly when the offset cuts it. |
| `ByteRanges.RegionMaskFits` | io/io-manager-utils.c:146-157 | The mask of a region inside a block has no bit beyond the block. |
| `ByteRanges.TouchedIs` | io/io-manager-utils.c:146-157 | The sectors that a range touches, over all blocks, are those that hold a byte of it; with no bytes, the one that its start cuts. |
| `ByteRanges.RegionToMask` | io/io-manager-utils.c:146-157 | The loop computes that mask. |
| `ByteRanges.BlockRange` | io/io-manager-utils.c:26-32 | The first block is the one that holds the start, and the end is the first block boundary at or after the end of the range. |
| `ByteIo.PrefetchBytes` | io/io-manager-utils.c:44-53 | Changes nothing that anyone can see, and nothing at all when the range is cached; each block of the range that was not cached is being read after it, unless the request limit is reached or no block can be had; no other block comes into the cache, and no sector becomes dirty. |
| `ByteIo.ReadBytes` | io/io-manager-utils.c:57-82 | On success the buffer holds what the flat array holds in that range; on failure, what it holds up to the first block that could not be had, and why; contents, and the buffer beyond the range, are unchanged whatever the outcome; it succeeds when the range is cached clean, and hangs only while some block is held. No sector becomes dirty. |
| `ByteIo.Updater.PartialFn` | io/io-manager-utils.c:161-175 | On success exactly the bytes of that part of the block change, and the source advances; otherwise nothing changes, and the block could not be had; it succeeds on a writable block at rest. No sector becomes dirty that the part does not touch; those that it touches are dirty; and a block at rest, or not cached, has as dirty sectors exactly those it had and those that hold a byte of the part. |
| `ByteIo.Updater.WholeBlock` | io/io-manager-utils.c:177-193 | One whole block: on success the source's bytes; on failure nothing, except that the block is zeroed if and only if the handle may write and an earlier write of it failed and waits to be repeated. |
| `ByteIo.Updater.WholeFn` | io/io-manager-utils.c:177-193 | On success the whole blocks hold the source's bytes in order; on failure the blocks before the one that could not be had do, and that one is zeroed if and only if an earlier write of it failed and waits to be repeated. |
| `ByteIo.Updater.UpdateBytes` | io/io-manager-utils.c:101-142 | Head, whole blocks and tail together change exactly the range, with the source's bytes in order, for every start, length and block size. On failure the bytes before the block that could not be had are written, and that block is zeroed if and only if all of it was to be written, the handle may write, and an earlier write of it failed; a range that begins with such a block always fails there. In the whole cache no sector becomes dirty that the range does not touch; within one block at rest, exactly those that it touches. |
| `ByteIo.WriteBytes` | io/io-manager-utils.c:195-205 | The flat array changes in exactly the range, to the given bytes; a failure writes a prefix, and zeroes in the next block under the exact condition above; success is certain inside one cached block at rest, and then exactly the touched sectors are added to the dirty ones; elsewhere no others are. |
| `ByteIo.ZeroBytes` | io/io-manager-utils.c:236-246 | The same, with zeroes. |
| `ByteIo.SetBytes` | io/io-manager-utils.c:281-291 | The same, with one value repeated. |
| `CacheRuns.Untouched` | io/io-manager-utils.c:101-142 | An updating call, whether or not it works, leaves every byte outside its range. |
| `CacheRuns.ReadsBack` | io/io-manager-utils.c:57-205 | In every run, a successful read returns what the last successful update of that range stored, if no call between touched the range, through any eviction, write back, failure, retry, flush and invalidation. |
| `CacheRuns.IsDurable` | io/io-manager.c:1829-1951 | In every run, what an update stored is on the disk after the next successful flush, or invalidation of the device, if no call between touched the range; the exception are blocks whose write had failed in part when the device was invalidated. |
| `CacheRuns.FailsExhausted` | io/io-manager.c:1385-1428 | In every run, a call that fails while no block has an error is a read or an update that found neither a free nor a clean block. |
| `CacheRuns.Serve` | io/io-manager.c:1733-1956 | Every sequence of prefetch, read, write, zero, set, flush and invalidation calls is answered as one flat array per device would answer it, call by call; success of a flush or invalidation means that the bytes are on the disks; every failure has its reason. The run ends early only before a flush that never returns, or after an invalidation of a device that failed or may have lost something; never over an engine that fails no request. |
| `Departures.GetHangs` | io/io-manager.c:1396-1404 | From a new cache of one block: with that block held for reading, getting another one waits for ever. |
| `Departures.WriteZeroes` | io/io-manager.c:1509-1510 | From a new cache: after a write of a block has failed, writing the whole block is refused, and the byte that was stored is neither the old nor the new one but zero. |
| `Departures.DropLeavesBlock` | io/io-manager.c:1908-1914 | From a new cache: after a prefetch has failed, invalidating its device fails, and the block is left on a list without a name in the index. |
| `Departures.FlushForgets` | io/io-manager.c:1836-1841 | From a new cache: a flush while a dirty block is held succeeds, and leaves that block dirty and on no list. |
| `Departures.FlushHangs` | io/io-manager.c:1831-1846 | From a new cache: after a prefetch has failed, a flush never returns; the block is pending with nothing to write, and no request is under way. |
| `Departures.DropForgets` | io/io-manager.c:1894-1951 | From a new cache: the first of the two requests of a write fails, the device is invalidated, the write is issued again and the second request works; the answer is success, and the disk has not got what was stored. |
| `Departures.ZeroExposes` | io/io-manager.c:1512-1533 | From a new cache: zeroing a part of an uncached block gives its client, in the rest of it, bytes of another block. |
| `Departures.ReopenLeaks` | io/io-manager.c:965-1022 | From a new table: a path is opened for reading, comes to name another device and is opened for writing: a descriptor is open that no device has, and the holder is lost. |
| `IntrusiveList.Add` | base/data-struct/list.c:34-43 | The element is at the end of the circular list; only head, the old last element and the new one are written. |
| `IntrusiveList.AddH` | base/data-struct/list.c:49-58 | The element is at the front. |
| `IntrusiveList.Del` | base/data-struct/list.c:65-69 | The list is as before without the element, which keeps its own pointers. |
| `IntrusiveList.DelAgain` | base/data-struct/list.c:65-69 | Deleting an element once more changes nothing if and only if its old neighbours are still neighbours, as they are right after it was popped. |
| `IntrusiveList.Move` | base/data-struct/list.c:74-78 | The element leaves one list for the end of another; the two together hold what they held. |
| `IntrusiveList.MoveToEnd` | base/data-struct/list.c:74-78 | The same within one list. |
| `IntrusiveList.Splice` | base/data-struct/list.c:155-170 | The first list is the two in a row, and the second is empty. |
| `IntrusiveList.Size` | base/data-struct/list.c:139-148 | The walk counts the elements. |
| `IntrusiveList.ListIsUnique` | base/data-struct/list.h:125-126 | The pointers determine the elements and their order: a list has one sequence of elements. |
| `JobProcessor.IoProcessor.Add` | io/io-processor.c:102-129 | The job is last in the queue and fits the buffer. |
| `JobProcessor.IoProcessor.EnsureBuffer` | io/io-processor.c:79-100 | The buffer is big enough and never gets smaller. |
| `JobProcessor.BlocksCovered` | io/io-processor.c:214-221 | From the block of the first byte to that of the last; a range of no bytes covers the block that its start cuts, if any. |
| `JobProcessor.Ops.PrefetchBytes` | io/io-processor.c:214-252 | The range is prefetched; over a cache nobody notices, and the answer is the number of blocks that the range covers. |
| `JobProcessor.Ops.ReadBytes` | io/io-processor.c:254-258 | Over a cache, a read that works gives what is stored on the device, and changes nothing that is stored. |
| `JobProcessor.IoProcessor.PrefetchBatch` | io/io-processor.c:149-175 | Each job taken has failed or is in the batch. The jobs take their turns in order: each opens its own path, and, if that works, asks for its own range on the device of that path; it is in error exactly if its path could not be opened. By the answers, all jobs of the batch but the last cover fewer blocks than the batch size, and all of them at least that many when jobs remain; each device got is put back. |
| `JobProcessor.EndsAre` | io/io-processor.c:149-196 | A job is in error if and only if, in a turn of its own, its path could not be opened or its range could not be read; and a task is given exactly what was read in such a turn. |
| `JobProcessor.IoProcessor.ReadBatch` | io/io-processor.c:177-195 | Each job of the batch has one turn, in order, in which it opens its own path and reads its own range on the device of that path, and ends in one callback: a task with what was read, or an error exactly if one of these failed; over a cache, what was read is what is stored on the device. |
| `JobProcessor.IoProcessor.Batch` | io/io-processor.c:149-196 | A batch ends at least one job, and keeps every other one queued; its prefetches are those of the jobs that are read, within the bound of the batch size. |
| `JobProcessor.IoProcessor.Exec` | io/io-processor.c:198-277 | Ends, with one callback for each job; the jobs ask in the order in which they were added, each for itself; the tasks run in that order and get the bytes that were read in their turn, and what each job is told follows from the answers to it; gets and puts balance; and the prefetches come in batches, each within the bound of the batch size. Over a cache, each task gets the bytes stored on its device, and the bound is one on the blocks that the jobs' ranges cover. |
| `Quoting.QuotedIsUnquoted` | base/string/utils.c:203-243 | Unquoting what was quoted gives every string back. |
| `Quoting.UnquoteShortens` | base/string/utils.c:216-243 | Unquoting leaves a string as it is if and only if nowhere in it the quoting character is followed by itself or by the quoted character, and shortens all others. |
| `Quoting.UnquoteFirst` | base/string/utils.c:216-243 | The first such pair gives its second character, and unquoting goes on behind it. |
| `Quoting.QuotedLength` | base/string/utils.c:158-197 | The length of a quoted string is its length and the number of characters to quote. |
| `Quoting.QuotedEach` | base/string/utils.c:203-214 | A character is preceded by the quoting character if and only if it is the one to quote, or, if so asked, the quoting character itself. |
| `Quoting.CountChars` | base/string/utils.c:158-166 | The loop adds the length, and the number of occurrences, of the terminated string. |
| `Quoting.EscapedLen` | base/string/utils.c:189-197 | The answer is the length of the escaped string with its terminator. |
| `Quoting.QuoteCharacters` | base/string/utils.c:203-214 | The bytes written are the quoted string, and none beyond. |
| `Quoting.EscapeDoubleQuotes` | base/string/utils.c:355-363 | The buffer holds the escaped string; exactly that many bytes and the terminator are written. |
| `Quoting.UnquoteOneCharacter` | base/string/utils.c:216-243 | Compacting in place leaves the unquoted string, terminated, in the same buffer. |
| `Quoting.EscapeThenUnescape` | base/string/utils.c:355-371 | Escaping and then unescaping in place returns every string. |
| `DeviceTable.Table.MaybeClose` | io/io-manager.c:832-841 | A device without holder or block leaves table and list and its descriptor is closed, once; any other stays; what has left has no reference. |
| `DeviceTable.Table.DecHolders` | io/io-manager.c:843-851 | One holder less, and closed exactly with the last reference; nothing for a device that nobody holds. |
| `DeviceTable.Table.IncBlocks` | io/io-manager.c:827-830 | The block count follows the index. |
| `DeviceTable.Table.BlockDtr` | io/io-manager.c:853-867 | The block count follows the index down, and the device goes with its last block if nobody holds it. |
| `DeviceTable.Table.InvalidateDev` | io/io-manager.c:1933-1951 | The index loses all blocks of the device and no others; the device is closed exactly when nobody holds it. |
| `DeviceTable.Table.EvictLru` | io/io-manager.c:891-903 | The least recently used device that nobody holds is closed, a held one never, and the others keep their order; none only when all are held. |
| `DeviceTable.Table.NewDev` | io/io-manager.c:905-956 | The limit is kept, by closing the device that has gone unused for longest, and the new device is last in the order of use; refused if and only if the path would not open or the table was full of held devices; held devices are untouched. |
| `DeviceTable.Table.UpgradeDev` | io/io-manager.c:965-1031 | The device is open as wanted, reopened from scratch for exclusive use and only for a sole holder; the old descriptor is closed once; on refusal the caller's reference is gone. The table stays right unless access is shared, the path opens, and it names another device than when the device was first opened; exactly then two holders are dropped and the new descriptor is never closed. |
| `DeviceTable.Table.GetDev` | io/io-manager.c:1033-1052 | What is given is open exclusively if that is wanted, and for writing unless read-only is wanted; it is last in the order of use, and has one holder more. Or nobody's count has changed. An unknown path is refused if and only if it does not open or the table is full of held devices. A known device is given as it is open unless exclusive use is wanted and it is shared, or writing is wanted and it is read-only; then it is reopened as wanted, and refused if and only if it does not open, or the old or the new access is exclusive and somebody holds it. A holder and a descriptor are lost if and only if the path has come to name another device. |

## Left out

- BlockCache.IoManager.IssueSectors: takes every request to be accepted. A refused first run of a write in several runs completes the block while the others are still to be issued (io/io-manager.c:1248-1258).
- BlockCache.IoManager.InvalidateDev: the order in which blocks are visited is arbitrary.
- BlockCache.IoManager.PutBlock: how many blocks the preemptive write back takes is arbitrary, because `nr_dirty` is not kept up by write completion (io/io-manager.c:1230-1243, 1539-1547).
- BlockCache.IoManager.PrefetchBlock: the request limit is the one checked there; that pending blocks never exceed it is not claimed, since gets and writes do not look at it.
- IndexedCache.IndexedCache.BlockInsert: device and block numbers must fit the key (four and eight bytes); the numbers of the cache and of the device table are unbounded.
- DeviceTable.Table.UpgradeDev: when the first of the two drops of another device under the path closes the device, the second one uses freed memory (io/io-manager.c:965-1022); the model leaves it out.
- DeviceTable.Table.InvalidateDev: the table has the keys of the index but not the blocks; that writes and failures are the cache's, and that the keys are the same, is `BlockCache.IoManager.InvalidateDev` and `IndexedCache.IndexedCache.Prune`.
- CacheRuns.Serve: stops at a flush that never returns, and after a device has been invalidated without success, or with a write under way that had failed in part; it uses a handle that may write, and holds no block between calls.
- JobProcessor.IoProcessor.Exec: with a batch size of nought and a job in the queue the source does not end. A path keeps its device number; whether it can be opened is arbitrary.
- DeviceTable.Table.GetDev: what a path names is a field that only the file system changes; a device whose kind cannot be found out counts as a regular file.
- Quoting.UnquoteOneCharacter: strings are sequences without NUL, and a quoting character is never NUL.
- Allocation always succeeds: neither tree backs out cleanly from a failure (base/data-struct/radix-tree-adaptive.c:275, 432). Freed memory is not modelled; a freed node is one that the tree no longer reaches.
- The tree's `struct value *`, written through, is a slot passed in and returned, and lookup and insertion are one descent; the four node structs are one class with arrays of the right lengths. The branches of `_insert` for values and chains that `AdaptiveProofs.LookupStops` rules out are not written.
- Links of a block list are sequences in class `IoManager`; that the pointer operations are these operations on sequences is `IntrusiveList`. A block's `place` is a ghost field.
- Sectors and dirty masks are sets of numbers below 64, not machine words; addresses and lengths do not wrap.
- Iterating the simple tree below a prefix (base/data-struct/radix-tree-simple.c:228-244) leaves out siblings, so no contract is given.
- The self-check `_check_nodes` (base/data-struct/radix-tree-adaptive.c:1045-1197) checks less than well-formedness as it is defined here.
- The engines, system calls, alignment and its fallback (io/io-manager.c:43-661), statistics, logging and dumping.
- `io_invalidate_all` (io/io-manager.c:1983-1992), which returns a flag it never sets; `io_manager_destroy`, `io_dev_size` and the other simple accessors.
- `range-set.c`, `bitset.c`, `builder.c`, `rounding.h`, `threads.c` and the rest of `base/string/utils.c`: broken, stubs, compiled out, or easy members.
