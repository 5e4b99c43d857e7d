# Verified models of k23's range tree, page tables and spin locks

This project models three parts of the k23 operating system in Dafny and proves what they promise.

* **The range tree** (`lib/range-tree`): a B+ tree whose keys are ranges ordered by their last element. Nodes
  live in two pools with free lists, leaves form a chain whose link shares a slot with the last value, and a
  cursor keeps a path from the root. The files `Range*.dfy` model the node primitives, the cursor with its
  splits, steals, merges and root collapse, the operations of the tree, its iterators, and the bound on its height.
* **The page-table engine** (`lib/mem-mmu`): one recursive walk that maps, remaps, changes attributes and
  unmaps, allocating tables on the way down and freeing empty ones on the way up. The files `Mmu*.dfy` model the
  tables in memory, the walk and its visitors, the address space and the record of what must be flushed.
* **The spin-lock protocols** (`lib/spin`): the reentrant mutex, the interrupt-masking mutex, one-time
  initialisation with the lazy value, and the barrier. The files `Spin*.dfy` model each as a state machine in which
  any thread or hart may take the next step, and prove invariants of all interleavings.

## Main results

* Inserting, replacing and removing at any cursor of any tree changes exactly one entry of the in-order sequence and
  restores every invariant of nodes, separators, chain, pools and cursor, through all splits, steals, merges, cascades,
  root growth and root collapse (`Cursors.RawCursor.Insert`, `Replace`, `Remove`).
* Every run of operations on the tree, and every run of operations on a cursor, refines a sorted sequence
  (`Cursors.RangeTree.ApplyAll`, `Cursors.RawCursor.PerformAll`), which stays in order and is refused exactly what
  would break it (`Models.RunKeepsOrder`, `Models.InsertAccepted`).
* The maximum height covers every tree that fits into a pool, and exactly when the stack is large enough for all of
  them is known (`Heights.HeightWithinMax`, `Heights.StackLargeEnoughIff`); inserting keys in order leads to the trees
  for which it is not (`Heights.Ascend`).
* Each operation on an address space changes exactly the translations it should, address by address, and mapping
  followed by unmapping restores tables and free frames even when mapping failed half way
  (`Spaces.HardwareAddressSpace.MapContiguous`, `Unmap`, `MapThenUnmap`, `MapBlocksThenUnmap`). This rests on the fact
  that translations determine the tree of tables (`Theory.SameTree`).
* Every run of such operations, with failures in it, refines what the calls say address by address; whatever it changed
  will be flushed; mapping fails only if a table is missing that the allocator refused; and the run leaves no empty table
  if failed mappings are cleaned up (`Spaces.HardwareAddressSpace.ApplyAll`).
* In every interleaving the locks exclude each other, initialisation happens once, and the barrier holds
  (`Reentrant.MutualExclusion`, `IrqLocks.LocksExclude`, `Lazy.OnceOnly`, `Barriers.BarrierHolds`); and every call comes
  to what it should, whatever the others do (`Reentrant.Calls`, `Lazy.Calls`, `Barriers.Waits`). Exactly when locks are
  held only with interrupts off is known (`IrqLocks.SafeIff`), and last-in-first-out use is enough (`IrqLocks.IrqSafety`).

## How the range tree is modelled

A node is a cell of a pool: its pivots and its slots, where a slot is empty, a value, or the link to the next
leaf. `Shapes.Tree` is the tree that two pools represent; `Shapes.TreeOK` says that the pools hold it (separators
are the right-most pivots of the children, the last child's separator is the absent key, nodes are at least half
full, all leaves are at one depth, the chain lists the leaves in order from leaf zero), and `Nodes.Accounted` that
every slot of a pool is owned exactly once, by the tree or by the free list. A cursor's path is a zipper; the proof
follows the walk up and down it. `Contents()` is the in-order sequence, and every operation is specified as what it
does to that sequence. Node primitives and the cursor are classes that change their pools in place. The fan-out is
any even number from four up, and keys are their ranks below one absent key; `Keys` proves that the raw, biased
integers behave like that.

## How the page tables are modelled

`Tables.Node` is a tree of tables and `Tables.Rep` says that memory holds it. All statements about an operation are
made address by address: `Tables.Find` is what translation makes of an address. Levels are counted from the
smallest page up; a layout gives the page size and the number of entries of each level. `Effects.Ready` says that a
walk for pages of one level meets only tables, or nothing, above that level and no table at it; `Effects.EmptyAt` marks
tables without entries, which a failed mapping can leave behind anywhere. `Visitor.VisitRange` and
`Visitor.VisitLeaf` are the two walks, with one contract; `Visits.LeafIsRange` shows for any visitor at all that the
shortcut makes the same calls.

## How the locks are modelled

A state holds the shared variables and the place of each thread between two memory accesses. `Run` applies any
sequence of steps by any threads, so a statement about `Run` is one about every interleaving. A hart's interrupt-masking
guards are a sequence in the order in which they were taken, and every operation names the guard it is on.

## Differences between the code and its documentation

* `lib/range-tree/src/stack.rs:39` says that a height is always less than the maximum height. The node limits do
  not give that: `Heights.StackLargeEnoughIff` states exactly when they do, and `Heights.StackTooSmallFor64Bit`
  inserts 64-bit keys in order until they do not. The cursor's stack is modelled with one entry for each level of the tree.
* `lib/range-tree/src/iter.rs:622-627` says that the last gap always has an open end. There is no such gap when the
  last range ends with the largest key: `Chains.NoOpenGap` is the smallest case and `Chains.GapsAreTheRest` says exactly
  when.
* `lib/range-tree/src/lib.rs:237-251` speaks of equal pivots. Whether two ranges with the same last element can both be
  stored depends on the order in which they come: `Models.InsertAccepted` and `Models.PointAtTheEnd`.
* `lib/spin/src/irq_mutex.rs:26-40` relies on dropping a guard for restoring the interrupt state. That is the state when
  this guard was taken, whatever locks are held now: `IrqLocks.OutOfOrder` ends with a lock held and interrupts on, and
  `IrqLocks.SafeIff` says exactly which drops do that.
* `lib/mem-mmu/src/address_space.rs:226-229` asks callers to unmap the range when mapping fails, while
  `lib/mem-mmu/src/address_space.rs:445-448` and the debug assertions ask for a fully mapped range. The model has the
  behaviour without debug assertions, for which the clean-up works: `Spaces.HardwareAddressSpace.MapThenUnmap`.

## Model

| member | source | states |
|---|---|---|
| Cells.LeafInsert | lib/range-tree/src/node.rs:381-431 | Shifting pivots and values up inserts the entry into what the leaf stands for, also when that fills the leaf and overwrites its link. |
| Cells.LeafRemove | lib/range-tree/src/node.rs:441-476 | Shifting pivots and values down removes the entry from what the leaf stands for. |
| Cells.LeafSplit | lib/range-tree/src/node.rs:485-516 | The two nodes of a split stand for the lower and the upper half of a completely full leaf. |
| Cells.LeafMerge | lib/range-tree/src/node.rs:523-539 | Copying one leaf behind the entries of another gives a leaf that stands for both in order. |
| Cells.InnerInsert | lib/range-tree/src/node.rs:381-431 | In an internal node the new separator goes in front of the old one and the new child behind the old one. |
| Cells.InnerSplit | lib/range-tree/src/node.rs:485-516 | With its middle separator made absent, a completely full internal node splits into two that each end with an absent separator. |
| Cells.InnerRemove | lib/range-tree/src/node.rs:441-476 | Removing a separator and the child behind it leaves the separators of the others right. |
| Cells.InnerMerge | lib/range-tree/src/node.rs:523-539 | Copying one internal node behind another, with the separator between them restored, gives a node with all children. |
| Nodes.NodePool.AllocNode | lib/range-tree/src/node.rs:725-758 | The node handed out was free or is new, is in nobody's hands, and every slot is still accounted for exactly once. |
| Nodes.NodePool.FreeNode | lib/range-tree/src/node.rs:764-774 | The freed node becomes the head of the free list and leaves the owned ones; the list stays linked. |
| Searching.Search | lib/range-tree/src/simd/mod.rs:149-189 | Where the pivots below the key come first, as many as a power of two, halving down to any final width finds the first pivot not below the key. |
| Searching.CountingFinds | lib/range-tree/src/int.rs:69-78 | Under the same condition counting the smaller pivots gives that index too. |
| Keys.KeysRoundTrip | lib/range-tree/src/int.rs:84-112 | Keys survive conversion to raw integers and back, with or without bias, and compare as raw integers as they do as keys. |
| Keys.MaxIsAbsent | lib/range-tree/src/int.rs:84-112 | Exactly the largest raw integer stands for no key, compares above all others, and follows the last key. |
| Keys.RankIsOrder | lib/range-tree/src/simd/mod.rs:122-135 | The biased comparison is the comparison of ranks, which name raw integers uniquely. |
| Cursors.RangeTree.constructor | lib/range-tree/src/lib.rs:136-169 | A new tree is valid and empty, with leaf zero as its root. |
| Cursors.RawCursor.Seek | lib/range-tree/src/cursor.rs:67-86 | In every tree sorted by last elements, duplicates included, the cursor lands on the first entry that reaches the key, or at the end. |
| Cursors.RawCursor.SeekFirst | lib/range-tree/src/cursor.rs:1336-1357 | Going down the first children ends at index zero, in leaf zero. |
| Chains.NodesAscend | lib/range-tree/src/lib.rs:337-468 | In a sorted tree the pivots of every node are sorted, so that searching a node by halving is right. |
| Chains.NodesSearchable | lib/range-tree/src/simd/mod.rs:128-192 | Searching a node is right for every key in a sorted tree, and for the absent key in every tree, sorted or not. |
| Cursors.RawCursor.Current | lib/range-tree/src/cursor.rs:121-134 | There is an entry exactly before the end, and it is that of the in-order sequence at the cursor's index. |
| Cursors.RawCursor.Next | lib/range-tree/src/cursor.rs:142-160 | Moves by exactly one position of the in-order sequence, also across leaves. |
| Cursors.RawCursor.Prev | lib/range-tree/src/cursor.rs:166-182 | Moves back by exactly one position and says so; at the first entry the stack stays as it is. |
| Cursors.RawCursor.NextLeafNode | lib/range-tree/src/cursor.rs:188-235 | From behind a leaf to the start of the next, at the same index; behind the last leaf it stays. |
| Cursors.RawCursor.PrevLeafNode | lib/range-tree/src/cursor.rs:241-290 | From the start of a leaf to the last entry of the previous one, if there is one. |
| Places.IndexDeterminesStack | lib/range-tree/src/cursor.rs:27-38 | The index of a cursor determines every level of its stack. |
| Places.NextThenPrev | lib/range-tree/src/cursor.rs:142-182 | Going forth and back restores the whole stack. |
| Places.PrevThenNext | lib/range-tree/src/lib.rs:276-285 | Going back and forth restores the whole stack, which insertion relies on. |
| Cursors.RawCursor.UpdateLeafMaxPivot | lib/range-tree/src/cursor.rs:300-316 | Rewriting the first separator that is not absent makes the whole path agree with the new right-most pivot. |
| Cursors.RawCursor.WriteEntry | lib/range-tree/src/cursor.rs:321-363 | The leaf holds the entry at the position; unless it became completely full its link is the one it had. |
| Cursors.RawCursor.SplitCurrentLeaf | lib/range-tree/src/cursor.rs:365-383 | A completely full leaf becomes two halves, the new one linked in behind it, each node owned once. |
| Cursors.RawCursor.AddChild | lib/range-tree/src/cursor.rs:399-421 | The parent lists the new node behind the old one with the right separators, and says whether that filled it. |
| Cursors.RawCursor.SplitFull | lib/range-tree/src/cursor.rs:438-462 | A completely full internal node becomes two halves with the middle pivot between them. |
| Cursors.RawCursor.SplitUp | lib/range-tree/src/cursor.rs:394-512 | The split is carried up as far as needed, any number of levels and a new root included, keeping all invariants and the cursor's place. |
| Cursors.RawCursor.Insert | lib/range-tree/src/cursor.rs:321-512 | Exactly one entry is added, at the cursor's index of the in-order sequence, the cursor stands on it, and every invariant of tree, pools and cursor holds again. |
| Cursors.RawCursor.Replace | lib/range-tree/src/cursor.rs:520-553 | The entry at the cursor is exchanged, and only that; the old one is returned; the stack does not change. |
| Cursors.RawCursor.Take | lib/range-tree/src/cursor.rs:561-596 | The entry is out of its leaf, the ancestors know the new right-most pivot, and the leaf says whether it has too few entries. |
| Cursors.RawCursor.HandleUnderflowLeaf | lib/range-tree/src/cursor.rs:688-1001 | A leaf with one entry too few is repaired by stealing from or merging with a neighbour, without changing sequence or index. |
| Cursors.RawCursor.HandleUnderflowInner | lib/range-tree/src/cursor.rs:688-1001 | The same for an internal node: afterwards it is large enough, or its parent has one child fewer. |
| Cursors.RawCursor.Cascade | lib/range-tree/src/cursor.rs:608-661 | Merging is carried up to the root if need be, and a root with a single child is removed and freed. |
| Cursors.RawCursor.Remove | lib/range-tree/src/cursor.rs:561-675 | Returns the entry at the cursor, deletes exactly it from the in-order sequence, leaves the cursor on its successor, and restores every invariant through all repairs. |
| Cursors.RawCursor.PerformAll | lib/range-tree/fuzz/range_tree.rs:279-355 | Every sequence of cursor operations does to tree and cursor what it does to a sequence and an index into it, and gives the same answers. |
| Cursors.RangeTree.Clear | lib/range-tree/src/lib.rs:173-198 | Afterwards the tree is empty and valid, all nodes but leaf zero given back. |
| Cursors.RangeTree.IsEmpty | lib/range-tree/src/lib.rs:202-213 | True exactly when the in-order sequence is empty. |
| Cursors.RangeTree.Get | lib/range-tree/src/lib.rs:217-226 | Answers as the sequence model does. |
| Cursors.RangeTree.Insert | lib/range-tree/src/lib.rs:258-294 | Changes the sequence and answers as the model does: an overlap is reported, and nothing changed, exactly when a neighbour of the insertion point clashes. |
| Cursors.RangeTree.Remove | lib/range-tree/src/lib.rs:299-314 | Removes and returns the first range that reaches the key exactly if it contains the key. |
| Cursors.RangeTree.ApplyAll | lib/range-tree/fuzz/range_tree.rs:129-181 | Every run of insert, remove, get and clear gives the answers and the final contents of the sequence model, for all arguments. |
| Models.RunKeepsOrder | lib/range-tree/src/lib.rs:258-294 | Every run with ranges that are not reversed keeps them in order, each ending no later than the next one starts. |
| Models.InsertKeepsOrder | lib/range-tree/src/lib.rs:267-289 | Insertion is refused exactly when the new range at its insertion point would break that order. |
| Models.InsertAccepted | lib/range-tree/src/lib.rs:267-289 | The same without positions: every stored range must lie on one side of the new one, and a single point must not end a stored longer range. |
| Models.PointAtTheEnd | lib/range-tree/src/lib.rs:267-289 | A point and a range ending in it are both stored in one order of insertion and not in the other. |
| Models.GetFindsContaining | lib/range-tree/src/lib.rs:217-226 | A value is found exactly when a stored range contains the key, and it is that of the first such range. |
| Models.InsertThenRemove | lib/range-tree/src/lib.rs:258-314 | Removing the last element of a range just inserted restores the sequence and returns its value. |
| Cursors.RangeTree.RawIterFirst | lib/range-tree/src/iter.rs:463-469 | Leaf zero is always the left-most leaf, so iteration from it starts at index zero. |
| Cursors.RangeTree.RawIterFrom | lib/range-tree/src/iter.rs:474-501 | The iterator starts at the first entry that reaches the key. |
| Cursors.RawIter.Next | lib/range-tree/src/iter.rs:58-87 | Yields the entry at its index of the in-order sequence and moves on by one through the chain; at the end yields nothing and stays. |
| Cursors.RawIter.Collect | lib/range-tree/src/iter.rs:100-112 | Yields exactly the in-order sequence from its index on. |
| Cursors.RangeIter.Collect | lib/range-tree/src/iter.rs:303-331 | Yields exactly the entries from the position of the start bound up to that of the end bound, none for reversed bounds. |
| Cursors.RangeTree.Range | lib/range-tree/src/iter.rs:425-445 | Iterating over bounds yields exactly the ranges whose last element the bounds admit, in order. |
| Cursors.Gaps.Next | lib/range-tree/src/iter.rs:387-407 | Yields the next gap that is not empty and leaves the others to come; after the last it yields nothing. |
| Chains.GapsAreTheRest | lib/range-tree/src/iter.rs:622-634 | The gaps contain exactly the keys that no stored range contains; the first is open below; the last is open above exactly when the key space does not end with a stored range. |
| Chains.GapsListed | lib/range-tree/src/iter.rs:387-421 | No gap but the first, which is open below, is without keys, and the gaps follow each other in the order of keys, so none is listed twice. |
| Chains.NoOpenGap | lib/range-tree/src/iter.rs:622-634 | With nothing but the largest key stored, the only gap is the one below it. |
| Heights.MaxHeight | lib/range-tree/src/stack.rs:11-35 | The loop computes the height that halving the nodes again and again gives. |
| Heights.WorstIff | lib/range-tree/src/stack.rs:11-35 | Exactly from how many leaves on each level is counted. |
| Heights.AccountedCount | lib/range-tree/src/node.rs:725-774 | Owned and free nodes together are exactly the nodes of the pool, so none is lost. |
| Heights.HeightWithinMax | lib/range-tree/src/cursor.rs:497-504 | No valid tree in a pool of at most that many leaves is taller than the maximum, so growing a root never fails. |
| Heights.StackLargeEnoughIff | lib/range-tree/src/stack.rs:36-41 | All trees in their pools are lower than the maximum height exactly when the fewest leaves of a tree of that height do not fit into the pool. |
| Realizing.Realize | lib/range-tree/src/node.rs:6-40 | Every shape within the node limits, with any entries, is held by a pair of pools without a spare node. |
| Heights.Ascend | lib/range-tree/src/cursor.rs:321-512 | Inserting keys in order into a new tree leads to every height, with exactly as few leaves as a tree of that height can have. |
| Heights.StackTooSmallFor64Bit | lib/range-tree/src/stack.rs:36-41 | For 64-bit keys, inserting 2^25 keys in order into a new tree gives it the maximum height, with a leaf pool a quarter of the allowed size. |
| Pagings.Sv39Sizes | lib/mem-core/src/arch/riscv64.rs:39-43 | The three levels of Sv39 have pages of 4 KiB, 2 MiB and 1 GiB and together span 512 GiB. |
| EntryRanges.PartsTile | lib/mem-mmu/src/utils.rs:23-81 | The parts are non-empty, tile the range without gap or overlap, belong to consecutive entries, and each lies within the slot of its entry. |
| EntryRanges.PageTableEntries.Collect | lib/mem-mmu/src/utils.rs:61-81 | The iterator yields exactly these parts and then stays finished. |
| Visits.LeafIsRange | lib/mem-mmu/src/table.rs:259-354 | For a single page, and any visitor with any state, the shortcut and the general walk end in the same state with the same answer. |
| Visits.RangeIsRun | lib/mem-mmu/src/table.rs:328-341 | In a leaf table the general walk fills one run of entries, as long as the range. |
| Visits.PartsInTurn | lib/mem-mmu/src/table.rs:343-354 | In other tables it walks the parts one after the other for as long as the callbacks go on. |
| Visits.OnePartWalk | lib/mem-mmu/src/table.rs:343-351 | For one part it goes down, walks the range below and goes up; a missing child skips the part and a failure ends the walk. |
| Flushes.Flush.Invalidate | lib/mem-mmu/src/flush.rs:63-73 | The range is kept while there is room for it and otherwise everything is flushed, so it and all that was recorded before is covered. |
| Walks.Machine.IsEmpty | lib/mem-mmu/src/table.rs:72-77 | True exactly when every entry of the table is vacant. |
| Walks.Visitor.Descend | lib/mem-mmu/src/address_space.rs:553-582 | Goes to the table that is there; mapping adds a blank one from a free frame, or fails and changes nothing. |
| Walks.Visitor.Ascend | lib/mem-mmu/src/address_space.rs:738-771 | Unmapping takes out a table exactly when it has no entries left and frees its frame. |
| Walks.Visitor.Fill | lib/mem-mmu/src/address_space.rs:584-804 | The run of entries gets the operation's effect on exactly the addresses of the range, is recorded for flushing, and the physical address moves on by its length. |
| Walks.Visitor.VisitRange | lib/mem-mmu/src/table.rs:313-354 | The operation takes effect on exactly the walked addresses; frames only move between tree and free set; only mapping can stop early, and only where the allocator refused a table that is then missing; changed translations are recorded and no range is recorded without need; a table without entries afterwards was so before and is not on the way to what was walked, unless mapping stopped early. |
| Walks.Visitor.VisitLeaf | lib/mem-mmu/src/table.rs:281-311 | The same contract for a single page. |
| Spaces.HardwareAddressSpace.Lookup | lib/mem-mmu/src/address_space.rs:117-156 | Finds exactly the translation of the address, with physical address, attributes and level. |
| Spaces.HardwareAddressSpace.MapContiguous | lib/mem-mmu/src/address_space.rs:239-286 | On success every address of the range translates to its offset from the physical start with the given attributes and no other translation changes; it fails only when the allocator refuses a table that is missing above the pages, so never where these tables exist or for the largest pages; then a prefix is mapped so, the rest is unmapped and the outside unchanged. Everything is flushed only if a table came or the ranges do not fit. |
| Spaces.HardwareAddressSpace.Map | lib/mem-mmu/src/address_space.rs:182-213 | The same for a range mapped block by block to separate pieces of physical memory, with all that unmapping needs afterwards. |
| Spaces.HardwareAddressSpace.RemapContiguous | lib/mem-mmu/src/address_space.rs:354-388 | Changes only the physical side of exactly the translations in the range, and no table and no frame. |
| Spaces.HardwareAddressSpace.SetAttributes | lib/mem-mmu/src/address_space.rs:404-434 | Changes only the attributes of exactly the translations in the range, and no table and no frame. |
| Spaces.HardwareAddressSpace.Unmap | lib/mem-mmu/src/address_space.rs:449-482 | Clears exactly the range and every empty table on the way to it; if there are no others, exactly those tables are left that still translate something. The root is never freed. |
| Spaces.AllReady | lib/mem-mmu/src/address_space.rs:445-448 | A range that is unmapped, or mapped in pages of the given level, can be walked exactly if no table for smaller pages in it is empty. |
| Spaces.ReadyElsewhere | lib/mem-mmu/src/address_space.rs:226-229 | So it can while the empty tables that a failed mapping left are only on the way to another range. |
| Spaces.HardwareAddressSpace.MapThenUnmap | lib/mem-mmu/src/address_space.rs:226-286 | Mapping, successfully or not, and then unmapping the same range restores the tree of tables and the free frames. |
| Spaces.HardwareAddressSpace.MapBlocksThenUnmap | lib/mem-mmu/src/address_space.rs:178-213 | So does mapping block by block, successfully or not, and then unmapping the whole range. |
| Theory.SameTree | lib/mem-mmu/src/address_space.rs:117-156 | Two trees without empty tables, with the same translations and tables from a common stock of frames, are equal. |
| Theory.TablesLeft | lib/mem-mmu/src/address_space.rs:738-771 | In a tree without empty tables that only lost tables, a table is there exactly if an address below it is still translated. |
| Spaces.HardwareAddressSpace.Apply | lib/mem-mmu/src/address_space.rs:158-482 | One call is refused, and then changes nothing, exactly if a condition of the caller is not met; otherwise it does to each address what the operation says as far as it got, and it runs out of frames only if the allocator refused one for a table that is still missing. |
| Spaces.HardwareAddressSpace.ApplyAll | lib/mem-mmu/src/flush.rs:63-77 | Over any sequence of calls sharing one record, failed and refused ones included, each for its reason: each address is translated as the calls say one after the other, every address whose translation changed is covered, everything is if a table came or went, nothing covered is forgotten, and empty tables are only where a mapping failed and nothing was completed since. |
| Runs.NoDebris | lib/mem-mmu/src/address_space.rs:178-181 | If every failed mapping is followed by a completed call over its range, such as the unmapping asked for, the run leaves no empty table. |
| Reentrant.MutualExclusion | lib/spin/src/remutex.rs:80-181 | In every interleaving at most one thread has guards, the count is their number, a thread is the owner exactly from storing its id to clearing it, and neither the assertion nor the decrement goes wrong. |
| Reentrant.Calls | lib/spin/src/remutex.rs:80-181 | In every interleaving, whatever the other threads do: locking or trying to lock by a thread with guards ends with one guard more and the answer that it is locked, or panics when the count is full; dropping one of several guards keeps the mutex locked; dropping the last leaves it free and without owner; and a thread that took the lock gets its first guard. |
| Reentrant.Enters | lib/spin/src/remutex.rs:80-170 | A thread without guards takes a free lock, and `try_lock` answers that it is not locked only if another thread is inside or the weak exchange failed for no reason. |
| Reentrant.AsIfAlone | lib/spin/src/remutex.rs:147-181 | A thread inside proceeds as if it were alone, whatever the others do. |
| Reentrant.StepKeeps | lib/spin/src/remutex.rs:147-181 | Every single memory access keeps the invariant behind this. |
| IrqLocks.IrqSafety | lib/spin/src/irq_mutex.rs:33-90 | In every interleaving with guards used last in, first out, no hart ever holds a lock with interrupts on, what was interrupted holds no lock, and a hart without guards is in its original interrupt state. |
| IrqLocks.SafeIff | lib/spin/src/irq_mutex.rs:26-40 | In every interleaving, with guards used in any order and every drop that was begun completed: locks are held only with interrupts off exactly if no guard that was taken with interrupts on is dropped, or opened by `unlocked`, while its hart holds another lock. |
| IrqLocks.LocksExclude | lib/spin/src/mutex.rs:72-150 | In every interleaving, with guards used in any order, no lock is held twice. |
| IrqLocks.Locks | lib/spin/src/irq_mutex.rs:65-90 | Interrupts go off first; a free lock is taken; for one that is not free `lock` waits, and `try_lock`, only then, leaves the hart as it was. |
| IrqLocks.LockThenDrop | lib/spin/src/irq_mutex.rs:33-90 | Locking and dropping restores the hart, whatever the other harts do with the locks meanwhile. |
| IrqLocks.Drops | lib/spin/src/util.rs:49-55 | Dropping any guard frees its lock, takes it off the hart, and turns interrupts on if the guard saved so. |
| IrqLocks.Opens | lib/spin/src/irq_mutex.rs:133-145 | `unlocked` frees the lock and runs its closure in the interrupt state that the guard saved. |
| IrqLocks.Closes | lib/spin/src/util.rs:24-46 | Afterwards interrupts go off, the state before is remembered, and the lock is taken again once it is free. |
| IrqLocks.InterruptThenReturn | lib/riscv/src/critical_section.rs:15-45 | An interrupt comes in exactly if it is enabled, its handler runs with interrupts off, and its end restores the hart. |
| IrqLocks.ActKeepsLevel | lib/spin/src/util.rs:11-55 | In such use every action keeps saved and current interrupt state in step with the stack of guards, through `unlocked` too. |
| IrqLocks.StepExclusive | lib/spin/src/mutex.rs:72-150 | Every action, in whatever order guards are used, keeps the lock flags and their unique holders in step. |
| IrqLocks.OutOfOrder | lib/spin/src/irq_mutex.rs:33-40 | After two guards were dropped in the order in which they were taken, the hart holds a lock with interrupts on. |
| Lazy.OnceOnly | lib/spin/src/once.rs:90-171 | In every interleaving the closure is entered at most once, and exactly once unless nobody got that far; every normal return comes after the value was written, and the union is never read as the wrong one. |
| Lazy.Final | lib/spin/src/once.rs:106-142 | Complete and poisoned are final, and so is the value. |
| Lazy.Calls | lib/spin/src/lazy_lock.rs:72-104 | In every interleaving, whatever the other threads do: with the value there `force` and `get` return it and `wait` returns; after a panic `force` and `wait` panic and `get` has nothing; the thread that runs the closure returns what it computed and leaves it there, or poisons the cell. |
| Lazy.Begins | lib/spin/src/once.rs:106-160 | Who comes first runs the closure, who comes while it runs waits and looks again, and `get` does not wait. |
| Lazy.StepKeeps | lib/spin/src/lazy_lock.rs:72-104 | Every access of `force` and `get` keeps the invariant behind this. |
| Barriers.BarrierHolds | lib/spin/src/barrier.rs:38-62 | In every interleaving each finished generation had exactly n arrivals, nobody returns before the n-th, whoever arrived has returned or is still there, at most one is told to be the leader and once all have returned exactly one was and n - 1 were not, the leader is the one who made the n-th arrival, and the count is below n whenever the lock is free. |
| Barriers.Waits | lib/spin/src/barrier.rs:38-62 | In every interleaving, whatever the other threads do: a thread that got the lock to arrive waits if it is not the n-th and otherwise ends the generation as its leader; a waiting thread that got the lock returns, not as leader, exactly if its generation is over. |
| Barriers.GetsLock | lib/spin/src/barrier.rs:38-52 | A call begins by wanting the lock, and a thread that wants it gets it with its next step exactly if it is free. |
| Barriers.StepKeeps | lib/spin/src/barrier.rs:38-62 | Every step keeps the invariant behind this. |

## Left out

- Cursors.RawCursor.Insert: allocation of nodes always succeeds here; the source panics when it does not.
- Cursors.RawCursor.Perform: operations at the end of the tree are skipped here; the source panics.
- Cursors.RangeTree.Clear: values are not dropped one by one, since the model has no destructors.
- Searching.Search: the vector instructions of the final step are represented by their contract.
- Spaces.HardwareAddressSpace.Map: blocks must make up exactly the range; the source allows them to be larger and then maps beyond it.
- Spaces.HardwareAddressSpace.MapContiguous: asks, beside an unmapped range, that none of its entries refers to an empty table left by a failed mapping of smaller pages, as the debug assertion in `lib/mem-mmu/src/address_space.rs:601` does; without it the source overwrites such an entry and loses the frame.
- Walks.Machine.AllocateZeroed: the frame allocator is represented by the frames it has and by which requests it refuses.
- Spaces.HardwareAddressSpace.Apply: a call that breaks a condition of the caller is refused here; its behaviour in the source is not modelled.
- Spaces.HardwareAddressSpace.Lookup: the bit-or of an aligned address with the low bits is written as their sum.
- IrqLocks.SafeIff: the closures of nested calls of `unlocked` may end in any order here, which includes the order of the source; handlers drop their guards before they return.
- Reentrant.MutualExclusion: a thread that panics on a full count stops and keeps its guards.
- Barriers.BarrierHolds: the generation number does not wrap around.
- Raw pointers, node layouts, growth of the pools' allocations and the mutable and owning iterators of the range tree.
- Sign extension of virtual addresses; ranges lie in one half of the canonical address space.
- The block-wise `remap`, `map_identity`, activation of an address space, and the encoding of page-table entries.
- Weak memory orderings, back-off, fairness and progress of the spin loops.
- The plain mutex on its own, whose protocol is part of the interrupt-masking one, and `OnceLock`, reader-writer locks and the `Debug` forms.
- All other crates of the repository.
