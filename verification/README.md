# CandyFS, modelled and proved in Dafny

CandyFS keeps a file system on one flat array of blocks, in four layers. This project models the
layers in the form the C code has (mutable blocks, pointer trees, free lists, packed directory blocks,
hash chains) and proves that each behaves like something much simpler.

| layer | files | behaves like |
|---|---|---|
| free lists (block.c) | `Blocks.dfy`, `FreeLists.dfy` | a set of free blocks, and a list of free inode numbers |
| inodes (inode.c) | `Geometry.dfy`, `Trees.dfy`, `IndirectGrow.dfy`, `IndirectShrink.dfy`, `IndirectTransfer.dfy`, `Files.dfy`, `Resize.dfy`, `Counting.dfy`, `SetSize.dfy`, `SlotTransfer.dfy`, `FileIO.dfy`, `Inodes.dfy` | a sequence of files, each a resizable sequence of bytes |
| any sequence of inode operations | `Runs.dfy` | a deterministic machine of files, free numbers and a count of free blocks |
| directories (dir.c) | `DirBlocks.dfy`, `Directories.dfy`, `DirLayout.dfy`, `DirStore.dfy` | a finite map from names to inode numbers |
| open files and paths (refs.c, path.c) | `OpenFiles.dfy` (modules `OpenTables` and `OpenFiles`), `Paths.dfy` | reference counts, and link counts that agree with directory entries |
| the path operations on all the layers, on one disk | `Layers.dfy` | the same operations on maps |

Block size, pointers per indirect block, number of direct slots, entries and name bytes per directory
block, and the layout of all other records as bytes are constants without a value. What the source asserts of
them is in their types: a directory block is exactly its numbers and its name table, which has more than 255 bytes.

## How the model is built

* The disk is a class `Disk` over an array of blocks; a block is a record (superblock, list block, inode
  table, inode, indirect, data). `TreeOf` reads the pointer tree below a slot off the disk; it is a
  function of the disk's contents, so every theorem about trees is about what is stored.
* `Shape(t, level, n)` is the one shape of a tree that holds exactly its first `n` data blocks, and
  `Prune` cuts a tree back. Growing is specified by `Prune(after, n) == before`, shrinking by
  `after == Prune(before, m)`; so growing and shrinking are inverse, and no childless indirect block is
  ever kept.
* Blocks are counted one number at a time: `Conserves` says that for each block the free list and the
  tree together hold it as often as before. `FsOk` says that, over all files, that is exactly once.
* The recursive procedures, and the loops that drive them slot by slot, are methods proved against these
  specifications by induction on the level of indirection. The source's assertions are assertions here.
* `FilesOf` reads a disk as a sequence of files, with their bytes. Every inode operation is specified on
  it: it changes one file as stated and leaves all the others.
* What a call does is stated in terms of the state before it. How far a file can grow is `ReachedSize`, a
  function of its size, the size asked for and the number of free blocks, found by counting the blocks of
  a tree (`Counting.dfy`). A call that can end at an assertion, or release a live block, returns an
  `Outcome`, and a function of the state before the call (`WriteEnds`, `TruncateEnds`, `AppendEnds`) says which.
* `Runs.Run` performs any sequence of operations on a new disk. Files, free numbers and the number of free
  blocks are at every step those of `Step`, which does not know the disk.
* A directory is a class over its packed blocks, and stands for a map. `DirLayout` says how a block is stored as
  bytes, and that it can be read back. `DirStore` shows that every operation is a search and at most one call
  that writes a block or cuts the file, and that the file determines the directory.
* `Paths` runs the path operations on maps, and records the steps they make: calls into refs.c and dir.c.
  `Layers` makes each of these steps on a disk and a table of open files that the maps show, reading every
  directory from its file, and shows that results and maps agree. Whether there is room for an entry, and which
  number a new inode gets, is recorded in the steps; a disk that finds something else departs there
  (`Layers.Follow` says how).
* Predicates whose body starts with `Look(u)` stay folded in proofs that do not ask for them.

## Where the code and its intent differ

1. **Release test (inode.c:233).** The comment wants to release an indirect block that is new; the code
   tests `start_idx == 0`. The parameter `ReleaseTest` selects either. With the code's test,
   `InodeSetSize` keeps the file system sound if and only if not `GrowthHazard`: the file has to grow, there
   is not even room for one more data block, and some indirect block on the way to the next position has
   data in a first child that is not full (`HazardLevels` spells this out for the levels in use). Then data
   in use is lost; no block is ever used twice, and no other file changes. `TestsAgree`, `TestsDiffer` and
   `HazardExample` compare the two tests, and `Runs.GrowthBreaksOnDisk` makes a disk on which it happens. With
   the comment's test there is no such case.
2. **The same in directories (dir.c:204).** A new entry that needs another block is written through the inode
   layer. On a full disk dir_insert returns -ENOSPC with nothing changed, except with the code's test at such a
   hazard: then live blocks of the directory are released. `DirStore.InsertStored` says exactly when.
3. **Short write (inode.c:705).** When the file cannot be extended far enough, the comparison raises
   `zero_endpos` instead of lowering it. The parameter `Clamp` selects either. `FullWriteExactCondition` says when
   a write is not short, by the free blocks before the call, and `ClampExactCondition` gives the exact cases in
   which both comparisons do the same. In all others the code's reports 0 bytes written and fills the whole
   range with zeros, existing bytes included, or fails an assertion. `ShortWriteOnDisk` and `StoppedWriteOnDisk`
   are such writes on a new disk.
4. **Slot counts (inode.c:27-31).** They are offered as configuration, but the conversions between slots
   and block numbers agree exactly for one slot of each kind: `SlotPlanExactCondition`.
5. **Free-inode list (block.c:74-81).** Links are negated numbers, and 0 is its own negation. Putting a number
   back keeps the list if and only if its head is not inode 0: `ReturnedExactCondition`, `Disk.InoFree`,
   `InodeFree`, `OpenFiles.Close`. Over sequences: freeing inode 0 does no damage yet, and the next number put
   back while 0 is the head breaks the list (`Runs.Run`; `ListBreaksOnDisk` is such a run). As long as
   the root directory, inode 0, is in use, it does not happen.
6. **Rename (path.c:505-517).** If the insertion fails for want of room, the target is gone all the same; no
   other error changes anything. Moving an entry onto itself removes it; if it is an empty directory the assertion
   on line 524 fails, and in no other case. `Paths.PathRename` states all this, each as an equivalence;
   `RenameLosesTarget` and `RenameAborts` are such runs. On a disk, a name removed is entered again
   unless it was the only entry of a block that is not the last, no other block has room for it, and there are no
   free blocks for another: `DirStore.Reinsert` has the equivalence (the blocks of a target that a rename frees in
   between count as free).
7. **Unlinking a directory (path.c:333-335)** fails without giving up the reference taken. `Paths.PathUnlink`
   says that a failed call keeps a reference in this case and in no other; `UnlinkKeepsReference` is such a run.
8. **Counters.** Link counts wrap at 2^64 and reference counts at 2^32. `PathLink` and `Open` keep their
   invariants if and only if the count does not wrap.
9. **Interior empty directory blocks (dir.c:182)** are never filled again, since their `nameoff` is not
   greater than 0: `EmptyStaysEmpty`.

## Model

| member | source | states |
|---|---|---|
| Geometry.SlotPlanExactCondition | inode.c:27-31 | the conversions between slots and block numbers agree, for every block and every slot, if and only if there is one slot of each level of indirection |
| Geometry.IndirectCounts | inode.c:86-94 | the block counts by level, defined by counting children, are 1, N, N*N and N*N*N |
| Geometry.ChildIsQuotient | inode.c:202-209 | the child a position lies under, found by counting, is the quotient the code divides for; its place there is the remainder |
| Geometry.OffsetToBlock | inode.c:63-65 | the quotient is the one block whose bytes include the offset |
| Geometry.SizeToBlocks | inode.c:403-404 | the rounded quotient is the number of blocks, counted one by one, that a file of that size has |
| Files.BlocksForIs | inode.c:403-404 | that number of blocks covers the size, and one less does not |
| Files.Locate | inode.c:416-419 | the three conversions made by every driver loop lead to the one slot whose span holds the block |
| Trees.LeafAtInjective | inode.c:202-231 | two data positions of a tree in which no block occurs twice never share a block |
| Trees.PruneShape | inode.c:295-306 | cutting a tree back leaves a pointer exactly where data below it stays |
| FreeLists.Disk.BlockAllocate | block.c:83-108 | takes one member out of the set of free blocks; fails, with nothing changed, exactly if the set is empty; writes only to free blocks and the superblock |
| FreeLists.Disk.BlockFree | block.c:110-137 | adds a block that was not free to the set; writes only to free blocks and the superblock |
| FreeLists.Disk.InoAllocate | block.c:62-72 | takes the head of the list of free numbers; fails, with nothing changed, exactly if there is none |
| FreeLists.Disk.InoFree | block.c:74-81 | puts a number back as the head; the list of free numbers stays sound if and only if the head was not 0, and the free blocks stay sound in any case |
| FreeLists.Disk.InoGet | block.c:49-53 | reads a number's entry of the table, found by quotient and remainder |
| FreeLists.Disk.InoGive | block.c:55-60 | storing the block of a number taken off the list leaves all other entries, and both lists, as they were |
| FreeLists.Disk.MkfsStorage | block.c:140-183 | both lists of a new disk are sound, and hold every data block and every inode number |
| FreeLists.ReturnedExactCondition | block.c:74-81 | with numbers linked by 64-bit negation, the list of free numbers is sound after one is put back if and only if the head was not 0 |
| FreeLists.TakenOk | block.c:62-72 | negating the entry of the head gives the next free number |
| FreeLists.HeadApart | block.c:83-108 | the chain is acyclic: its head differs from every block below it |
| FreeLists.HeadEntry | block.c:94-100 | changing one entry of the first list block exchanges exactly the two blocks in the set of free blocks |
| FreeLists.NewCollected | block.c:167-182 | the chain of a new disk lists every data block exactly once, as a list block or as an entry |
| FreeLists.NewInodes | block.c:156-165 | the negated numbers stored at first link all inode numbers, beginning with 0 |
| IndirectGrow.IndirectGrow | inode.c:137-246 | at every level, for all counts and every number of free blocks: fills exactly the positions from the old count on, up to the target or to where blocks run out; keeps all earlier positions and their data; reports exactly how many; loses no block and keeps no childless block; fails only if the next position cannot be paid for. With the source's test this holds if and only if there is no hazard, which the result reports |
| IndirectGrow.ChildRange | inode.c:201-212 | the first and the last child visited are those under which the positions begin and end |
| IndirectGrow.FirstIsChild | inode.c:207-209 | the first child visited is the one the next position falls to, and what that position costs |
| IndirectGrow.CountingStep | inode.c:219-231 | the children are filled one after the other, without a gap, until one of them fails |
| IndirectGrow.FailedCost | inode.c:219-231 | a loop that failed in a child left fewer free blocks than the next position costs the parent |
| IndirectGrow.AfterRelease | inode.c:233-242 | releasing the block leaves tree and free list as before if the block was new, and breaks the tree exactly otherwise |
| IndirectGrow.AfterWrite | inode.c:243-245 | writing the block back makes the grown children the grown tree |
| IndirectGrow.TestsAgree | inode.c:233-242 | the source's test releases nothing in use at one level of indirection, or if no data of the block was in use |
| IndirectGrow.TestsDiffer | inode.c:233-242 | it does for a double indirect block with one data block on a full disk |
| IndirectGrow.HazardLevels | inode.c:233-242 | when a double or a triple indirect block is at risk |
| IndirectShrink.IndirectShrink | inode.c:250-309 | the tree becomes its first positions, all its other blocks are free and no others are, the data that stays is untouched, and the count is exact |
| IndirectShrink.AllMissing | inode.c:281-300 | after the loop over the children all pointers are missing exactly if no data is to stay |
| IndirectShrink.Everything | inode.c:297-300 | the scan stops at the first pointer there is |
| IndirectTransfer.IndirectReadWrite | inode.c:312-383 | moves exactly the bytes of the range that lie below the pointer, to or from the right place in the buffer, changes no other byte of disk or buffer, returns their number, and never follows a missing pointer |
| IndirectTransfer.CopyBounds | inode.c:317-332 | where a range meets a data block, in the block and in the buffer |
| IndirectTransfer.PatchedIsSpliced | inode.c:337-347 | overwriting a block in part, or whole without reading it, puts every byte of the range where it belongs and keeps the others |
| IndirectTransfer.BlockRange | inode.c:354-367 | the children visited are those under which the range begins and ends |
| IndirectTransfer.MovedAll | inode.c:369-382 | the counts returned for the children add up to the bytes of the range below the block |
| Files.FsStep | inode.c:386-542 | a change that exchanges blocks between one file and the free list keeps the partition of the data area, and every other file |
| Resize.GrowSlots | inode.c:413-437 | the slots grown are consecutive, so the assertion on line 422 holds; the file is filled without a gap up to the target or to where blocks run out |
| Resize.ShrinkSlots | inode.c:439-463 | the slots cut are consecutive, so the assertion on line 448 holds; the file is cut to exactly the target |
| Resize.NextSlot | inode.c:416-423 | each round grows the slot after the last, from what it held before the call |
| Resize.PreviousSlot | inode.c:442-449 | each round cuts the slot before the last |
| Resize.PrefixBytes | inode.c:413-463 | the bytes of all data blocks that are still there are as they were |
| SetSize.InodeSetSize | inode.c:386-482 | the size stored is `ReachedSize`, a function of the old size, the request and the number of free blocks, and so is the number of blocks left free; the bytes both sizes have are unchanged; no other file changes. The file system stays sound if and only if there is no growth hazard, a condition on the same three numbers |
| Counting.StoredSize | inode.c:466-473 | the size stored calls for exactly the blocks there are, is never above the cap, and never below the old size when growing |
| SetSize.Stored | inode.c:466-481 | writing the inode back with its new pointers and size makes the whole change |
| Counting.ReachedSizeExactCondition | inode.c:413-473 | the size asked for, capped, is reached if and only if the blocks that the file lacks cost no more than are free; otherwise the file is not cut and ends with a whole block |
| Counting.ReachedSizeIsLargest | inode.c:413-473 | when it is not reached, the file ends with the blocks that could be paid for, and the next one costs more than is left |
| Counting.FileSizeStep | inode.c:413-437 | the blocks of a file of n + 1 data blocks, indirect blocks counted, are those of a file of n and what the next data block costs |
| Counting.SizeConserved | inode.c:137-309 | blocks that move between the free list and a tree, none of them twice, are counted on both sides |
| SetSize.HazardExample | inode.c:233-242 | the hazard occurs for a file with one data block under its double indirect block and a full disk (`Runs.GrowthBreaksOnDisk` makes that disk) |
| SlotTransfer.WriteSlots | inode.c:714-742 | for any range within the file: the slots are visited in order, the assertions on lines 728 and 748 hold, zeros go to the first part and the data to the second, and no other byte of the file changes |
| SlotTransfer.ReadSlots | inode.c:777-802 | for any range within the file: the slots are visited in order, the assertions on lines 788 and 807 hold, and the buffer gets exactly the bytes of the range |
| SlotTransfer.NextRange | inode.c:719-727 | a round that does not begin where zeros end begins with the slot after the last |
| SlotTransfer.SlotBytes | inode.c:729-739 | a transfer below one slot changes exactly the bytes of the range that lie in its span of the file |
| FileIO.InodeWrite | inode.c:667-751 | for every file, position, data and number of free blocks, and both variants of each of the two doubtful comparisons: how the call ends (which count is returned, whether the source stops at an assertion, whether a live block is released), what the contents are then (at an assertion: the old ones, in a longer file), and how many blocks are free, all from the state before the call; no other file changes; the file system is sound afterwards if and only if no live block was released |
| FileIO.WrittenIs | inode.c:684-709 | the bounds computed before the loop lead to the contents and the count that the write is specified by |
| FileIO.FullWriteMeans | inode.c:667-751 | with room for it, a write reports all its bytes; every byte of the range is the one written, from the end of the file on if the position is -1; every other is as it was, and a gap before the range is zeros |
| FileIO.AppendMeans | inode.c:678-680 | a write at position -1, with room for it, leaves the old contents followed by the bytes written |
| FileIO.ShortWriteMeans | inode.c:698-712 | without room the file ends at the last block that can be paid for; byte by byte, and with the count reported, what either comparison leaves there, or that the source stops at an assertion |
| FileIO.FullWriteExactCondition | inode.c:684-709 | a write is complete if and only if it ends within the file, or the size is allowed and the blocks that the file lacks cost no more than are free |
| FileIO.ClampExactCondition | inode.c:702-708 | exactly when, in terms of file, position, data and free blocks before the call, the source's comparison does what the opposite one does; in the other cases it reports 0 and zeroes the range |
| Runs.ShortWrite | inode.c:702-708 | two blocks are written to an empty file with room for one: the source's comparison reports 0 and leaves a block of zeros, the opposite one reports and leaves the first block |
| Runs.ShortWriteOnDisk | inode.c:702-708 | that write on a new disk |
| Runs.StoppedWriteOnDisk | inode.c:702-727 | a write that begins past the one block there is room for stops at an assertion, on a new disk |
| FileIO.InodeRead | inode.c:754-809 | returns exactly the part of the file that the range covers, and changes nothing else in the buffer or on the disk |
| FileIO.ReadBack | inode.c:667-809 | reading where something was written yields it |
| FileIO.ReadElsewhere | inode.c:667-809 | reading elsewhere yields what was there before the write |
| FileIO.InodeTruncate | inode.c:811-830 | the contents become their first bytes, followed by zeros up to the size reached, a function of the state before the call; with either release test, and sound afterwards if and only if no live block was released |
| FileIO.TruncateMeans | inode.c:811-830 | the size is the one asked for, if cutting or if it is allowed and can be paid for, and else the largest that can; the bytes both sizes have are as they were, and all others are zeros |
| FileIO.CutAndExtended | inode.c:811-830 | cutting a file and extending it again exposes none of the bytes cut |
| Inodes.InodeAllocate | inode.c:485-519 | the first free number gets an empty file without links; if there is no free number or no free block, and only then, nothing changes |
| Inodes.InodeFree | inode.c:522-542 | a file without links disappears, its number is free again and all its blocks are; for a file with links, or no file, the result is -1 and nothing changes. The file system stays sound if and only if, when a number is put back, the list of free numbers does not begin with 0 |
| Inodes.InodeLink | inode.c:630-645 | adds one to the link count of one file, modulo 2^64, and changes nothing else |
| Inodes.InodeUnlink | inode.c:648-663 | subtracts one from the link count of one file, modulo 2^64, and changes nothing else |
| Inodes.InodeChmod | inode.c:545-560 | changes whether one file is a directory, and nothing else |
| Inodes.StoragePartition | inode.c:386-542 | every block of the data area is on the free list, or in exactly one place of exactly one file; the superblock counts the first kind |
| Inodes.FreeFollows | inode.c:386-542 | the set of free blocks is determined by the files |
| Runs.Run | inode.c:386-830 | over any sequence of allocating, truncating, writing, freeing (inode 0 as well), linking, unlinking and changing modes, on a new disk, with any variant of the two comparisons: the disk does what a deterministic model does, which knows only the files, the free numbers and how many blocks are free; and the file system is sound at the end if and only if the model says so |
| Runs.Perform | inode.c:485-830 | one step of that refinement: ending, files, free numbers and number of free blocks follow from those before |
| Runs.AppendStep | inode.c:678-680 | writing at position -1 is writing at the end of the file, short and failing writes included |
| Runs.ListBreaks | block.c:74-81 | allocating two inodes and freeing them, inode 0 first, breaks the list of free numbers, on every new file system with two numbers and two blocks |
| Runs.ListBreaksOnDisk | block.c:74-81 | the same on the disk: it is not valid at the end |
| Runs.GrowthBreaksOnDisk | inode.c:233-242 | a new disk is filled by one file, soundly, and extending the file by one block then releases a block in use |
| Inodes.ResizeBack | inode.c:386-482 | setting a size not below the present one, and then the old size again, restores the free blocks, the file's blocks and its bytes |
| Inodes.WriteAndDiscard | inode.c:485-751 | making a file, writing to it and freeing it restores the free blocks, the free numbers and all files; with either variant of both comparisons it gets to its end exactly if there are a number and a block, and the write does not stop at an assertion; if it cannot begin nothing has changed, and if it stops only the new file has |
| DirBlocks.ScanAt | dir.c:134-140 | at every entry the scan finds that entry's name, terminated, and moves on to the next one's |
| DirBlocks.Buffer.Scan | dir.c:174-180 | finds the name among the entries of a block, or the place where they end |
| DirBlocks.Buffer.Put | dir.c:201-202 | the entry is appended; the name is terminated because unused bytes are zero |
| DirBlocks.Buffer.Take | dir.c:254-258 | exactly one entry goes; the block is compacted, and its unused bytes are zero |
| DirBlocks.TakenPacked | dir.c:254-258 | moving both tables down leaves a packed block with the other entries, in order |
| Directories.MapIs | dir.c:17-21 | the map of a directory is determined by its entries, whose names are unique |
| Directories.EntryTaken | dir.c:241-261 | taking an entry out of a block takes exactly its name out of the map |
| Directories.EntryCut | dir.c:246-252 | cutting off the last block, and the empty ones before it, takes exactly one name out of the map |
| Directories.Directory.constructor | dir.c:37-62 | a new directory maps ".." to its parent and "." to itself, and nothing else. Inode and first write are `DirStore.CreateStored` |
| Directories.Directory.Lookup | dir.c:117-145 | the inode number the map has for the name, ".." and "." included, and in a destroyed directory too; ENOENT exactly for a name that is not bound, ENOTDIR and ENAMETOOLONG as the checks before the search say |
| Directories.Directory.Insert | dir.c:148-209 | adds one binding, at the end of the fullest block with room for it or in a new block; EEXIST for a name that is bound, ENOSPC exactly if there is no room, the other errors in order, each with nothing changed; a destroyed directory gains no entry. What the call on the file does is `DirStore.InsertStored` |
| Directories.EmptyStaysEmpty | dir.c:182-187 | an empty block is never chosen for a new entry |
| Directories.Directory.FindRoom | dir.c:171-189 | the block chosen is the fullest that has room for the name |
| Directories.Directory.Remove | dir.c:212-273 | removes exactly the named binding and returns its inode number, closing up its block or cutting off the blocks that would be empty at the end; ENOENT for a name that is not bound, EINVAL and ENOTEMPTY for "." and "..", which stay, each error with nothing changed; one write of a block, or one cut, makes the change |
| Directories.Directory.Destroy | dir.c:65-93 | in a directory that is not destroyed: 0 if no name other than ".." and "." is bound, and ENOTEMPTY otherwise; only then is it marked |
| Directories.OnlyDots | dir.c:78-88 | compaction makes the test exact: one block whose third number is unused means that nothing but ".." and "." is bound, and conversely |
| Directories.Directory.Reparent | dir.c:96-114 | changes the binding of ".." only |
| Directories.Directory.Enumerate | dir.c:278-323 | yields the first of the entries that remain from an offset on, and an offset from which the others remain; 0 exactly if none does |
| Directories.EnumerateAll | dir.c:275-323 | following the offsets returned, from 0 on, yields every entry once, in the order of storage, and ends |
| Directories.RemainingAll | dir.c:281-282 | from offset 0 on, what remains are all entries, block by block |
| DirLayout.BlockBack | dir.c:27-34 | a block stored as bytes, eight for each number and then the name table, is read back as it was, for all numbers of 64 bits and characters of 8 |
| DirLayout.PackedUnique | dir.c:22-25 | a block has one reading: the entries found in it are determined |
| DirStore.AppendExactCondition | dir.c:204-206 | writing a block at the end of a file of whole blocks ends in one of three ways, decided by the number of blocks, the number of free blocks and the release test: the whole block is added, or none of it, or, without room and at a hazard, a live indirect block is released; the other comparison makes no difference |
| DirStore.Appended | dir.c:204-206 | without the hazard the file has one block more, for exactly what it costs in free blocks, or is unchanged |
| DirStore.AppendHazardExample | inode.c:233-242 | the hazard occurs for a directory with one block under its double indirect block and a full disk |
| DirStore.BlockRead | dir.c:134 | reading at a multiple of the block size yields one block of the directory, without its last byte if the directory was destroyed, and nothing past the end |
| DirStore.BlockWritten | dir.c:204 | writing there replaces that block, or adds one at the end, and no other block changes |
| DirStore.BlocksCut | dir.c:252 | cutting the file there takes exactly the last blocks away |
| DirStore.FileDetermines | dir.c:22-34 | the bytes of its file determine a directory: blocks, entries, and whether it was destroyed |
| DirStore.ReadDir | dir.c:134 | reading block after block from the disk, until nothing is read, yields the directory stored there |
| DirStore.InsertStored | dir.c:148-209 | on a disk: the entry is added exactly if it fits into a block or there are free blocks for another, ENOSPC means that nothing changed, and both hold unless a live indirect block is released, exactly when the entry needs a block, there is no room and the directory is at a hazard |
| DirStore.RemoveStored | dir.c:212-273 | on a disk: the binding goes from the file as it does from the map; the assertions on lines 252 and 259 hold, whatever is free |
| DirStore.ReinsertExactCondition | dir.c:182-206 | where an entry has been removed there is room for one of the same name, except if it was the only entry of a block that is not the last, no other block has room, and there are no free blocks for another: the state in which a rename over a target that is not freed fails for want of room |
| DirStore.Reinsert | dir.c:148-273 | removing a name and entering it again, on a disk, fails exactly in that state, and then the name is gone |
| DirStore.DestroyStored | dir.c:65-93 | on a disk: the file loses its last byte exactly if the directory maps ".." and "." only; the assertion on line 91 holds |
| DirStore.ReparentStored | dir.c:96-114 | on a disk: the file follows the new parent; the assertion on line 112 holds |
| DirStore.CreateStored | dir.c:37-62 | gets the first free number and an inode that is a directory holding ".." and ".", exactly if there are a number, a block for the inode and blocks for the first write; otherwise, also after the failed write, files, free numbers and free blocks are as before |
| OpenTables.Table.FindNodeLoc | refs.c:20-37 | finds an inode's node exactly if it is open, and otherwise its place in the sorted chain of its bucket |
| OpenTables.Table.Insert | refs.c:53-58 | splices one entry in; chains stay sorted and in their buckets |
| OpenTables.Table.Delete | refs.c:73-77 | splices one entry out |
| OpenTables.InChain | refs.c:23-27 | in a sorted chain, the first number not less than the one sought decides whether it is there |
| OpenFiles.OpenFiles.Open | refs.c:40-61 | counts a reference, modulo 2^32; fails exactly if there is no such inode; the cached link count is the one on disk. Table and disk stay sound if and only if the count does not wrap |
| OpenFiles.OpenFiles.Close | refs.c:64-87 | counts a reference less; the inode is freed if and only if that was the last one and it has no links. Table and disk stay sound if and only if, when it is freed, the list of free numbers does not begin with 0 |
| OpenFiles.OpenFiles.Link | refs.c:90-97 | adds a link on disk and in the table alike, and frees nothing |
| OpenFiles.OpenFiles.Unlink | refs.c:100-107 | removes a link on disk and in the table alike, and frees nothing |
| Paths.Paths.constructor | path.c:532-541 | creating, opening, linking and closing inode 0 makes a root directory that is empty, its own parent, has one link and is not open |
| Paths.Paths.PathLink | path.c:284-315 | enters an inode under a new name and counts the link, only with permission; every error, in order, as a condition on the maps before the call, EEXIST for a name that is there, with nothing changed; link counts agree with entries afterwards if and only if the count did not wrap |
| Paths.Paths.PathUnlink | path.c:318-350 | removes one entry and one link, only with permission, and the inode if that was all; every error, in order, with files and directories unchanged; a reference is kept if and only if the path is valid and the name leads to a directory; link counts agree with entries either way |
| Paths.Paths.PathMkdir | path.c:353-399 | enters a new empty directory with one link, only with permission; every error, in order, EEXIST for a name that is there, with nothing left behind; link counts agree with entries either way. Number and room are what `Layers.MakeDirStep` and `Layers.InsertStep` find |
| Paths.Paths.PathRmdir | path.c:402-436 | removes the one entry of a directory that binds no other name than ".." and ".", and its link, only with permission; ENOTEMPTY if it does, every other error, in order, with nothing changed; files and directories afterwards are given exactly; link counts agree with entries either way |
| Paths.Paths.PathRename | path.c:440-530 | the result is a condition on the maps before the call, error by error: permission is needed on both directories, and kind and contents of the target decide. Files, directories and references afterwards are given exactly as a function of those before, after every error and after success: a replaced target loses its link and is freed if that was all, no other file changes, only the moved directory gets another parent; the entries afterwards are those before, with the inode under the new name and not under the old; after an error the target is gone if and only if there was one and the error is ENOSPC, and otherwise nothing has changed; the last assertion fails if and only if a directory is moved onto itself; link counts agree with entries in every case |
| Paths.UnlinkKeepsReference | path.c:333-335 | from a new file system: mkdir "a" and unlink "a" end with EPERM and a reference to the directory |
| Paths.RenameAborts | path.c:519-525 | from a new file system: mkdir "a" and rename "a" to "a" stop at the assertion, with the entry gone |
| Paths.RenameLosesTarget | path.c:505-517 | from a new file system: two files entered as "a" and "b"; renaming "a" to "b" without room ends with ENOSPC, "a" still there and "b" gone |
| Paths.LinkCount | path.c:284-541 | in a sound state an inode other than the root has no link if and only if no entry names it; this is what freeing relies on |
| Paths.FindIs | refs.c:110-121 | what a path leads to: looking a name up succeeds exactly for the entries there are, and yields an inode that exists and has a link, in a directory that has not been destroyed |
| Paths.Run | path.c:284-541 | from the steps of mkfs_path on, over any sequence of creating, opening, closing, linking, unlinking, making and removing directories and renaming: the link count of every inode is the number of entries that name it, other than "." and "..", one more for the root, every entry names an inode there is, and no inode is left without a link and without a reference, unless the 64-bit link count of an inode has wrapped |
| Paths.EntriesGrow | path.c:310-314 | a new entry counts once, for the inode it names |
| Paths.EntriesShrink | path.c:345-347 | an entry removed counted once, for the inode it named |
| Paths.Freed | refs.c:79-84 | an inode freed was named by no entry, and its directory held none |
| Layers.OpenedIsStep | refs.c:40-61 | seen as maps, what refs_open does to the table is a step on the maps |
| Layers.ClosedIsStep | refs.c:64-87 | so is what refs_close does to the table and the disk |
| Layers.CountedIsStep | refs.c:90-107 | so is adding or removing a link, on disk and in the table, modulo 2^64 |
| Layers.InsertStep | dir.c:148-209 | dir_insert, on the directory read from its file, does to the disk what the step does to the maps, with `room` as found; EEXIST for a name in the map |
| Layers.RemoveStep | dir.c:212-273 | so does dir_remove |
| Layers.DestroyStep | dir.c:65-93 | so does dir_destroy; ENOTEMPTY exactly if the map has another name than ".." and "." |
| Layers.ReparentStep | dir.c:96-114 | so does dir_reparent |
| Layers.MakeDirStep | dir.c:37-62 | so does dir_create: it gets the first free number, exactly if there are blocks enough |
| Layers.FindStep | dir.c:117-145 | dir_lookup, on the directory read from its file, finds what the map has, and ENOENT, ENOTDIR or ENAMETOOLONG exactly where the checks say so |
| Layers.MakeFileStep | inode.c:485-519 | inode_allocate does to the disk what a new file does to the maps |
| Layers.PerformStep | refs.c:40-107 | every step, on a sound disk and table that the maps show: result and maps afterwards are those of the step, with what was found about room or a number; or a reference count of 2^32 - 1 is counted up, or a live block is released |
| Layers.RootOnDisk | path.c:532-541 | mkfs_path on a new disk: its assertions hold if and only if there are blocks for the root directory, which then is empty, its own parent, has one link and is not open |
| Layers.Follow | path.c:284-541 | any sequence of steps that the path operations can make, on one disk: as long as the disk finds what the steps record, every result is the recorded one, and files, stored directories and open files are those of the maps; and how it can depart |
| Layers.RunOnDisk | path.c:284-541 | any sequence of path operations, on maps and on a new disk: if the disk follows, then at the end it is sound, every directory of the maps is the one stored in its file, references are those of the table, every link count on the disk is the number of entries that name the inode, one more for the root, and every file on the disk has a link or is open, so that no number and no block is lost |

## Left out

- candyfs.c, mkfs.c: mounting, argument parsing and the FUSE callbacks.
- disk.c: device I/O; the disk is an array, and all accesses are in range.
- namei, path_open and symbolic links: path resolution; the operations take the parent directory and the name that a handle holds.
- perm.c, file.c, symlink.c: the results of permission checks, of chown and of chmod are parameters.
- Time stamps, owners and modes: an inode has its type, its link count, its size and its pointers.
- The bytes of records other than directory blocks: blocks are records, and the bytes seen when one is read as data are an unspecified function of it.
- Negative sizes and positions, double frees, and a file system without inode table.
- Reference balance of the path operations other than what their contracts state, and cycles among directories.
- FileIO.InodeWrite: after a live block has been released, the rest of the call is not followed; when the source stops at an assertion, what it had written of the range by then is not stated, only that the file is longer and begins as before. InodeTruncate and InsertStored stop at the same point.
- Runs.Run: stops at the first operation that does not end well, and states what the disk is only up to there.
- Directories.Directory.Insert: whether the file can be extended is a parameter here; DirStore.InsertStored has the whole call.
- Directories.Directory.constructor: the inode is made by the caller here; DirStore.CreateStored has the whole call.
- OpenFiles.OpenFiles.Close: after the list of free numbers has been broken, table and disk are not described.
- Paths.Paths.PathLink: like all of `Paths`, it works on maps, and takes as parameters what a disk would find about room and about new numbers; `Layers.RunOnDisk` relates it to the disk for those runs in which the disk finds the same, and describes the first step at which it does not.
- Layers.RunOnDisk: inode_getinfo and the permission checks are reads of the maps, not steps; after a reference count has wrapped around, or a live block has been released, the disk is not followed further.
- Layers.PerformStep: numbers outside the inode table are taken for inodes that do not exist.
- Paths.Paths.PathRename: names are other than "." and "..", as for all the path operations.
