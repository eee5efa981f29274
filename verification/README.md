# Pintos kernel models

Dafny models of the data structures and protocols at the core of a Pintos kernel, with
proofs about them. `dafny verify dfyconfig.toml` checks the whole project.

## What is modelled

- **Intrusive lists** (`Order`, `KernelList`, `ListSort`, `Lists`, `ListFamily`). Elements are heap
  objects whose `prev` and `next` fields are rewritten in place. `list_sort` is proved to
  leave a well-formed doubly linked list of the same elements that is *the* stable sort of
  the old one: it equals inserting the elements one by one. A pass at least halves the
  number of natural runs, which gives termination and a logarithmic bound on passes.
- **Inodes** (`Bits`, `Bitmap`, `BitmapBytes`, `MapFile`, `FileSys`, `InodeLayout`,
  `InodeGrowth`, `InodeBytes`, `Inode`, `InodeIO`, `FileHistory`, `InodeFree`, `FreeMapFile`). Ten direct
  pointers, a single- and a double-indirect block over a free map over a word-packed
  bitmap. A file is proved to be one flat byte string under any sequence of writes, each
  byte what the last write that reached it put there, and what deallocation gives back and what it loses is counted to the sector. Index blocks go
  through their byte encoding on disk. Past the capacity of an inode, growth returns a
  length that can be below the old one; exactly when, and what the file then holds, is
  proved.
- **The free map's own file**, which every allocation and release rewrites. Growing or
  removing a file leaves any other file alone exactly if it is not this one or no sector
  changed hands. While it can be written the file decodes to the map, so mounting the
  device again finds it; when a write of the map is cut short, exactly which allocations
  and releases leave the two out of step is proved.
- **64-bit division** (`Arithmetic`). The estimate-and-correct algorithm, with its error
  bound, and the exact conditions under which the signed and 32-bit forms are right.
- **Hash table** (`PowerOfTwo`, `HashBuckets`, `HashTable`, `HashIterator`). Any sequence
  of operations is a sequence of operations on a set, whatever memory rehashing finds, and
  to a caller the table is one cell for each class of equal elements.
- **Page allocator and malloc** (`Palloc`, `MallocBlocks`, `MallocHeap`, `MallocSteps`,
  `Malloc`). Live blocks never overlap, every block is live or listed, no wholly free
  arena stays, and nothing is kept once everything is freed.
- **Scheduler, semaphores, locks, donation, alarm clock** (`Scheduler`, `SchedulerRuns`,
  `SchedulerWaits`, `ThreadQueues`, `SchedulerMachine`, `Locks`, `Donation`, `Timer`). A region with
  interrupts off is one atomic step; theorems are about every interleaving of steps. The
  kernel that takes the steps keeps its ready list and its wait lists as linked lists of
  the one element that each thread has, and they stay sound and disjoint. A semaphore's value
  is accounted for from `sema_init` on, and the holder of a lock is exactly the thread that
  completed an acquire of it and has not begun to release it.
- **Page tables** (`PageBits`, `PageDir`). The two-level table of section 3.7.6 of the
  IA-32 manual, volume 3A, refines a map from pages to frames.
- **Library code** (`HeapSort`, `Numerals`, `Printf`, `PrintfShape`, `PrintfParse`, `PrintfRoundTrip`,
  `UstarFields`, `Ustar`, `UstarParse`). Heapsort and binary search; printing and reading
  of integers; archive headers in the "ustar Interchange Format" of the `pax` utility in
  POSIX.1-2001.

Conventions. A sector read or write and the `divl` instruction are primitives. Memory that
the C code may fail to get is a parameter (`memory`, or the page that the allocator would
return); without it a transfer of bytes stops at the first part of a sector. An assertion
of the C code is a precondition, or a fact that is proved where it stands. Null pointers
and error codes are `Option` or a result datatype. `ghost` parameters and fields carry the
abstract value: the chain of a list, the flat sector sequence of an inode.

Where the code and its comments differ, the model follows the code: `inode_write_at`
extends files although its comment says it does not, `pg_round_up` wraps to 0 above
0xfffff000, `ptov`'s assertion admits addresses that it maps below the kernel, and
`inode_create` stores the length it was asked for even when an inode cannot hold it.

## Model

| member | source | states |
|---|---|---|
| `Order.RunIsSorted` | lib/kernel/list.c:342-351 | Under a strict weak order, neighbours in order means all pairs in order, so is_sorted's local test is enough |
| `Order.MoveBackStable` | lib/kernel/list.c:392-399 | Moving an element left past elements it is less than is a permutation that keeps every pair that was in order |
| `Order.StableSortUnique` | lib/kernel/list.c:402-441 | A sequence of distinct elements has only one stable sort |
| `Order.InsertionSortIsStableSort` | lib/kernel/list.c:443-460 | Inserting elements one by one with list_insert_ordered gives a stable sort |
| `Order.InsertOrderedSorted` | lib/kernel/list.c:443-460 | Ordered insertion keeps a list sorted and puts a newcomer behind its equals |
| `Order.RunsPeel` | lib/kernel/list.c:353-373 | A maximal run in front counts as exactly one of the natural runs |
| `KernelList.InsertBefore` | lib/kernel/list.c:169-179 | list_insert's four writes leave a well-formed chain with the element at that place |
| `KernelList.Unlink` | lib/kernel/list.c:249-256 | list_remove leaves a well-formed chain without the element, returns its successor, and leaves the element's own links |
| `KernelList.SpliceLinks` | lib/kernel/list.c:191-204 | The statements of list_splice make exactly the six writes, and leave the chain as it is when the run already ends at the target |
| `KernelList.Splice` | lib/kernel/list.c:184-205 | Within one list, list_splice's six writes move the run before the target, in either direction, and the chain stays doubly linked |
| `KernelList.SplicedLinked` | lib/kernel/list.c:196-204 | After the six writes, next and prev agree along the whole rearranged sequence |
| `KernelList.SpliceAcross` | lib/kernel/list.c:184-205 | Between two lists, the run leaves one chain and joins the other, and both are doubly linked |
| `KernelList.ReverseChain` | lib/kernel/list.c:326-338 | list_reverse's pointer swaps reverse everything between the sentinels |
| `ListSort.FindEndOfRun` | lib/kernel/list.c:358-373 | The result ends the longest nondecreasing run from the start, up to any given end: the next element is less than the run's last |
| `ListSort.MergeStep` | lib/kernel/list.c:392-399 | Either branch of the merge loop keeps all pairs sorted but those across the two remaining runs, and is stable |
| `ListSort.MergeOne` | lib/kernel/list.c:392-399 | One iteration of the merge: an element stays or its successor moves before it, the chain stays linked and the rest sorted |
| `ListSort.InplaceMerge` | lib/kernel/list.c:380-400 | Two sorted neighbouring ranges become one sorted range, stably, and nothing outside it moves |
| `ListSort.PassMergesTwoRuns` | lib/kernel/list.c:422-436 | An iteration of a pass turns two natural runs into at most one output run |
| `ListSort.PassStep` | lib/kernel/list.c:422-436 | One iteration merges the two runs at its start, or finds that the rest is one run |
| `ListSort.Pass` | lib/kernel/list.c:421-436 | A pass over r natural runs counts (r + 1) / 2 output runs and leaves at most so many, stably |
| `ListSort.SortChain` | lib/kernel/list.c:405-441 | list_sort ends sorted, stable and well-formed; p passes mean that 2^(p-1) is below the number of natural runs |
| `Lists.List.PushFront` | lib/kernel/list.c:209-213 | The element is in front and the list is well-formed |
| `Lists.List.PushBack` | lib/kernel/list.c:217-221 | The element is at the back and the list is well-formed |
| `Lists.List.Remove` | lib/kernel/list.c:249-256 | The element is gone, the order of the others is kept, the successor or the tail is returned |
| `Lists.List.PopFront` | lib/kernel/list.c:260-266 | The front and the rest make up the old list |
| `Lists.List.Reverse` | lib/kernel/list.c:326-338 | The list is its elements backward, for every length |
| `Lists.List.InsertOrdered` | lib/kernel/list.c:446-460 | The loop finds the place before the first element that the new one is less than |
| `Lists.List.Sort` | lib/kernel/list.c:402-441 | The list is its only stable sort, the one that one-by-one insertion gives, in logarithmically many passes |
| `ListFamily.SoundKept` | lib/kernel/list.h:6-30 | Editing one of several lists, with an element that is on no other, leaves all of them doubly linked and disjoint |
| `ListFamily.InsertInto` | lib/kernel/list.c:446-460 | So ordered insertion into one of several lists changes what is on that list only, and all stay sound and disjoint |
| `ListFamily.PopFrom` | lib/kernel/list.c:260-266 | So does taking the front, which is then on no list |
| `ListFamily.SortIn` | lib/kernel/list.c:402-441 | So does sorting |
| `Arithmetic.Nlz` | lib/arithmetic.c:41-73 | The number of leading zeros: shifting by it brings the leading one to bit 31 |
| `Arithmetic.EstimateError` | lib/arithmetic.c:100-126 | The product bound that keeps the normalised estimate within one of the quotient |
| `Arithmetic.Estimate` | lib/arithmetic.c:100-126 | For all operands, no shift wraps, divl does not trap, and the estimate is the quotient or one more |
| `Arithmetic.Correction` | lib/arithmetic.c:122-126 | The final comparison holds exactly when the estimate is one too large, with no wrap-around |
| `Arithmetic.ShortDivision` | lib/arithmetic.c:81-98 | The two 32-bit divisions of the first branch fit and add up to the quotient |
| `Arithmetic.UDiv64` | lib/arithmetic.c:75-127 | The quotient, for every 64-bit numerator and nonzero divisor |
| `Arithmetic.UMod64Exact` | lib/arithmetic.c:129-135 | umod64 is the remainder if and only if the remainder fits in 32 bits |
| `Arithmetic.SDiv64Exact` | lib/arithmetic.c:137-146 | sdiv64 truncates toward zero for every pair of operands but the most negative number and -1 |
| `Arithmetic.TruncatesUnique` | lib/arithmetic.c:137-146 | Only one number is the quotient truncated toward zero |
| `Arithmetic.SMod64Exact` | lib/arithmetic.c:148-154 | smod64 is the remainder of truncating division if and only if that fits in an int |
| `Arithmetic.RemaindersCut` | lib/arithmetic.c:129-154 | An unsigned and a signed remainder that the 32-bit result types cut |
| `Bits.SomeFree` | lib/kernel/bitmap.c:231-246 | The count of clear bits is positive if and only if there is one |
| `BitmapWords.OneBit` | lib/kernel/bitmap.c:35-47 | Setting or clearing one bit of a word by its mask leaves the other bits alone |
| `BitmapWords.Bitmap.constructor` | lib/kernel/bitmap.c:76-94 | A new bitmap is all clear |
| `BitmapWords.Bitmap.Set` | lib/kernel/bitmap.c:143-179 | One bit of the sequence changes |
| `BitmapWords.Bitmap.Test` | lib/kernel/bitmap.c:196-203 | The bit of the sequence |
| `BitmapWords.Bitmap.SetMultiple` | lib/kernel/bitmap.c:216-228 | Exactly the bits of the group change |
| `BitmapWords.Bitmap.Contains` | lib/kernel/bitmap.c:248-263 | True if and only if some bit of the group has the value |
| `BitmapWords.Bitmap.Scan` | lib/kernel/bitmap.c:289-310 | The least start of a long enough group, or an error if and only if there is none |
| `BitmapWords.Bitmap.ScanAndFlip` | lib/kernel/bitmap.c:312-326 | The same, and only that group is flipped |
| `BitmapWords.LastMasked` | lib/kernel/bitmap.c:62-70 | Masking the last word clears the bits past the end and no others |
| `BitmapWords.Bitmap.Load` | lib/kernel/bitmap.c:338-351 | The bits of the words read, with those past the end clear |
| `BitmapBytes.MapRoundTrip` | lib/kernel/bitmap.c:338-360 | The bytes that bitmap_write writes are read back as the same words |
| `BitmapBytes.BitInFile` | lib/kernel/bitmap.c:353-360 | Bit 8 i + j of the map is bit j of byte i of the file |
| `MapFile.PartBits` | lib/kernel/bitmap.c:353-360 | A file that only the first words were written to stands for those bits of the new map and the rest of the old |
| `MapFile.OtherMapOtherBytes` | lib/kernel/bitmap.c:353-360 | Files of different maps have different bytes |
| `FileSystem.FileSys.constructor` | filesys/free-map.c:12-20 | Only the free map's and the root directory's sectors are in use |
| `FileSystem.FileSys.WriteSectors` | filesys/inode.c:314-362 | From the start of a file, byte by byte, all of the buffer is on its sectors, or its whole sectors where there is no bounce buffer |
| `FileSystem.FileSys.WriteMap` | lib/kernel/bitmap.c:353-360 | Only the map's file is written; it stands for the map, or, cut short, for the new map's first bits and the old map's rest |
| `FileSystem.FileSys.FreeMapAllocate` | filesys/free-map.c:22-41 | First fit of sectors not in use; only sectors of the map's file are written, and it holds the new map; if it cannot all be written the map is as it was, and the file is in step exactly if the run lies past the part that was |
| `FileSystem.FileSys.FreeMapRelease` | filesys/free-map.c:43-50 | Exactly the given sectors are freed and only the map's file is written; it holds the map exactly if all of it could be written or the run lies in the part that was |
| `FileSystem.TornAllocate` | filesys/free-map.c:31-37 | After an allocation that could not be written in full the file stands for the map exactly if the run is empty or past what was written |
| `FileSystem.TornRelease` | filesys/free-map.c:48-49 | After such a release, exactly if the run is empty or in what was written |
| `FileSystem.FileSys.FreeMapOpen` | filesys/free-map.c:52-61 | The map is what the bytes of the file decode to |
| `FileSystem.FileSys.ReadSectors` | filesys/inode.c:245-287 | The first bytes of the file, sector by sector |
| `FileSystem.FileSys.AllocateOne` | filesys/inode.c:462-462 | The least free sector, which the map and its file then show; on a full device, or if the map cannot be written, the pointer stays what it was |
| `FileSystem.FileSys.AllocateZeroed` | filesys/inode.c:423-424 | The same for a data sector, which is then zero on disk; on a full device the sector that is zeroed is the one the pointer happened to name, whoever owns it |
| `InodeLayout.DecodeEncode` | filesys/inode.c:31-35 | An index block survives being written to a sector and read back |
| `InodeGrowth.GrownApart` | filesys/inode.c:409-539 | Growth keeps the inode off the sectors of the free map's file, and the file in step |
| `InodeGrowth.GrownContents` | filesys/inode.c:409-539 | What the data sectors hold is extended by zeros |
| `Inodes.Inode.DirectAlloc` | filesys/inode.c:419-428 | The direct loop adds zeroed sectors to the flat sequence and keeps the index structure sound |
| `Inodes.Inode.FillSingle` | filesys/inode.c:466-471 | The loop over the single-indirect block in memory, from where it was left |
| `Inodes.Inode.SingleBlock` | filesys/inode.c:459-464 | The single-indirect block to fill, new or read back from disk |
| `Inodes.Inode.FirstIndirAlloc` | filesys/inode.c:454-481 | So does the single-indirect block, new or reread; when it is full the cursors change meaning |
| `Inodes.Inode.FillInner` | filesys/inode.c:523-529 | The loop over the last inner index block in memory, from where it was left |
| `Inodes.Inode.InnerBlock` | filesys/inode.c:517-521 | The inner index block to fill, new or read back from disk |
| `Inodes.Inode.SecondIndirAllocDeep` | filesys/inode.c:514-539 | So does one inner index block, and the cursors stay the mixed-radix form of the sector count |
| `Inodes.Inode.SecondIndirAlloc` | filesys/inode.c:488-507 | So does the double-indirect block, up to the capacity of 16522 sectors |
| `Inodes.Inode.Extend` | filesys/inode.c:419-444 | The three levels in turn add all sectors up to the capacity and return the rest |
| `Inodes.Inode.Grow` | filesys/inode.c:408-447 | Growth only appends sectors, all distinct and separate from index sectors; new ones are zero; sectors are conserved; of the sectors in use only its own index blocks and the free map's file are written; the cursors encode the count; the result is short by whole sectors past the capacity |
| `Inodes.GrowResult` | filesys/inode.c:445-446 | Exactly when the returned length is the one asked for, what it is otherwise, and exactly when it is below the old length |
| `Inodes.GrownFits` | filesys/inode.c:408-447 | Room for the sectors and their index blocks is needed: a file that has grown so far found it |
| `InodeIO.ByteToSector` | filesys/inode.c:56-95 | Entry pos / 512 of the flat sector sequence, or -1 at or past the end, also of an inode longer than it can address |
| `InodeIO.ReadAt` | filesys/inode.c:235-287 | Exactly the slice of the file, clipped at its end; without a bounce buffer, exactly its whole sectors |
| `InodeIO.WriteLoop` | filesys/inode.c:314-362 | Byte by byte of the file, the written bytes are there and all others are as they were; index blocks are undisturbed |
| `InodeIO.WriteChunks` | filesys/inode.c:314-362 | So what the sectors hold is overwritten by the bytes that fit, and nothing else on the device changes |
| `InodeIO.GrowFor` | filesys/inode.c:305-312 | The data sectors are extended by zero sectors up to the new length; of other sectors in use only the free map's file is written |
| `InodeIO.WriteAt` | filesys/inode.c:289-362 | Denied, nothing changes; else the sectors are extended with zeros and then overwritten by exactly the bytes that fit, or their whole sectors without a bounce buffer; of other sectors in use only the free map's file changes, and only with the map, and it stays in step; room is conserved |
| `InodeIO.FlatWrite` | filesys/inode.c:295-362 | Exactly when a write acts as on a flat byte string, and exactly when only zeros are behind the new end |
| `InodeIO.RunIsFlat` | filesys/inode.c:295-362 | Any sequence of writes within capacity, on a file with zeros behind its end, acts as on a flat byte string and keeps the zeros |
| `FileHistory.LastWriteWins` | filesys/inode.c:295-362 | After any writes, a byte of the flat file is what the last write that covers it put there |
| `FileHistory.NeverWritten` | filesys/inode.c:295-362 | A byte that no write covers is what it was, or 0 where the file has grown |
| `FileHistory.LengthAfterWrites` | filesys/inode.c:295-362 | The file is as long as its furthest write, or as it was |
| `FileHistory.FileReadsLastWrite` | filesys/inode.c:295-362 | So it is with the bytes in the file's sectors, within the capacity of an inode |
| `InodeIO.WriteStep` | filesys/inode.c:295-362 | One more write of a sequence, whatever memory it finds, is one more write to the file |
| `InodeIO.WriteAll` | filesys/inode.c:295-362 | Any sequence of writes, within capacity or not, leaves what the sequence leaves of the file's sectors and length; of other sectors in use only the free map's file changes |
| `InodeIO.WriteShrinks` | filesys/inode.c:305-312 | Exactly the writes that lose the end of a file |
| `InodeIO.WriteShrinksExample` | filesys/inode.c:445-446 | One byte past the capacity of a full file leaves it 511 bytes shorter |
| `InodeIO.Create` | filesys/inode.c:114-139 | A new file of zero bytes, as many as an inode can address; its length is the one asked for |
| `InodeIO.OtherFileUntouched` | filesys/inode.c:295-362 | A file on sectors that are neither the writer's nor the free map's file's keeps its index, its bytes and its sectors |
| `InodeIO.MapFileKept` | filesys/free-map.c:27-41 | The free map's own file keeps its bytes exactly if no sector changed hands |
| `FreeMapFile.OtherFileKept` | filesys/free-map.c:27-50 | Any other file keeps its bytes exactly if it is not the free map's, or no sector changed hands |
| `FreeMapFile.FirstByte` | filesys/inode.c:295-362 | A byte written to a new file always changes the bytes of the free map's file |
| `FreeMapFile.PatchedOnce` | filesys/inode.c:314-362 | The bytes written to a file determine the device |
| `FreeMapFile.WriteThrough` | lib/kernel/bitmap.c:353-360 | bitmap_write through the map's inode leaves the bytes that FileSys.WriteMap does |
| `FreeMapFile.FreeMapCreate` | filesys/free-map.c:70-85 | The new file is on sectors in use, holds the map that says so, and no other sector in use is written |
| `FreeMapFile.Remount` | filesys/free-map.c:11-61 | Mounting the device again finds the map that was last saved |
| `InodeFree.ReleaseNext` | filesys/free-map.c:43-50 | In a sequence of releases of distinct sectors, each is still in use when its turn comes |
| `InodeFree.ReleaseStep` | filesys/free-map.c:43-50 | One release of the sequence: the assertion holds and only the map's file is written |
| `InodeFree.DirectDealloc` | filesys/inode.c:555-562 | The direct sectors are released in order |
| `InodeFree.FirstLevelDealloc` | filesys/inode.c:579-595 | The sectors of the single-indirect block are released in order, each still in use |
| `InodeFree.SecondLevelDeallocDeep` | filesys/inode.c:624-641 | So are those of one inner index block, which itself is not |
| `InodeFree.SecondLevelDealloc` | filesys/inode.c:602-641 | So are those of the double-indirect block |
| `InodeFree.Deallocate` | filesys/inode.c:546-572 | Every data sector and the two outer index blocks are released once, and nothing else, also for an inode longer than it can address; free_map_release's assertion always holds; only the free map's file is written, and it holds the map if the last release could write it |
| `InodeFree.DeallocationLeaks` | filesys/inode.c:546-641 | What is not given back is exactly the inner index blocks: none up to 138 sectors, then one per 128 or part of them |
| `PowerOfTwo.MaskIsRemainder` | lib/kernel/hash.c:304-310 | Masking with a power of two less one is the remainder |
| `PowerOfTwo.PowerTest` | lib/kernel/hash.c:335-340 | is_power_of_2's test is exact |
| `PowerOfTwo.TurnOffKeepsTop` | lib/kernel/hash.c:328-333 | Clearing the lowest one bit keeps the highest, so rehash's loop ends at the power of two below |
| `HashBuckets.FindInHome` | lib/kernel/hash.c:304-326 | An equal element can only be in the bucket that find_bucket names |
| `HashTables.OpRunUnique` | lib/kernel/hash.c:94-154 | Answers and final set are functions of the first set and the operations |
| `HashTables.AfterAnswers` | lib/kernel/hash.c:94-154 | After an insert, replace or delete a find answers as it should: only elements equal to the argument are affected |
| `HashTables.RunAnswers` | lib/kernel/hash.c:94-154 | Over any run, what a find answers depends on the operations on equal elements alone |
| `HashTables.AfterOneEach` | lib/kernel/hash.c:94-154 | Every operation keeps one element of each equality class |
| `HashTables.HashTable.constructor` | lib/kernel/hash.c:24-42 | An empty table of four buckets |
| `HashTables.HashTable.Size` | lib/kernel/hash.c:246-251 | The element count is the size of the set |
| `HashTables.HashTable.FindElem` | lib/kernel/hash.c:312-326 | An equal element of the bucket, or none if and only if there is none |
| `HashTables.HashTable.Locate` | lib/kernel/hash.c:304-326 | The bucket of the element, and in it the match in the whole set |
| `HashTables.HashTable.InsertElem` | lib/kernel/hash.c:415-421 | The element is in front of its bucket and in the set; the table stays sound |
| `HashTables.HashTable.RemoveElem` | lib/kernel/hash.c:423-429 | The element is out of the set and no equal one is left |
| `HashTables.HashTable.Find` | lib/kernel/hash.c:129-135 | The element of the set equal to the argument, or none |
| `HashTables.HashTable.Insert` | lib/kernel/hash.c:94-110 | The set gains the element unless an equal one is in it, which is returned; bucket count ideal if memory is found |
| `HashTables.HashTable.Replace` | lib/kernel/hash.c:112-127 | The equal element, if any, is returned and replaced |
| `HashTables.HashTable.Delete` | lib/kernel/hash.c:137-154 | The equal element, if any, is returned and removed; else nothing changes |
| `HashTables.HashTable.IdealCount` | lib/kernel/hash.c:364-372 | The loop finds the largest power of two up to half the elements, at least 4 |
| `HashTables.HashTable.MoveBucket` | lib/kernel/hash.c:397-409 | Every element of an old bucket is added to its new bucket |
| `HashTables.HashTable.Rehash` | lib/kernel/hash.c:347-413 | The same elements, each in its masked bucket; the bucket count changes only if memory is found |
| `HashTables.HashTable.Clear` | lib/kernel/hash.c:44-74 | The set is empty and the destructor, if any, was called once for each element |
| `HashTables.HashTable.Perform` | lib/kernel/hash.c:94-154 | Any sequence of operations, with any outcome of memory requests, is that sequence on the set; counts and placement stay exact |
| `HashIterators.HashIterator.constructor` | lib/kernel/hash.c:199-208 | An iterator before the first element |
| `HashIterators.HashIterator.Next` | lib/kernel/hash.c:210-235 | The next element of the buckets laid end to end, or null after the last |
| `HashIterators.Walk` | lib/kernel/hash.c:182-235 | An iteration meets every element of the set exactly once |
| `PageAllocators.Pool.constructor` | threads/palloc.c:152-170 | As many pages as the bitmap needs, and no more, come off the front of the pool, and the rest are free |
| `PageAllocators.Pool.PageFromPool` | threads/palloc.c:172-182 | Whether the page is in the pool |
| `PageAllocators.Pool.Take` | threads/palloc.c:78-88 | The first group of consecutive free pages, or none if and only if there is none |
| `PageAllocators.Pool.Give` | threads/palloc.c:134-141 | Exactly those pages of the pool are free again |
| `PageAllocators.PageAllocator.constructor` | threads/palloc.c:44-62 | The user pool and its bitmap are the last half of the free memory, or as many pages as the limit if that is less, the kernel pool and its bitmap are the rest; nothing in use |
| `PageAllocators.PageAllocator.GetMultiple` | threads/palloc.c:64-101 | A group of pages of the right pool, none of them in use before; fails only if no such group is free |
| `PageAllocators.PageAllocator.FreeMultiple` | threads/palloc.c:116-142 | Exactly those pages are free again; the pool is found from the address |
| `MallocBlocks.BlockIs` | threads/malloc.c:284-294 | A block lies inside its page behind the header, and page and index can be recovered from its address |
| `MallocBlocks.BlocksApart` | threads/malloc.c:284-294 | Different blocks of an arena do not overlap |
| `MallocBlocks.AllListed` | threads/malloc.c:241-253 | If the count of an arena's free blocks is full, every block of it is on the free list |
| `MallocHeap.LiveInside` | threads/malloc.c:87-154 | Every byte of a live block is in pages of its own arena that are in use, behind the header |
| `MallocHeap.LiveApart` | threads/malloc.c:87-154 | No byte belongs to two live blocks |
| `MallocHeap.ArenaUsed` | threads/malloc.c:241-253 | Between calls every arena has a live block |
| `MallocHeap.NothingKept` | threads/malloc.c:216-264 | With no live block there is no arena and every free list is empty |
| `MallocSteps.GivenThenTaken` | threads/malloc.c:148-245 | A freed block is the next handed out: taking one of its size undoes the free, lists and counts included |
| `Malloc.MakeDescs` | threads/malloc.c:70-85 | Seven classes of 16 to 1024 bytes with their block counts |
| `Malloc.Allocator.constructor` | threads/malloc.c:70-85 | The heap starts empty and sound |
| `Malloc.Allocator.FindDesc` | threads/malloc.c:100-105 | The smallest class that fits, or none if and only if the size is over 1024 |
| `Malloc.Allocator.FillArena` | threads/malloc.c:137-145 | The header and the blocks, in order, of a new arena |
| `Malloc.Allocator.AddArena` | threads/malloc.c:124-146 | A new arena with all its blocks listed, on a page that nobody used |
| `Malloc.Allocator.TakeBlock` | threads/malloc.c:148-153 | The first listed block becomes live and its arena's count falls; the heap is sound again |
| `Malloc.Allocator.BigMalloc` | threads/malloc.c:105-120 | A big block gets pages of its own that hold it and the header |
| `Malloc.Allocator.Malloc` | threads/malloc.c:87-154 | A block nobody holds, of the smallest class that fits, heap sound, pages of others untouched; fails only for size 0 or when the pages cannot be had |
| `Malloc.Allocator.UnlinkArena` | threads/malloc.c:247-251 | Each block of a wholly free arena is on the list to be taken off, and none is left |
| `Malloc.Allocator.FreeBlock` | threads/malloc.c:227-256 | A small block is listed again and a wholly free arena goes back |
| `Malloc.Allocator.FreeBig` | threads/malloc.c:257-262 | A big block's pages go back |
| `Malloc.Allocator.Free` | threads/malloc.c:216-264 | The block is no longer live, heap sound; a wholly free arena's page goes back |
| `Malloc.Allocator.NothingLeaks` | threads/malloc.c:216-264 | Once every block has been freed, malloc holds no page |
| `Scheduler.StepInv` | threads/thread.c:247-277 | Every step keeps: ready list exactly the ready threads, waiters exactly the blocked ones, one running thread, no lost wake-up |
| `Scheduler.OneList` | threads/thread.h:108-113 | A waiting thread is on one wait list only, not on the ready list and not running |
| `Scheduler.UpInv` | threads/synch.c:129-147 | sema_up keeps the invariant; the woken thread makes up for the unit added |
| `Scheduler.SleepInv` | threads/synch.c:89-94 | So does a pass of sema_down that sleeps |
| `SchedulerRuns.RunInv` | threads/thread.c:247-277 | The invariant holds in every state of every interleaving |
| `SchedulerRuns.RunValue` | threads/synch.c:81-147 | A semaphore's value is its first value plus ups minus completed downs, after any number of steps |
| `SchedulerRuns.RunFromInit` | threads/synch.c:66-147 | From sema_init on, value plus completed downs is the value given plus ups, after any number of steps |
| `SchedulerRuns.RunPriority` | threads/thread.c:190-409 | A thread has the priority that thread_create, thread_set_priority or a donation gave it last |
| `SchedulerRuns.UpWakesHighest` | threads/synch.c:136-143 | sema_up wakes a waiter of the highest current priority, of equals the one that stands first, whatever donations did to the list |
| `SchedulerRuns.StepSorted` | threads/thread.c:265-277 | Every step keeps the ready list sorted unless a donation raises a thread on it |
| `SchedulerRuns.DonateSorted` | threads/synch.c:251-261 | A donation to a ready thread keeps the list sorted exactly when nobody ahead of it is now lower |
| `SchedulerRuns.DonateSortedExample` | threads/synch.c:251-261 | Two ready equals and a donation to the second that leaves it behind the first |
| `SchedulerRuns.RunSorted` | threads/thread.c:265-277 | The ready list is sorted in every state of every run without such donations |
| `SchedulerRuns.SwitchPicksHighest` | threads/thread.c:620-701 | At every switch of such a run the next thread has the highest priority of all that are ready, and of its equals stood first; idle runs only if none is |
| `SchedulerRuns.StepFifo` | threads/thread.c:361-375 | No two ready threads change places, and a newcomer goes behind everyone of at least its priority |
| `SchedulerRuns.RunFifo` | threads/thread.c:265-375 | Over every such run, while a thread is on the ready list whoever stands behind it stays behind it and does not run |
| `SchedulerRuns.RunArrival` | threads/thread.c:265-375 | So no thread that becomes ready later, with a priority no higher, runs first |
| `SchedulerWaits.RunCheck` | threads/thread.c:411-417 | After check_priority, in every orderly run, nobody ready is above the running thread, and the processor changed hands exactly if somebody was |
| `SchedulerWaits.StepAt` | threads/synch.c:88-98 | A pass of sema_down ends the call if and only if it takes a unit; no other step moves a thread into sema_down or out of it |
| `SchedulerWaits.RunLeavesDown` | threads/synch.c:88-98 | A thread that got out of sema_down took a unit in between, in every run |
| `SchedulerWaits.RunDead` | threads/thread.c:312-332 | A thread that has exited never runs again and is on no list, in every run |
| `SchedulerWaits.StepWaitFifo` | threads/synch.c:89-143 | A wait list stays sorted by priority, first in first out among equals, unless a donation raises a thread on it |
| `SchedulerWaits.RunWaitFifo` | threads/synch.c:89-143 | Over every such run, while a thread waits whoever stands behind it waits too, behind it |
| `SchedulerWaits.RunWaitArrival` | threads/synch.c:89-143 | So one that comes to wait later, with a priority no higher, is not woken first |
| `SchedulerWaits.DonateSortedWaits` | threads/synch.c:251-261 | A donation to a waiting thread keeps its wait list sorted exactly when nobody ahead of it is now lower |
| `SchedulerWaits.DonateOvertakes` | threads/synch.c:89-261 | A donation after which a newcomer goes ahead of a waiting thread of its own priority |
| `ThreadQueues.TidsInsert` | threads/thread.c:351-359 | Inserting an element by its thread's priority inserts the thread |
| `ThreadQueues.TidsSort` | threads/synch.c:136-140 | Sorting the elements sorts the threads |
| `ThreadQueues.Queues.MakeReady` | threads/thread.c:274-274 | The thread's element joins the ready list, by priority, behind its equals; all lists stay linked and disjoint |
| `ThreadQueues.Queues.PopReady` | threads/thread.c:626-632 | The front element leaves the ready list, and its thread is returned |
| `ThreadQueues.Queues.Await` | threads/synch.c:89-96 | The thread's element joins that semaphore's wait list and no other changes |
| `ThreadQueues.Queues.SortWaiters` | threads/synch.c:136-140 | The wait list is sorted by priority in place |
| `ThreadQueues.Queues.PopWaiter` | threads/synch.c:136-143 | Its front element leaves, and is then on no list |
| `ThreadQueues.Queues.AddThread` | threads/thread.h:108-113 | A new thread has an element of its own, on no list |
| `ThreadQueues.Queues.AddSema` | threads/synch.c:66-72 | A new semaphore has an empty wait list of its own |
| `SchedulerMachine.RunningOffLists` | threads/thread.h:108-113 | The running thread is on no list |
| `SchedulerMachine.Machine.Start` | threads/thread.c:110-142 | The state after start-up satisfies the invariant |
| `SchedulerMachine.Machine.ThreadUnblock` | threads/thread.c:265-277 | The linked lists and the status, read as threads, take the step that the theorems are about; all lists stay sound and disjoint |
| `SchedulerMachine.Machine.RunNext` | threads/thread.c:625-701 | So for next_thread_to_run and schedule |
| `SchedulerMachine.Machine.ThreadBlock` | threads/thread.c:247-255 | So for thread_block |
| `SchedulerMachine.Machine.ThreadYield` | threads/thread.c:361-375 | So for thread_yield, which keeps the invariant |
| `SchedulerMachine.Machine.YieldIfOutranked` | threads/thread.c:411-417 | So for check_priority |
| `SchedulerMachine.Machine.SemaDownPass` | threads/synch.c:89-96 | So for a pass of sema_down's loop, which ends if and only if the value was positive |
| `SchedulerMachine.Machine.SemaTryDown` | threads/synch.c:104-123 | So for sema_try_down, which succeeds if and only if the value was positive |
| `SchedulerMachine.Machine.SemaUp` | threads/synch.c:129-143 | So for sema_up: the wait list is sorted in place and its front moves to the ready list |
| `SchedulerMachine.Machine.SemaInit` | threads/synch.c:66-72 | So for sema_init; the semaphore has the value given and an empty wait list |
| `SchedulerMachine.Machine.ThreadCreate` | threads/thread.c:190-234 | So for thread_create, up to its last yield; the thread has the priority given |
| `SchedulerMachine.Machine.ThreadExit` | threads/thread.c:312-332 | So for thread_exit |
| `SchedulerMachine.Machine.Take` | threads/thread.c:247-701 | So for every step of a run: the linked kernel takes exactly the steps that the run theorems are about |
| `Locks.LockStepOk` | threads/synch.c:201-298 | Every step, of any thread, keeps: value plus threads inside is one, and the holder is exactly a thread inside that is past setting the field and not yet past clearing it |
| `Locks.MutualExclusion` | threads/synch.c:218-236 | Two threads inside a lock are the same thread |
| `Locks.RunExcludes` | threads/synch.c:201-298 | All this holds in every state of every interleaving, although the holder field is written outside the atomic regions |
| `Locks.RunHolder` | threads/synch.c:290-298 | In every state of every run the thread inside a lock is its holder unless it is between the two halves of lock_acquire or of lock_release; so lock_release's assertion holds exactly for the thread that completed the acquire, and lock_acquire's and lock_try_acquire's for any other |
| `Locks.HolderIffAcquired` | threads/synch.c:233-298 | The holder is exactly the thread that completed an acquire of the lock and has not begun to release it since |
| `Donation.WalkStep` | threads/synch.c:254-258 | A step of the walk raises the next holder and keeps what the walk has achieved |
| `Donation.PriorityDonation` | threads/synch.c:243-262 | The walk ends on every wait-for graph, cyclic ones too; every thread on it was below and now has the donated priority; no other changes |
| `Donation.DonationReaches` | threads/synch.c:243-262 | If only the donor's edge was violated, exactly the threads it waits for, directly or not, that were below its priority are raised to it |
| `Donation.DonationRestores` | threads/synch.c:250-261 | Then every holder has at least its waiters' priority, which justifies the early break |
| `Donation.DonationEdges` | threads/synch.c:250-261 | Without that proviso, exactly which edges are sound afterwards |
| `Timer.RemainingIsExact` | devices/timer.c:216-234 | On a sorted list the early break misses nobody: exactly the sleepers with a deadline ahead remain |
| `Timer.Clock.TimerSleep` | devices/timer.c:113-129 | The list gets this sleeper and no other, behind everyone due no later and, as the list is sorted, ahead of everyone due later; it stays sorted |
| `Timer.Clock.TimerInterrupt` | devices/timer.c:202-234 | The tick advances; the threads woken are those of the longest run of due sleepers in front, in that order, and the rest stay |
| `Timer.RunSorted` | devices/timer.c:113-129 | The sleep list is sorted by deadline in every state of every run |
| `Timer.WokenOnTime` | devices/timer.c:112-234 | A sleeper is on the list exactly while the tick count is below its wake tick: never woken early, and by the first interrupt that is not early |
| `PageBits.AddressWhole` | threads/pte.h:31-39 | pd_no, pt_no and pg_ofs rebuild every address |
| `PageBits.AddressParts` | threads/vaddr.h:23-31 | And every triple is recovered from the address it makes |
| `PageBits.RoundUp` | threads/vaddr.h:33-36 | Rounds up exactly, and wraps to 0 exactly above the last page boundary |
| `PageBits.RoundDown` | threads/vaddr.h:38-41 | The page boundary at the offset below the address |
| `PageBits.PtovVtop` | threads/vaddr.h:69-87 | ptov and vtop are inverse, and ptov gives a kernel address exactly for the first gigabyte |
| `PageBits.PdeRoundTrip` | threads/pte.h:69-81 | A directory entry gives back its table and is present, for users and writable |
| `PageBits.PteRoundTrip` | threads/pte.h:92-104 | A user entry gives back its page and its writability, present, neither accessed nor dirty |
| `PageBits.AtOffsetParts` | userprog/pagedir.c:133-134 | A page-aligned frame plus the offset of an address has that frame as its page and that offset |
| `PageBits.WithOnly` | userprog/pagedir.c:170-215 | Changing a flag changes that flag only, and not the page |
| `PageDirs.PageTables.LookupPage` | userprog/pagedir.c:50-86 | The slot of the entry; a table is made only if asked for and missing; no entry changes |
| `PageDirs.PageTables.Store` | userprog/pagedir.c:111-115 | Writing through the slot changes that page's entry and no other |
| `PageDirs.PageTables.Create` | userprog/pagedir.c:13-23 | A directory with the kernel's entries, or none without a page; nothing else changes |
| `PageDirs.PageTables.SetPage` | userprog/pagedir.c:88-119 | The page is mapped to the frame with its writability, every other page as before; fails only without memory and then changes nothing |
| `PageDirs.PageTables.GetPage` | userprog/pagedir.c:121-137 | The address that is in the mapped frame and has the offset of the user address, or null if and only if the page is not mapped |
| `PageDirs.PageTables.ClearPage` | userprog/pagedir.c:139-157 | The page is unmapped and no other is |
| `PageDirs.PageTables.SetFlag` | userprog/pagedir.c:170-215 | Only that flag of that entry changes; the map does not |
| `PageDirs.PageTables.IsFlag` | userprog/pagedir.c:159-197 | The flag, and false where there is no entry |
| `PageDirs.OtherDirectory` | userprog/pagedir.c:88-119 | A directory that shares none of the written tables is undisturbed |
| `PageDirs.PageTables.FreePages` | userprog/pagedir.c:39-44 | The present pages of one table are freed, once each |
| `PageDirs.PageTables.FreeTable` | userprog/pagedir.c:34-45 | A table and its present pages are freed, the table last |
| `PageDirs.PageTables.Destroy` | userprog/pagedir.c:25-48 | Every present user page, every user table and the directory is freed once and nothing else; no table is read after it is freed |
| `PageDirs.FrameIsMapped` | userprog/pagedir.c:34-47 | The pages freed are those that user addresses are mapped to |
| `PageDirs.FreedOnce` | userprog/pagedir.c:34-47 | No page is freed twice if and only if user addresses on different pages are mapped to different frames, none of them the directory or one of its tables |
| `PageDirs.MapTwice` | userprog/pagedir.c:88-119 | Two pages that pagedir_set_page maps to one frame: destroying the directory frees it twice |
| `HeapSort.SwapDown` | lib/stdlib.c:111-121 | Swapping with the larger child moves the one fault of the heap down |
| `HeapSort.Heapify` | lib/stdlib.c:93-123 | The heap property is restored from its root on, by a rearrangement of the heap only |
| `HeapSort.BuildHeap` | lib/stdlib.c:139-144 | The array becomes a heap, by a rearrangement |
| `HeapSort.RootIsMax` | lib/stdlib.c:143-151 | The root of a heap is a maximum |
| `HeapSort.Sort` | lib/stdlib.c:125-152 | A sorted permutation, for every array and consistent comparison |
| `HeapSort.BinarySearch` | lib/stdlib.c:172-207 | Finds a match if and only if there is one |
| `Numerals.ParseDigits` | lib/stdlib.c:29-36 | The negative accumulation is minus the digits' number and never leaves the range of int |
| `Numerals.Atoi` | lib/stdlib.c:9-41 | The number that the string denotes, for every string that denotes an int |
| `Numerals.SpaceCodes` | lib/ctype.h:12-15 | White space is the space and the codes 9 to 13 |
| `Printf.Sink.Put` | lib/stdio.c:44-52 | The buffer holds as much of the whole output as fits, and the length counts all of it |
| `Printf.Sink.Dup` | lib/stdio.c:549-555 | The character is output so many times |
| `Printf.Sink.Finish` | lib/stdio.c:37-41 | A null behind what fits, and the length of everything |
| `Printf.PutDigit` | lib/stdio.c:508-510 | One digit, after the comma that may precede it in the buffer |
| `Printf.Accumulate` | lib/stdio.c:501-513 | The digits, with commas, go backwards into at most 44 places |
| `Printf.FillZeros` | lib/stdio.c:515-524 | Precision and the octal # flag add the zeros they should, within the buffer |
| `Printf.Drain` | lib/stdio.c:543-544 | The buffer comes out backwards |
| `Printf.Emit` | lib/stdio.c:531-546 | The parts come out in order with the padding where the flags want it |
| `Printf.FormatInteger` | lib/stdio.c:469-547 | The output is sign, prefix, padding and digits as the flags ask |
| `Printf.RenderedLength` | lib/stdio.c:526-546 | The output has the field width, or its own length if that is more, unless both - and 0 are in force and there is padding |
| `Printf.SnprintfInteger` | lib/stdio.c:25-42 | The output cut to the buffer and null-terminated; the result is the length of all of it |
| `PrintfShape.DigitsDenoteIn` | lib/stdio.c:501-513 | In decimal, octal and both hexadecimal bases the digits denote the number, without a leading zero |
| `PrintfShape.Grouped` | lib/stdio.c:506-513 | Where commas stand: none in one group of digits; otherwise one ahead of the last group, and the rest likewise |
| `PrintfShape.SignMeans` | lib/stdio.c:483-495 | Which sign character is output, if and only if which flags and number |
| `PrintfShape.PrefixMeans` | lib/stdio.c:497-500 | 0x or 0X, if and only if # is given and the number is hexadecimal and not 0 |
| `PrintfShape.BodyMeans` | lib/stdio.c:515-524 | Zeros up to the precision and no more, and one ahead of an octal number with # |
| `PrintfShape.RenderedMeans` | lib/stdio.c:526-546 | The order of padding, sign, prefix and digits, and which padding the flags allow |
| `PrintfParse.ParseFlags` | lib/stdio.c:343-371 | The longest run of flag characters, and exactly its flags |
| `PrintfParse.ParseNumber` | lib/stdio.c:378-389 | The number of the longest run of digits, or the next argument for a star |
| `PrintfParse.ParsePrecision` | lib/stdio.c:396-414 | The precision behind a dot; none, or a negative one, is -1 |
| `PrintfParse.ParseConversion` | lib/stdio.c:335-458 | Flags, width and precision mean what the longest runs of flag characters and digits say; a negative * width is - and its magnitude; the type is that of the longest type letters that follow |
| `PrintfParse.MeansOnce` | lib/stdio.c:339-416 | The text of a conversion has one meaning and one end |
| `PrintfParse.TwoStars` | lib/stdio.c:378-414 | With two stars the width is the first argument and the precision the second |
| `PrintfParse.ParseType` | lib/stdio.c:418-455 | The type of the longest type letters at that place |
| `PrintfParse.TypeOnce` | lib/stdio.c:418-455 | There is one such type and one end of it |
| `PrintfParse.PaddedTwice` | lib/stdio.c:371-395 | In %0*d an argument of -5 leaves both - and 0 in force, and 7 comes out nine characters wide |
| `PrintfRoundTrip.DigitsDenote` | lib/stdio.c:506-513 | Without commas the digits printed denote the number |
| `PrintfRoundTrip.PrintThenParse` | lib/stdlib.c:9-41 | atoi undoes %d for every int, width, precision and flags, if and only if no comma was printed |
| `PrintfRoundTrip.PrintAndParse` | lib/stdio.c:25-52 | So it does through a buffer that is large enough |
| `UstarFields.ParseOctalField` | lib/ustar.c:120-162 | A value if and only if digits, then a space or null in the field, and a number that fits an unsigned long |
| `UstarFields.FormatODenotes` | lib/stdio.c:469-547 | A number that fits is printed as exactly as many octal digits as the width, and they denote it |
| `UstarFields.OctalRoundTrip` | lib/ustar.c:99-107 | Parsing undoes printing of an octal field |
| `UstarFields.OctalFormats` | lib/stdio.c:339-416 | What parse_conversion makes of the two octal formats that headers use |
| `UstarFields.AfterSlash` | lib/string.c:108-126 | What follows the first slash |
| `UstarFields.AntisocialIs` | lib/ustar.c:68-70 | What is stripped starts with "/", "./" or "../" |
| `UstarFields.StripPrefixes` | lib/ustar.c:56-73 | The loop computes the stripped name |
| `UstarFields.StrippedIs` | lib/ustar.c:56-73 | What is left behind the longest run of "/", "./" and "../", or "."; it starts with none of them and is neither empty nor ".." |
| `UstarFields.StrippedFixpoint` | lib/ustar.c:56-73 | Exactly the safe names are left alone, so stripping is idempotent |
| `Ustar.CalculateChksum` | lib/ustar.c:35-54 | The plain sum of the header's bytes with eight spaces in the checksum field; it does not wrap |
| `Ustar.ChecksumIsSum` | lib/ustar.c:43-53 | The checksum is 256 plus the sum of the bytes ahead of and behind the checksum field |
| `Ustar.SumIndependent` | lib/ustar.c:46-51 | The checksum does not depend on its own field |
| `Ustar.Zero` | lib/ustar.c:100-100 | Every field is zero |
| `Ustar.Store` | lib/ustar.c:101-112 | The field starts with the bytes stored, and no other field changes |
| `Ustar.CopyString` | lib/ustar.c:101-112 | strlcpy gives its field the right content and leaves the others |
| `Ustar.PrintOctal` | lib/ustar.c:102-107 | So does snprintf of an octal number that fits |
| `Ustar.Modes` | lib/ustar.c:102-103 | The modes are 644 and 755 in octal |
| `Ustar.Draft` | lib/ustar.c:99-112 | Every field but the checksum is as it should be |
| `Ustar.Finish` | lib/ustar.c:114-115 | The checksum printed is that of the finished header |
| `Ustar.MakeHeader` | lib/ustar.c:75-118 | Fails exactly if the stripped name has over 99 characters; else every field of the 512 bytes is as it should be, the checksum field included |
| `Ustar.SameFields` | lib/ustar.c:10-33 | The fields determine the header: they leave no byte out |
| `UstarParse.IsAllZeros` | lib/ustar.c:164-173 | True if and only if every byte is zero |
| `UstarParse.ParseHeader` | lib/ustar.c:175-227 | End of archive, the first thing that is wrong, or the file that the fields describe |
| `UstarParse.RoundTrip` | lib/ustar.c:82-227 | Parsing what was made gives back the stripped name, type and size, and refuses exactly a regular file of negative size |
| `UstarParse.MakeAndParse` | lib/ustar.c:82-227 | So it does through the buffer |
| `UstarParse.ParsedNameSafe` | lib/ustar.c:222-226 | A parsed name has no antisocial prefix and a parsed size is an int |
| `UstarParse.ChangeDetected` | lib/ustar.c:204-207 | A header that parses does not after any change of one byte outside the checksum field |

## Left out

- Hardware and assembly: disks, serial, display, timers, interrupt stubs, the context switch.
- Integer width of file offsets: lengths and offsets of files are natural numbers; overflow of a 32-bit `off_t` and negative arguments are not modelled.
- Inodes.Inode.Grow: on a device without room, or whose free map cannot be written, the code ignores the failed allocation and goes on with the sector number that the pointer held; growth is modelled where that does not happen, and FileSystem.FileSys.AllocateZeroed says what one such step does.
- Inodes.Inode.DirectAlloc: likewise needs room and a free map that can be written.
- Inodes.Inode.FillSingle: likewise.
- Inodes.Inode.FirstIndirAlloc: likewise.
- Inodes.Inode.FillInner: likewise.
- Inodes.Inode.SecondIndirAllocDeep: likewise.
- Inodes.Inode.SecondIndirAlloc: likewise.
- Inodes.Inode.Extend: likewise.
- InodeIO.GrowFor: likewise.
- InodeIO.WriteAt: likewise when it extends the file; an inode longer than it can address is written only where it can address it, because `byte_to_sector` returns nothing for the rest.
- InodeIO.WriteStep: likewise.
- InodeIO.WriteAll: likewise.
- InodeIO.Create: likewise needs room; does not model the failure to allocate the scratch inode or the write of the inode to its own sector.
- InodeIO.ReadAt: an inode longer than it can address is read only where it can address it, because `byte_to_sector` returns nothing for the rest.
- FileSystem.FileSys.FreeMapRelease: needs the free map's file to be open, because the code writes to it without asking.
- FreeMapFile.FreeMapCreate: the free map of a device of more than 67674112 sectors does not fit one inode; such devices are left out.
- BitmapWords.Bitmap.constructor: `bitmap_create`'s failure to allocate is not modelled; the free map's panics.
- `list_unique`, `list_max`, `list_min` and `list_size`.
- Inode locking, `inode_open`, `inode_close`, `inode_remove` and the list of open inodes: operations are sequential and on an inode in memory.
- HashTables.HashTable.constructor: `hash_init`'s failure to allocate the buckets is not modelled.
- HashTables.HashTable.MoveBucket: the elements of a bucket are a sequence, so unlinking each from its old list while walking it is not modelled.
- Hash buckets and malloc's free lists are sequences that the methods reassign, not chains of heap elements.
- `hash_apply`, `hash_destroy` and the hash functions themselves: a hash function is a parameter.
- `calloc`, `realloc`, and size arithmetic near the 32-bit limit: sizes are natural numbers.
- The locks of malloc and of the page allocator: calls are sequential.
- SchedulerMachine.Machine.ThreadCreate: does not model the failure to get a page for the thread.
- Donation.PriorityDonation: `priority_donation` runs with interrupts on, so another thread can change holders and priorities during the walk; the theorem is about an undisturbed walk. Its single assignments are steps of the scheduler's runs, where they interleave with anything.
- Locks and donor lists: lock steps are modelled on values; `donor` lists, `donation_back` and `priority_recheck` are only the arbitrary priority changes they make, because the code does not keep a thread's priority at the maximum of its donors.
- The list of sleeping threads and the lists of locks and donors are sequences; the ready list and the wait lists are linked lists in ThreadQueues and sequences of threads in the run theorems.
- Timer.Clock.TimerInterrupt: names the threads whose semaphores are upped; the ups themselves are the semaphore model's.
- Condition variables, `process_wait`, `process_exit`, partition scanning, system calls, directories and virtual memory.
- PageDirs.PageTables.Destroy: the frames freed are listed as calls; that the page allocator can take them back is the caller's side of the contract.
- `pagedir_activate` and the flush of the translation buffer after a change.
- PrintfParse.ParseConversion: the dispatch of `__vprintf` on the conversion character is not modelled; widths and precisions are unbounded integers.
- Numerals.Atoi: strings whose number is not an int, where the C accumulation overflows, are outside its contract.
