# A verified model of three operating-systems projects

The repository holds three course projects that each build a piece of an operating system in C:
a simulated virtual memory, a user-level thread library and a small file system. This Dafny
project models the sequential behaviour of their cores and proves what they are for.

**Virtual memory** (`proj3-code/code/my_vm.c`). A 1 GiB byte array holds the page directory, the
page tables and the user's data; two bitmaps and a 512-entry look-aside buffer go with it.
`PageTables`, `Allocation` and `AllocationTheorems` describe the directory, the page entries and
the bitmaps as sequences and prove the allocator, `AllocationFailure` what it loses when it fails;
`TlbCache` is the buffer; `PhysicalMemory` connects the sequences with the bytes they lie in;
`VirtualMemorySystem.VirtualMemory` is the code itself, a class that works on the arrays in place,
each method proved against the description. `MatrixMultiplication` and `MemoryRuns` are what a
user of the memory sees: the matrix product, and over whole runs, that every address holds the
byte last put there.

**Threads** (`project2-release`). `ThreadQueue` and `ThreadHeap` are the linked queue and the
array heap, `ThreadRunStructure` the one of them that the policy uses. `ThreadLibrary` is the
library as a state machine whose steps are the library calls up to their context switch and the
timer expiry, with the invariant that places every thread; `ThreadRuns` reads the invariant off
over whole runs, and `ThreadEffects` says what each step changes; `ThreadWorker.Scheduler` updates
the library's variables and its run structure in place and takes exactly those steps;
`ThreadExecution` takes it through whole runs; `Fairness` counts quanta.

**File system** (`project4/code/rufs.c`). `RufsLayout` is the byte layout of inodes and directory
entries, `RufsState` the operations on the decoded disk, `RufsInvariants` and `RufsAccount` what
they keep. `RufsDirectories` proves directories to be finite maps, `RufsNamespace` and `RufsMake`
the tree of paths, `RufsFiles` and `RufsReadWrite` the contents of files, `RufsAttributes` the
other fields of inodes, `RufsRuns` all of it over whole runs from mkfs. `RufsOnDisk.RufsDisk` is
the code on an array of blocks, proved to do on the blocks what the operations do on the decoded
disk. `RufsTree` is what all of this is for: a tree of paths with files of bytes, without a disk.
`RufsRefinement` proves that the file system behaves as the tree after any sequence of operations,
and `RufsExecution` that the disk does.

`Bytes`, `Bitmaps`, `Counting` and `Wrappers` are shared. Bytes are integers below 256, words are
little-endian, and 32-bit additions wrap where the code relies on it.

Some results differ from what one might expect of the code:

- `n_malloc` loses a frame whenever `map_page` fails in it: the frame taken for the page stays
  marked. `FailsInMapPageIff` says from the tables before the call when that is,
  `MapFailureHappens` gives a run where it is so, and `MarkedFramesOfRun` counts the frames.
- An `n_malloc` that runs out of frames leaves the pages it could not map reserved, and no call
  ever frees them (`MallocLosesPages`, `LostPagesOverRun`); `ReservedPagesOfRun` counts them.
- Every `rufs_mkdir` or `rufs_create` that fails after taking an inode number keeps that number
  marked for ever, and in a full directory one block too (`AccountOfRun`; `LostNumberHappens` and
  `LostBlockHappens` are two such runs). All the same blocks never run out: there are as many of
  them as pointer slots, so the out-of-space returns of `rufs_mkdir` and `rufs_write` are never
  reached (`NeverOutOfBlocks`).
- `rufs_mkdir` and `rufs_create` make an inode that is neither a directory nor a file when the
  mode argument brings the bits of another file type along (`NewKind`).
- A write beyond the end of a file can leave blocks out, and a read stops at the first of them
  (`ReadReaches`).
- A thread that exits while it holds a mutex is still named by the mutex after it has been joined
  and freed (`FreedIsUnreferenced`, `FreedOwnerHappens`).
- `psjf_cmp` cuts a difference to an `int`, so it orders threads as meant only while ids and
  quanta stay below 2^31 (`PsjfOrders`, `PsjfOrderFails`; `PsjfExact` is the exact condition for
  two threads).

`dfyconfig.toml` lists the files, so `dafny verify dfyconfig.toml` checks the project.

## Model

| member | source | states |
|---|---|---|
| Bitmaps.SetBit | proj3-code/code/my_vm.c:35-57 | setting a bit in place changes that bit of the bitmap and no other, the seven others of its byte included |
| Bitmaps.ClearBit | proj3-code/code/my_vm.c:35-57 | clearing a bit in place changes that bit and no other |
| Bitmaps.GetBit | proj3-code/code/my_vm.c:35-57 | reads the bit that the two above set and clear |
| Bitmaps.BitsAfterSet | project4/code/rufs.h:55-65 | OR with the shifted one, computed bit by bit, sets exactly one index of the packed bitmap |
| Bitmaps.BitsAfterClear | proj3-code/code/my_vm.c:35-57 | AND with the complement clears exactly one index of the packed bitmap |
| Bitmaps.WordBit | proj3-code/code/my_vm.c:361-412 | words lie in memory lowest byte first: bit k of a word is bit k mod 8 of its byte k / 8 |
| PageTables.MapPageInv | proj3-code/code/my_vm.c:361-412 | mapping a page to a frame just allocated keeps frame ownership: directory, tables and data frames are pairwise distinct, marked, and no linked table is empty |
| PageTables.FreePageInv | proj3-code/code/my_vm.c:533-583 | unmapping a page, with or without the release of its table, keeps the same invariant |
| PageTables.FreePageLeaksNothing | proj3-code/code/my_vm.c:555-579 | a freed page leaves no frame marked that nothing names |
| PageTables.MapNextLeaks | proj3-code/code/my_vm.c:492-507 | one round of n_malloc loses no frame, except the frame it took for the page when map_page fails |
| Allocation.PageCount | proj3-code/code/my_vm.c:481-484 | just enough pages for the bytes, and none when rounding up leaves 32 bits |
| Allocation.CoversBytes | proj3-code/code/my_vm.c:537-541 | from the start of a page on, n_free reaches the pages of the size bytes and no others, going on at the bottom behind the top |
| Allocation.FirstRun | proj3-code/code/my_vm.c:428-457 | the lowest run of clear bits from the start on: no lower run exists, and the answer is none only if there is no run at all |
| Allocation.FreeRangeFacts | proj3-code/code/my_vm.c:533-583 | n_free over a range unmaps exactly the pages of the range (wrapping at the top), clears their bits and loses no frame |
| Allocation.MapRangeFacts | proj3-code/code/my_vm.c:492-507 | the loop of n_malloc maps exactly the pages it reports as done and leaves every other page alone |
| Allocation.MarkedFrames | proj3-code/code/my_vm.c:72-83 | the set of marked frames is determined by the mapping and the lost frames |
| Allocation.FreeUndoesMap | proj3-code/code/my_vm.c:492-583 | mapping k fresh pages and freeing them restores the directory, every page entry and the frame bitmap, up to the frame lost in between |
| AllocationTheorems.RunIsUnmapped | proj3-code/code/my_vm.c:486-503 | the run that get_next_avail picks holds no live page, so n_malloc never remaps one |
| AllocationTheorems.MallocSucceeds | proj3-code/code/my_vm.c:469-512 | a successful n_malloc maps exactly the lowest free run, changes no other page and loses no frame |
| AllocationTheorems.MallocCovers | proj3-code/code/my_vm.c:469-512 | after a successful n_malloc every byte asked for is in a page mapped by the call, and no page behind the last byte is |
| AllocationTheorems.MallocRefuses | proj3-code/code/my_vm.c:473-484 | a request for 0 bytes, or for more than 2^32 - 4096, changes nothing |
| AllocationTheorems.FreeUndoesMalloc | proj3-code/code/my_vm.c:469-583 | n_malloc then n_free of the same size restores the directory, all tables and both bitmaps exactly, and the request repeated returns the same address |
| AllocationTheorems.MallocFails | proj3-code/code/my_vm.c:492-507 | a failed n_malloc changes only the reserved bits of the pages not yet mapped, and on the map_page failure path exactly one frame stays marked |
| AllocationTheorems.MallocSucceedsIff | proj3-code/code/my_vm.c:469-512 | n_malloc succeeds if and only if the size is not zero, a run of free pages exists, and there are free frames for its pages and for the tables they lack |
| AllocationTheorems.MapRangeCost | proj3-code/code/my_vm.c:361-412 | mapping a run costs one frame per page and one per directory slot without a table, and stops exactly when they run out |
| AllocationTheorems.FrameUse | proj3-code/code/my_vm.c:129-138 | a frame is marked if and only if it is the directory, a linked table, a mapped page or a lost frame, and it is only one of these |
| AllocationTheorems.FrameAccount | proj3-code/code/my_vm.c:72-83 | the number of marked frames is 1 + linked tables + mapped pages + lost frames |
| AllocationFailure.NoTableIff | proj3-code/code/my_vm.c:361-412 | the loop of n_malloc fails in map_page if and only if, after some number of pages and the tables they lack, one frame is left and the next page still lacks its table |
| AllocationFailure.FailsInMapPageIff | proj3-code/code/my_vm.c:469-512 | so the failure can be told from the run, the free frames and the directory before the call |
| AllocationFailure.FirstCall | proj3-code/code/my_vm.c:469-512 | from a fresh memory, asking for 261887 pages succeeds at page 1 and takes every frame |
| AllocationFailure.MapsWhatFits | proj3-code/code/my_vm.c:492-507 | the loop of n_malloc maps exactly as many pages as there are frames for, with the tables they lack |
| AllocationFailure.MallocLosesPages | proj3-code/code/my_vm.c:469-512 | a failed n_malloc leaves the pages it had no frames for reserved, as many as can be told from the tables before the call; a successful one leaves none |
| AllocationFailure.FreeLosesNoPage | proj3-code/code/my_vm.c:533-583 | n_free neither leaves a page reserved nor frees one that was left so |
| AllocationFailure.ThirdCall | proj3-code/code/my_vm.c:469-512 | after 257 of those pages are freed, asking for 258 pages fails in map_page |
| TlbCache.InsertKeepsCoherent | proj3-code/code/my_vm.c:165-209 | TLB_add keeps virtual page numbers distinct and every valid entry equal to the page walk, through filling and cyclic eviction |
| TlbCache.DropKeepsCoherent | proj3-code/code/my_vm.c:240-259 | TLB_invalidate keeps them so for the page just unmapped |
| TlbCache.DropForgets | proj3-code/code/my_vm.c:240-259 | TLB_invalidate takes the one page out of the buffer: every other page is found as before |
| TlbCache.InsertRemembers | proj3-code/code/my_vm.c:165-209 | TLB_add puts the page in; what is no longer found is the oldest entry, only when the buffer is full and the page was not in it |
| TlbCache.SkippedDropIsStale | proj3-code/code/my_vm.c:240-259 | for the address 0xFFFFFFFF, which TLB_invalidate skips, the buffer stays coherent if and only if the page was not in it |
| TlbCache.LookupIsWalk | proj3-code/code/my_vm.c:220-238 | a hit answers with the value the page walk finds |
| TlbCache.TranslateIsWalk | proj3-code/code/my_vm.c:295-348 | translate answers every address as the page walk would, hit or miss, and keeps the buffer coherent |
| TlbCache.TranslateCounts | proj3-code/code/my_vm.c:295-348 | a miss is counted exactly when the page is not in the buffer, and a mapped page is in it afterwards |
| TlbCache.RunGrows | proj3-code/code/my_vm.c:304-345 | over a run of translations every miss inserts a page not in the buffer, and while fewer than 512 pages are inserted none of them is evicted |
| TlbCache.MissBound | proj3-code/code/my_vm.c:183-207 | from any state of the buffer, a run of translations touching at most 512 mapped pages misses at most once per page, however long the run |
| TlbCache.Tlb.Add | proj3-code/code/my_vm.c:165-209 | updates the entries, the count and the eviction pointer in place as the specification says, and refuses va 0 and an invalid frame |
| TlbCache.Tlb.Check | proj3-code/code/my_vm.c:220-238 | returns what the specification looks up, and nothing for the address 0xFFFFFFFF |
| TlbCache.Tlb.Invalidate | proj3-code/code/my_vm.c:240-259 | drops the entry of the page in place, except for the address 0xFFFFFFFF |
| PhysicalMemory.DataStore | proj3-code/code/my_vm.c:599-633 | bytes stored in a frame that is not a table or the directory leave every translation as it was |
| PhysicalMemory.PteStore | proj3-code/code/my_vm.c:361-412 | storing one page-table entry changes the translation of that one page |
| PhysicalMemory.LinkTable | proj3-code/code/my_vm.c:371-391 | zeroing a frame and linking it as a table maps nothing and keeps tables apart |
| PhysicalMemory.UnlinkTable | proj3-code/code/my_vm.c:571-579 | unlinking an empty table and zeroing it changes no translation |
| PhysicalMemory.UserStore | proj3-code/code/my_vm.c:599-633 | storing bytes in a mapped page changes exactly those virtual bytes and no word of the directory or of a page table |
| VirtualMemorySystem.AddressSplit | proj3-code/code/my_vm.h:74-77 | PDX, PTX and OFF make up the address, and the first two its page number |
| VirtualMemorySystem.VirtualMemory.constructor | proj3-code/code/my_vm.c:104-149 | set_physical_mem establishes the whole invariant with frame 0 the only frame taken and no page reserved |
| VirtualMemorySystem.VirtualMemory.AllocatePhysPage | proj3-code/code/my_vm.c:72-83 | marks and returns the lowest free frame, or fails when all are marked |
| VirtualMemorySystem.VirtualMemory.Translate | proj3-code/code/my_vm.c:295-348 | returns the entry of the page walk, none exactly when the page is unmapped, and counts lookups and misses |
| VirtualMemorySystem.VirtualMemory.LinkNewTable | proj3-code/code/my_vm.c:361-391 | gives the directory slot a zeroed table inside the same memory, without touching any data frame |
| VirtualMemorySystem.VirtualMemory.MapPage | proj3-code/code/my_vm.c:361-412 | maps the page, mapped before or not, or changes nothing; keeps the bytes of every data frame, and puts the page in the buffer |
| VirtualMemorySystem.VirtualMemory.GetNextAvail | proj3-code/code/my_vm.c:428-457 | the scan finds and reserves exactly the lowest free run from page 1 on, and returns 0 only if there is none |
| VirtualMemorySystem.VirtualMemory.PageTableEmpty | proj3-code/code/my_vm.c:514-522 | true if and only if all entries of the table are zero |
| VirtualMemorySystem.VirtualMemory.FreePageAt | proj3-code/code/my_vm.c:552-580 | one turn of the loop of n_free: the page is unmapped, its table released if that empties it, and no other data frame touched |
| VirtualMemorySystem.VirtualMemory.UnmapPage | proj3-code/code/my_vm.c:557-579 | the part of that turn for a mapped page: entry, bitmaps, buffer and an emptied table |
| VirtualMemorySystem.VirtualMemory.NFree | proj3-code/code/my_vm.c:533-583 | keeps the invariant; afterwards the addresses of the pages reached are unmapped and no longer in the look-aside buffer, and every other byte and buffer entry is as before, for every address and size, except where the range comes by 0xFFFFFFFF while its page is in the buffer |
| VirtualMemorySystem.VirtualMemory.MapRun | proj3-code/code/my_vm.c:492-507 | the loop of n_malloc maps the run or gives back the pages it had mapped |
| VirtualMemorySystem.VirtualMemory.NMalloc | proj3-code/code/my_vm.c:469-512 | keeps the invariant and every byte already mapped; on success all the bytes from the returned address on are newly mapped and nothing behind their last page, at one miss a page; otherwise no address is mapped or unmapped; 0 bytes or more than 2^32 - 4096 are refused |
| VirtualMemorySystem.PrefixIsLongest | proj3-code/code/my_vm.c:599-673 | the prefix that put_data writes and get_data reads is the longest one whose addresses are all mapped |
| VirtualMemorySystem.VirtualMemory.PutData | proj3-code/code/my_vm.c:599-633 | writes exactly the prefix before the first unmapped page, whatever the alignment and the number of page crossings, and returns 0 only if that is everything; no mapping and no other byte changes |
| VirtualMemorySystem.VirtualMemory.GetData | proj3-code/code/my_vm.c:643-673 | reads exactly the prefix before the first unmapped page and changes no memory |
| MatrixMultiplication.DotProduct | proj3-code/code/my_vm.c:690-715 | accumulates one element of the product modulo 2^32 from elements that may straddle pages |
| MatrixMultiplication.MatMult | proj3-code/code/my_vm.c:678-721 | when the regions are mapped and the answer overlaps neither input, the answer becomes the matrix product modulo 2^32 and no other byte changes |
| MatrixMultiplication.IdentityLeft | proj3-code/code/my_vm.c:690-715 | with the identity as first matrix the answer is the second |
| MatrixMultiplication.IdentityRight | proj3-code/code/my_vm.c:690-715 | with the identity as second matrix the answer is the first |
| MatrixMultiplication.UnitRight | proj3-code/code/my_vm.c:690-715 | a second matrix with a single 1 at (p, q) moves column p of the first to column q and leaves zeros elsewhere |
| MatrixMultiplication.ProductAdds | proj3-code/code/my_vm.c:690-715 | the answer is additive in the second matrix modulo 2^32, which with the row above fixes it |
| MemoryRuns.HoldsLastPut | proj3-code/code/my_vm.c:469-673 | over every run of n_malloc, n_free, put_data and get_data, each address of a still-allocated page holds the byte last put there |
| MemoryRuns.GetReturnsLastPut | proj3-code/code/my_vm.c:643-673 | get_data returns the last byte put at every address it reaches |
| MemoryRuns.MallocLeaks | proj3-code/code/my_vm.c:492-507 | one n_malloc loses one frame exactly when the tables before it say that the last free frame goes to a page without a table, and none otherwise |
| MemoryRuns.LeakedOverRun | proj3-code/code/my_vm.c:469-583 | over any run the lost frames are as many as the n_malloc calls made in such a state |
| MemoryRuns.MarkedFramesOfRun | proj3-code/code/my_vm.c:72-83 | after any run from a fresh memory, marked frames = 1 + tables + mapped pages + the number of those calls |
| MemoryRuns.LostPagesOverRun | proj3-code/code/my_vm.c:469-583 | over any run the pages reserved for nothing grow by what each n_malloc could not map, and none of them is ever freed |
| MemoryRuns.ReservedPagesOfRun | proj3-code/code/my_vm.c:428-457 | after any run from a fresh memory, reserved pages = mapped pages + those pages |
| MemoryRuns.MapFailureHappens | proj3-code/code/my_vm.c:492-507 | there is a run of three calls from a fresh memory in which one call fails in map_page, and pages are lost |
| MemoryRuns.Perform | proj3-code/code/my_vm.c:469-673 | every call on the memory object is a step of the abstract machine of these runs |
| ThreadQueue.Queue.Enqueue | project2-release/datastructures.c:16-61 | appends one thread to the linked queue, keeping the chain from head to tail |
| ThreadQueue.Queue.Dequeue | project2-release/datastructures.c:16-61 | takes the first thread, or none from an empty queue |
| ThreadHeap.RootIsMinimum | project2-release/datastructures.c:78-132 | in a heap-ordered array the root is a minimum under any total-order comparator |
| ThreadHeap.MinHeap.Push | project2-release/datastructures.c:78-97 | keeps the array heap-ordered and adds exactly the one thread |
| ThreadHeap.MinHeap.Pop | project2-release/datastructures.c:99-132 | keeps the array heap-ordered, removes exactly the thread it returns, and that thread is a minimum |
| ThreadHeap.Drain | project2-release/datastructures.c:99-132 | popping a heap until it is empty returns exactly its threads, in order |
| ThreadHeap.SortThreads | project2-release/datastructures.c:78-132 | n pushes followed by n pops return exactly the threads pushed, sorted |
| ThreadHeap.PsjfOrders | project2-release/thread-worker.c:137-142 | for ids and quanta below 2^31 the comparator is the order by quanta then id, with no ties |
| ThreadHeap.PsjfExact | project2-release/thread-worker.c:137-142 | for any quanta and 32-bit ids, the comparator tells both ways round who comes first if and only if the distance of the deciding fields, cut to 32 bits, is below 2^31 (and not zero when the quanta differ) |
| ThreadHeap.PsjfOrderFails | project2-release/thread-worker.c:137-142 | for quanta 2^31 apart it is not an order: two threads are each smaller than the other |
| ThreadLibrary.ScheduleInv | project2-release/thread-worker.c:840-889 | the switch of schedule and the dispatch that follows keep the invariant, under RR and PSJF |
| ThreadLibrary.CreateInv | project2-release/thread-worker.c:255-327 | worker_create keeps the invariant |
| ThreadLibrary.ExitSwitches | project2-release/thread-worker.c:354-398 | worker_exit hands over to the scheduler with the joining thread woken and in the run structure once |
| ThreadLibrary.JoinInv | project2-release/thread-worker.c:401-455 | worker_join keeps the invariant, whether it refuses, cleans up at once or blocks |
| ThreadLibrary.LockInv | project2-release/thread-worker.c:475-504 | worker_mutex_lock keeps the invariant, whether it acquires or blocks |
| ThreadLibrary.ReleaseInv | project2-release/thread-worker.c:507-533 | worker_mutex_unlock keeps the invariant and wakes one waiter |
| ThreadLibrary.ContinueInv | project2-release/thread-worker.c:443-455 | coming back from a context switch inside join or lock keeps the invariant |
| ThreadLibrary.ActInv | project2-release/thread-worker.c:255-533 | every call of the running thread, and the expiry of its quantum, keeps the invariant |
| ThreadEffects.CreateEffect | project2-release/thread-worker.c:255-327 | worker_create adds a ready thread with the next number, no quanta and the last place in the run structure, and changes nothing else |
| ThreadEffects.YieldEffect | project2-release/thread-worker.c:330-351 | worker_yield puts the caller last without counting a quantum; the thread that goes first runs: the first one, or under PSJF the one with the fewest quanta and then the smallest id |
| ThreadEffects.PreemptEffect | project2-release/thread-worker.c:94-102 | the expiry of a quantum does the same and counts one quantum for the caller |
| ThreadEffects.ExitEffect | project2-release/thread-worker.c:354-398 | worker_exit ends the caller, readies the thread that joins it, and changes no other |
| ThreadEffects.JoinEffect | project2-release/thread-worker.c:401-455 | worker_join refuses an unknown thread, the main thread, the caller and a thread joined already; removes a terminated one; and otherwise blocks the caller as its waiter |
| ThreadEffects.LockEffect | project2-release/thread-worker.c:475-504 | worker_mutex_lock makes the caller the owner of a free mutex, and blocks it behind all others that wait for a locked one |
| ThreadEffects.UnlockEffect | project2-release/thread-worker.c:507-533 | worker_mutex_unlock by the owner frees the mutex, readies the first thread that waits and puts it last in the run structure, keeps the others waiting in order, and the caller runs on; by any other thread it changes nothing |
| ThreadEffects.ContinueEffect | project2-release/thread-worker.c:443-504 | a thread back from join removes the one it joined; one back from lock tries again |
| ThreadRuns.RunInv | project2-release/thread-worker.c:840-889 | the invariant holds in every state of every run from the initial one |
| ThreadRuns.EachThreadInOnePlace | project2-release/thread-worker.c:331-455 | in every reachable state each thread is running, once in the run structure, in exactly one mutex queue or waiter field, or terminated and in none |
| ThreadRuns.MutualExclusion | project2-release/thread-worker.c:475-533 | a mutex has at most one holder, and it is locked while it has one |
| ThreadRuns.NoLostWakeup | project2-release/thread-worker.c:507-533 | while threads wait for a mutex that is free, a woken thread is ready to retry it |
| ThreadRuns.FreedIsUnreferenced | project2-release/thread-worker.c:84-90 | worker_join frees only terminated threads; no queue, waiter field or pending join refers to them afterwards, and a mutex names one as its owner if and only if it held the mutex |
| ThreadRuns.FreedOwnerHappens | project2-release/thread-worker.c:354-455 | a run of five steps after which a mutex names a freed thread |
| ThreadRuns.RunStructureFits | project2-release/datastructures.c:78-97 | in every state of every run with at most 128 threads the run structure has room for one more, which is what every push asks for |
| ThreadWorker.Scheduler.constructor | project2-release/thread-worker.c:216-248 | the state set up for the main thread satisfies the invariant |
| ThreadRunStructure.RunStructure.Add | project2-release/thread-worker.c:822-837 | puts the thread at the end of the linked queue or into the array heap, under the quanta it has |
| ThreadRunStructure.RunStructure.Take | project2-release/thread-worker.c:561-583 | takes out exactly one thread: the first of the queue, or the one that psjf_cmp puts before all others, however the heap is laid out |
| ThreadRunStructure.LeastIsMinimum | project2-release/datastructures.c:99-132 | a minimum of the heap under psjf_cmp is the thread with the fewest quanta and then the smallest id |
| ThreadWorker.ChoiceIsNext | project2-release/thread-worker.c:561-583 | the position the machine chooses is the one the run structure hands out |
| ThreadWorker.Scheduler.AddToScheduler | project2-release/thread-worker.c:822-837 | adds the thread to the run structure, which has room at every call |
| ThreadWorker.Scheduler.Schedule | project2-release/thread-worker.c:840-889 | updates the variables in place as one scheduling step of the machine |
| ThreadWorker.Scheduler.DispatchNext | project2-release/thread-worker.c:561-583 | the thread that the queue or the heap hands out is the one the machine chooses, and it runs |
| ThreadWorker.Scheduler.WorkerCreate | project2-release/thread-worker.c:255-327 | is the create step of the machine, returns the new number and keeps the invariant |
| ThreadWorker.Scheduler.WorkerYield | project2-release/thread-worker.c:330-351 | is the yield step of the machine and keeps the invariant |
| ThreadWorker.Scheduler.TimerHandler | project2-release/thread-worker.c:94-102 | is the preemption step of the machine and keeps the invariant |
| ThreadWorker.Scheduler.WorkerExit | project2-release/thread-worker.c:354-398 | is the exit step of the machine and keeps the invariant |
| ThreadWorker.Scheduler.WorkerJoin | project2-release/thread-worker.c:401-455 | is the join step of the machine and keeps the invariant |
| ThreadWorker.Scheduler.MutexLock | project2-release/thread-worker.c:475-504 | is the lock step of the machine and keeps the invariant |
| ThreadWorker.Scheduler.MutexUnlock | project2-release/thread-worker.c:507-533 | is the unlock step of the machine and keeps the invariant |
| ThreadWorker.Scheduler.Resumed | project2-release/thread-worker.c:443-455 | is the step that finishes an interrupted join or lock and keeps the invariant |
| ThreadExecution.StepKeys | project2-release/thread-worker.c:137-142 | a step makes at most one thread and gives at most one quantum, so after n steps ids and quanta are at most n |
| ThreadExecution.Perform | project2-release/thread-worker.c:255-533 | every action is performed on the scheduler object as one step of the machine, and calls follow on one another |
| ThreadExecution.PerformRun | project2-release/thread-worker.c:216-533 | from init_main_thread on, the object goes through the states of any run of the machine, under PSJF for up to 2^31 - 2 steps |
| Fairness.ExpiryBalances | project2-release/thread-worker.c:849-870 | a timer expiry gives one quantum to the running thread, keeps the quanta of the threads that compete for the processor within one of each other, and touches no other thread, under RR and PSJF |
| Fairness.FairShare | project2-release/thread-worker.c:561-603 | with k threads running or in the run structure, starting at zero, and any others blocked or terminated, after n expiries each of the k has floor(n/k) or one more, exactly n mod k have one more, and the others are as they were |
| RufsLayout.DecodeEncodeInode | project4/code/rufs.h:31-40 | an inode copied to its place on disk and back is the same inode, field by field |
| RufsLayout.InodeOffsets | project4/code/rufs.h:31-40 | a value stored at the offset that C gives a field replaces that field of the inode and no other |
| RufsLayout.ModeOffset | project4/code/rufs.h:31-40 | st_mode is the word at byte 136 of an inode |
| RufsLayout.HalfBit | project4/code/rufs.h:31-48 | 16-bit fields lie on disk lowest byte first |
| RufsLayout.DirentOffsets | project4/code/rufs.h:42-48 | the same for the fields of a directory entry |
| RufsLayout.BitsOfWithMode | project4/code/rufs.c:605-663 | each bit of the mode of a new inode is a bit of the type or of the mode argument |
| RufsLayout.EntryAfterStore | project4/code/rufs.h:42-48 | storing a directory entry in a block changes that entry and none of its eighteen neighbours |
| RufsLayout.NewInodeKind | project4/code/rufs.c:605-663 | the OR of the file type and the mode has the type that S_ISDIR and S_ISREG test if and only if the mode brings no other type bit along |
| RufsInvariants.NewKind | project4/code/rufs.c:605-663 | for every mode argument the new inode is a directory or a file as asked for, or neither when the mode brings the bits of another type |
| RufsLayout.ZeroBlockHasNoEntries | project4/code/rufs.c:597-602 | a zeroed block is an empty directory block, which mkdir relies on |
| RufsInvariants.MkfsInv | project4/code/rufs.c:319-391 | the file system mkfs lays out satisfies the invariant |
| RufsInvariants.AllocInoInv | project4/code/rufs.c:37-57 | an inode number just taken is in no use and named by no entry |
| RufsInvariants.AllocBlkInv | project4/code/rufs.c:62-81 | a block just taken is zero and in no pointer slot |
| RufsInvariants.PutSlots | project4/code/rufs.c:86-137 | writing a block and the inode that points at it changes what that one pointer slot leads to, and no other slot of any inode |
| RufsInvariants.PutBlocksOk | project4/code/rufs.c:62-81 | no block comes to be shared, unmarked or dirty while free |
| RufsAccount.PlacesRunOut | project4/code/rufs.h:17-18 | 16 slots for each of 1024 inodes are as many places as there are blocks: distinct places for all blocks leave none over |
| RufsAccount.BlockLeft | project4/code/rufs.c:62-81 | when some slot has no block charged to it, get_avail_blkno finds a block |
| RufsAccount.MkfsAccounted | project4/code/rufs.c:319-391 | mkfs leaves every marked block charged to a place of its own |
| RufsDirectories.DirFindFinds | project4/code/rufs.c:142-185 | dir_find returns the entry of the name, and nothing only if no entry has it |
| RufsDirectories.DirFindIsMap | project4/code/rufs.c:142-185 | dir_find is a finite map: a directory binds a name to an inode if and only if dir_find returns that inode |
| RufsDirectories.AddInPlaceBinds | project4/code/rufs.c:201-226 | filling an unused entry binds one name and leaves every other binding of every directory |
| RufsDirectories.AddInNewBlockBinds | project4/code/rufs.c:228-261 | so does adding a block to the directory |
| RufsDirectories.DirAddBinds | project4/code/rufs.c:187-262 | dir_add for a new number binds exactly one name, exactly when the name fits, is not taken and there is an unused entry or a null pointer; otherwise no directory and no file changes; it always finds the block it asks for and loses one only in a full directory |
| RufsNamespace.LookupFollowsBindings | project4/code/rufs.c:268-314 | get_node_by_path returns the inode the bindings lead to and fails exactly when they lead nowhere |
| RufsNamespace.PathsAreUnique | project4/code/rufs.c:268-314 | two paths to the same inode are the same path: the namespace is a tree |
| RufsNamespace.PathsAfterMade | project4/code/rufs.c:554-674 | a new binding changes where its own path leads and nothing about any other path |
| RufsMake.BeginBinds | project4/code/rufs.c:566-585 | the common part of mkdir and create makes the entry exactly when the parent, the name, the room and the inode number allow it, with an inode number in no use at all; otherwise it loses the number it has taken, and a block as well if only room was missing |
| RufsMake.MkdirMakes | project4/code/rufs.c:554-616 | mkdir keeps the invariant in every outcome, succeeds if and only if it can bind the name, returns -ENOENT or -1 otherwise and never reports a full disk, fills in number, type, links and mode of the new inode, whose number is the lowest free one, and leaves the directories and files alone when it fails |
| RufsMake.MkdirAddsPath | project4/code/rufs.c:554-616 | a successful mkdir makes its path lead to a new inode without children, a directory unless the mode says otherwise, with type, links and mode as asked for, and every other path leads where it did; after any error all paths lead where they did |
| RufsMake.CreateMakes | project4/code/rufs.c:618-674 | create keeps the invariant in every outcome, succeeds if and only if it can bind the name, tells by its error what was missing, fills in number, type, links and mode of the new inode, whose number is the lowest free one, and leaves the directories and files alone when it fails |
| RufsMake.CreateAddsPath | project4/code/rufs.c:618-674 | a successful create makes its path lead to a new, empty inode, a file unless the mode says otherwise, with type, links and mode as asked for, and every other path leads where it did; after any error all do |
| RufsFiles.WriteLoop | project4/code/rufs.c:762-794 | the loop of write stores all that fits below 65536 block by block, finds every block it needs, and touches no other file |
| RufsReadWrite.WriteFile | project4/code/rufs.c:744-811 | at any offset, a write to a file stores exactly min(n, 65536 - offset) bytes and the new length; it never runs out of blocks |
| RufsReadWrite.WriteKeepsTheRest | project4/code/rufs.c:744-811 | a write, whatever it returns, keeps the invariant, every path and the contents of every other file |
| RufsAttributes.MkdirKeeps | project4/code/rufs.c:554-616 | a successful mkdir leaves every inode in use with its number, type, links and stat; only the parent grows, by the 214 bytes of an entry |
| RufsAttributes.CreateKeeps | project4/code/rufs.c:618-674 | and so does create |
| RufsAttributes.WriteKeeps | project4/code/rufs.c:744-811 | a write changes only the pointers and the length of its own file, and no inode otherwise |
| RufsReadWrite.WriteSplices | project4/code/rufs.c:744-811 | at an offset within the file, min(n, 65536 - offset) is returned and the contents afterwards are the old contents with that many bytes spliced in |
| RufsReadWrite.ReadReaches | project4/code/rufs.c:693-742 | on any file, read returns the bytes from offset up to the end of the request, the end of the file or the first block that is not there, whichever comes first |
| RufsReadWrite.ReadIsSlice | project4/code/rufs.c:693-742 | on a file with all its blocks, read returns exactly the bytes from offset to min(offset + n, length) |
| RufsRuns.StepInv | project4/code/rufs.c:554-811 | every operation keeps the invariant, whatever it returns |
| RufsRuns.BlocksAreSafe | project4/code/rufs.c:62-81 | after any sequence of operations no block is in two pointer slots, every block in use is in the data region and marked, and every free block is zero |
| RufsRuns.NeverOutOfBlocks | project4/code/rufs.c:62-81 | after any sequence of operations, mkdir and write do not return -ENOSPC, and create does so only when every inode number is taken |
| RufsRuns.AccountOfRun | project4/code/rufs.c:37-81 | after any sequence of operations the marked inode numbers are those in use plus one for each mkdir or create that failed after taking one, and the marked blocks are those in some slot plus one for each that failed only because its directory was full |
| RufsRuns.EveryInodeHasOnePath | project4/code/rufs.c:268-314 | after any sequence of operations every inode in use is at exactly one path |
| RufsTree.FileIsItsWrites | project4/code/rufs.c:744-811 | in the tree a file is the fold of all the writes made to it since it was created, whatever else was done in between |
| RufsTree.SequentialFile | project4/code/rufs.c:744-811 | when each of them starts inside the file or at its end, the file has all its blocks, at most 65536 bytes, and is the bytes written, each over the older ones |
| RufsTree.SequentialRead | project4/code/rufs.c:693-742 | such a file is read up to the end of the request or of the file |
| RufsTree.ModeStays | project4/code/rufs.c:477-489 | in the tree a node keeps the mode it was made with, whatever is done afterwards |
| RufsRefinement.ChildrenAreEntries | project4/code/rufs.c:187-262 | a directory has as many paths below it as entries in use, so the 304 entries are the limit on its children |
| RufsRefinement.CanMakeIff | project4/code/rufs.c:566-585 | whether a name can be bound, and what is lost when it cannot, is told by the tree and the count of free inode numbers |
| RufsRefinement.MkdirStep | project4/code/rufs.c:554-616 | mkdir does to the disk what it does to the tree, and returns the same |
| RufsRefinement.CreateStep | project4/code/rufs.c:618-674 | create does to the disk what it does to the tree, and returns the same |
| RufsRefinement.WriteStep | project4/code/rufs.c:744-811 | write does to the disk what it does to the tree, and returns the same, at every offset |
| RufsRefinement.RunShows | project4/code/rufs.c:319-811 | after any sequence of operations the disk shows the tree: the same paths, nodes, bytes and blocks |
| RufsRefinement.ReturnsAsTree | project4/code/rufs.c:554-811 | after any sequence of operations mkdir, create and write return what they return on the tree |
| RufsRefinement.ReadsAsTree | project4/code/rufs.c:693-742 | after any sequence of operations read returns the bytes and the value that it returns on the tree |
| RufsRefinement.ReadsTheWrites | project4/code/rufs.c:693-811 | a file written sequentially, among any other operations, is read as the slice of the bytes written to it since it was created |
| RufsRefinement.AttrAsTree | project4/code/rufs.c:477-489 | after any sequence of operations getattr returns, bit by bit, the mode that the tree has for the path |
| RufsRefinement.StepKeepsAttributes | project4/code/rufs.c:554-811 | no operation changes the number, type, link count or stat of an inode in use |
| RufsRefinement.DirectorySize | project4/code/rufs.c:201-262 | after any sequence of operations the size field of a directory is 214 bytes for each of its children |
| RufsRefinement.LossesShow | project4/code/rufs.c:566-585 | which calls lose an inode number or a block can be told from the tree |
| RufsRefinement.LostNumberHappens | project4/code/rufs.c:654-663 | the same name created twice: one number is lost |
| RufsRefinement.LostBlockHappens | project4/code/rufs.c:228-245 | 305 names created in the root: the last call loses a number and a block |
| RufsOnDisk.DecodedInode | project4/code/rufs.c:113-137 | storing one of the sixteen inodes of a block leaves its neighbours and the rest of the disk alone |
| RufsOnDisk.DecodedData | project4/code/rufs.c:789-789 | storing a data block changes that block of the decoded file system alone |
| RufsOnDisk.RufsDisk.GetAvailIno | project4/code/rufs.c:37-57 | the bitmap scan takes the lowest free inode number, on the disk |
| RufsOnDisk.RufsDisk.GetAvailBlkno | project4/code/rufs.c:62-81 | the bitmap scan takes the lowest free data block, on the disk |
| RufsOnDisk.RufsDisk.Readi | project4/code/rufs.c:86-111 | decodes the inode from its block, and nothing for a number out of range or an inode not in use |
| RufsOnDisk.RufsDisk.Writei | project4/code/rufs.c:113-137 | replaces that inode of the decoded file system |
| RufsOnDisk.RufsDisk.DirFind | project4/code/rufs.c:142-185 | the scan over blocks and entries is dir_find of the decoded file system |
| RufsOnDisk.RufsDisk.DirAdd | project4/code/rufs.c:187-262 | the scans and stores are dir_add of the decoded file system |
| RufsOnDisk.RufsDisk.GetNodeByPath | project4/code/rufs.c:268-314 | the walk is the path lookup of the decoded file system |
| RufsOnDisk.RufsDisk.WriteSuperblock | project4/code/rufs.c:325-345 | block 0 holds the magic number, the limits and the places of the bitmaps, the inodes and the data, at the offsets of struct superblock |
| RufsOnDisk.RufsDisk.Mkfs | project4/code/rufs.c:319-391 | lays out the fresh file system on a zeroed disk, with the superblock and the invariant |
| RufsOnDisk.RufsDisk.Getattr | project4/code/rufs.c:477-489 | returns the mode of the inode at the path |
| RufsOnDisk.RufsDisk.Mkdir | project4/code/rufs.c:554-616 | is mkdir of the decoded file system, with its return value, and keeps the invariant |
| RufsOnDisk.RufsDisk.Create | project4/code/rufs.c:618-674 | is create of the decoded file system, with its return value, and keeps the invariant |
| RufsOnDisk.RufsDisk.Write | project4/code/rufs.c:744-811 | is write of the decoded file system, with its return value, and keeps the invariant |
| RufsExecution.PerformRun | project4/code/rufs.c:319-811 | from mkfs on a zeroed disk, any sequence of calls on the disk itself returns what it returns on the tree, and leaves the superblock as it was |
| RufsExecution.GetattrAfterRun | project4/code/rufs.c:477-489 | and getattr afterwards returns the mode that the tree has |
| RufsExecution.ReadAfterRun | project4/code/rufs.c:693-742 | and a read afterwards copies out the bytes that the tree holds |
| RufsOnDisk.RufsDisk.Read | project4/code/rufs.c:693-742 | copies out the bytes that read of the decoded file system returns, and changes no block |

## Left out

Virtual memory:

- Concurrency: the pthread mutexes, and callers that write through the pointer translate returns. Calls are sequential, and translate's result is the entry's value.
- Page sizes other than 4096, which the header's fixed shift does not support.
- `n_malloc` before `set_physical_mem`: the lazy call at its start is not modelled, the constructor has run.
- VirtualMemorySystem.VirtualMemory.NFree: excludes one case, a range whose addresses lie in the last bytes of pages and come by 0xFFFFFFFF while that page is in the look-aside buffer. `TLB_invalidate` skips this address, so the entry goes stale; SkippedDropIsStale says that the buffer stays coherent in no other case than the ones covered.
- VirtualMemorySystem.VirtualMemory.MapPage: excludes page 0, which the allocator never maps and whose address 0 `TLB_add` refuses.
- The 64-bit wrap of the lookup and miss counters, and `print_TLB_missrate`.
- The benchmark programs that call the library.

Threads:

- The MLFQ and CFS policies, clocks, statistics and the start-time fields.
- The fallback when the run structure is empty (printing statistics and going back to the main thread): the step then has no next state.
- Contexts, stacks and signals: a call is one step up to its context switch, and a quantum expires only between steps. Return values of threads are not modelled.
- ThreadLibrary.ActInv: is for at most 128 threads, main included, so for 127 workers at a time. The source has a place for one more, because main is not in its table; with 128 workers and main all ready, the array of the PSJF heap is one place short. A 129th worker gets no place in the table, so that it cannot be joined. The queue of round robin has no bound.
- Calls made before the first `worker_create`, mutex calls among them, when no thread is running yet.
- The reuse of a freed control block's address by a later thread, which a mutex owner pointer of an exited thread could then match; thread numbers are never reused here.
- ThreadWorker.Scheduler keeps the wait queue of a mutex as a sequence and the control blocks as a map; only the run structure is the linked queue or the array heap itself. Under PSJF its calls ask for ids and quanta below 2^31, where psjf_cmp is an order.
- A new control block starts with no waiting thread, and the main thread with no quanta: the source leaves these fields as malloc returned them.
- `worker_mutex_init` and `worker_mutex_destroy` on a mutex in use.

File system:

- FUSE itself, readdir, open, the fields of getattr other than the mode, and the operations the source leaves as stubs.
- C strings: a path is a sequence of components, not empty and free of NUL; `dirname`, `basename` and `strtok` are not modelled, nor the operation on the path "/" whose base name is "/".
- Fields of the inode's stat other than the mode: times, owner, size and link count.
- I/O errors: the disk is a total array of blocks, zero where never written. That is how `bio_read` behaves beyond the end of the 32 MB file, which is smaller than the data region.
- Indirect pointers, which the source never uses, and file offsets of 2^43 and more, where the block index leaves the range of an `int`.
- RufsReadWrite.WriteSplices: is for offsets within the file. A write beyond the end, or beyond 64 KB, can leave blocks out or grow the length without data; ReturnsAsTree and ReadsAsTree cover these too.

The first project and the sample code are not modelled: they are small or only exercise input and output.
