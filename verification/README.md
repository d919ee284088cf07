# A model of duck_os in Dafny

duck_os is a small RISC-V kernel written in Rust. This project models the parts of it with the
most state and the most branching, and proves what they are for: over every input, every run or
every interleaving. `dafny verify dfyconfig.toml` checks all of it.

## What is modelled

| file | subject | form |
|---|---|---|
| Options.dfy, Bitmap.dfy | the 16-way bitmap tree that hands out frames and descriptors | a class tree of any height, each operation proved equal to its counterpart on a set |
| BitOps.dfy, Sv39.dfy | bit-level page table entries and the 9/9/9 address split | functions, round trips |
| PageTable.dfy, Paging.dfy | Sv39 tables in physical memory, frame allocation | value-level semantics of the three-level walk; classes that do it in place |
| MemoryRuns.dfy | any run of the memory stack | refinement of a flat map and of flat data, the hardware's walk, frame conservation, kernel isolation |
| Cow.dfy, Forks.dfy, Rights.dfy, MemorySets.dfy | fork by sharing and fork by copying, the write fault between them | two step systems and a refinement of contents and of rights; classes with the loops |
| VmaRange.dfy, Segments.dfy | segments, `munmap`, `mprotect`, `find_anywhere` | pointwise specifications; a class with the loops |
| UserStack.dfy | the initial stack of a program | writing loops against a reader that follows the pointers |
| Pipe.dfy | the pipe ring and its readers and writers | a class for the ring; a step system for every interleaving |
| Locks.dfy | spin locks and nested interrupt disabling | a step system at the grain of atomic accesses |
| FdTable.dfy | descriptor tables over the bitmap | a class |
| Disk.dfy | the cursor over 512-byte blocks | a class refining a flat byte array |
| Fat.dfy, FatFiles.dfy | cluster chains, growing, shrinking, reading | table semantics and runs; classes with the loops |
| Paths.dfy, Dentries.dfy, FileTree.dfy | path strings, the dentry tree and its cache | string lemmas; tree semantics and runs; a class with strings |

Values are unbounded unless a width matters; where it does (page table entries, seek positions,
stack words, FAT entries) it is written out. Random bytes, the disk contents that `look_up` can
find, and the frames the allocator hands to a copy are parameters.

## Where the code does less than it promises

Each of these is a lemma or contract that says exactly when the promise holds.

- `is_contain` counts the end of a segment as inside it. A write fault at such an address puts the
  copied page into the wrong segment, exactly when some segment ends there (`Cow.FindVmExact`,
  `Cow.BoundaryStore`, `Forks.StoreAtTheSeam`).
- After a lazy fork a store to a read-only page goes through as long as the page is shared
  (`Cow.ReadOnlyStore`, `Forks.StoreToReadOnly`).
- `mprotect` sets W in the entries of shared pages too, so a fork isolates parent and child only as
  long as no owned page that is still shared is made writable (`Cow.ProtectCorrect`,
  `Cow.ProtectWritable`, `Forks.ProtectLeaks`, `Forks.ProtectAfterFork`).
- An `mprotect` does not reach the entries of pages that are only shared: a child that has just been
  forked changes no entry with it. Entries and segments stay in step exactly if each page in range is
  in a page map or has the rights already (`Rights.ProtectRights`, `Rights.ChildProtect`,
  `Rights.ChildProtectHappens`).
- `munmap` of all of a segment empties it and leaves it in its place, so its addresses stay taken
  (`VmaRange.UnmapPerms`).
- `sys_mprotect` checks the alignment of the start only. An end inside a page of a segment leaves a
  segment that is not page-aligned and the entry of that page as it was (`VmaRange.ProtectAligned`,
  `VmaRange.UnalignedEnd`); length 0 inside a segment loses the rest of it
  (`VmaRange.EmptyRangeLoses`).
- A user table sees kernel mappings made after it exactly if the kernel's root slot was already
  filled (`PageTable.LateKernelMapping`, `MemoryRuns.TooEarly`).
- The initial stack pointer is 16-byte aligned exactly for an odd number of argument and
  environment strings (`UserStack.StackInfo.BuildStack`).
- `test_fd` admits the limit itself, which the bitmap does not have
  (`FdTable.FdTable.InsertSpecFd`); `dup3` onto an open descriptor drops the open flags
  (`FdTable.FdTable.Dup3`); a cloned table has the standard streams back
  (`FdTable.CloneIsCopy`).
- The depth counters survive a guard only if it is dropped on the hart that took it
  (`Locks.DropOnOwnHart`, `Locks.DroppedElsewhere`).
- Of the eight end marks of the FAT standard the first and the last are read as such, the others as
  errors (`Fat.EndMarks`).
- Clusters freed below the allocation mark are counted as free and never used again; freeing
  asserts one of the two end marks that reading accepts (`Fat.EveryRun`, `Fat.ShrinkPassesWhen`,
  `Fat.OtherEndMark`).
- `unlink`, `rename` and a new dentry in place of an old one leave the path cache exact exactly if
  nothing hangs below the old one (`Dentries.UnlinkIndex`, `Dentries.RenameIndex`,
  `Dentries.AddIndex`, `Dentries.BelowIsForgotten`). `sys_linkat` can replace one, because it asks
  the cache about a path that need not be canonical (`FileTree.LinkTest`).
- A dentry stores its name without trailing tabs and newlines and hangs in the tree by the whole
  name; `unlink` uses the stored one, and is right exactly if they are equal
  (`Dentries.UnlinkIndex`, `Dentries.NewlineName`).
- `find_contiguous` finds nothing for size 0 or an alignment above the capacity, and
  `alloc_contiguous_frame` reports failure as an empty list
  (`Bitmap.BitAlloc.FindContiguous`, `Paging.Memory.AllocContiguous`).

## Model

| member | source | states |
|---|---|---|
| Bitmap.BitAlloc.constructor | dependency/bitmap-allocator-main/src/lib.rs:68-71 | a new tree of any height has nothing free |
| Bitmap.BitAlloc.Alloc | dependency/bitmap-allocator-main/src/lib.rs:73-82 | returns and removes the least free index at every depth, nothing exactly when nothing is free; the inner allocation cannot fail |
| Bitmap.BitAlloc.Dealloc | dependency/bitmap-allocator-main/src/lib.rs:91-95 | frees exactly that index and keeps every summary bit equal to "this child has a free index" |
| Bitmap.BitAlloc.ForRange | dependency/bitmap-allocator-main/src/lib.rs:96-101 | inserting or removing a range adds or takes exactly its indices |
| Bitmap.BitAlloc.WalkChildren | dependency/bitmap-allocator-main/src/lib.rs:125-143 | the walk over children gives each child exactly its share of the range and sets its summary bit |
| Bitmap.BitAlloc.SetBits | dependency/bitmap-allocator-main/src/lib.rs:177-182 | the same on a leaf word |
| Bitmap.BitAlloc.IsEmpty | dependency/bitmap-allocator-main/src/lib.rs:102-107 | true exactly when no index is free |
| Bitmap.BitAlloc.Test | dependency/bitmap-allocator-main/src/lib.rs:108-110 | true exactly for a free index |
| Bitmap.BitAlloc.Next | dependency/bitmap-allocator-main/src/lib.rs:111-120 | the least free index not below the key, nothing exactly when there is none |
| Bitmap.BitAlloc.FindContiguous | dependency/bitmap-allocator-main/src/lib.rs:197-228 | the least aligned base whose run is free and below capacity, nothing exactly when there is none (or the size is 0, or the alignment exceeds the capacity) |
| Bitmap.BitAlloc.AllocContiguous | dependency/bitmap-allocator-main/src/lib.rs:83-90 | removes exactly the run that was found |
| Bitmap.SplitOrder | dependency/bitmap-allocator-main/src/lib.rs:91-95 | the order of indices is the order of (child, index in child) |
| Bitmap.MinJoined | dependency/bitmap-allocator-main/src/lib.rs:73-82 | the least index of the first child with a free one is the least of all |
| Bitmap.NextJoined | dependency/bitmap-allocator-main/src/lib.rs:111-120 | skipping children whose summary bit is clear skips no free index |
| Bitmap.JoinedAfterRange | dependency/bitmap-allocator-main/src/lib.rs:125-143 | updating each child by its share updates the union by the range |
| Bitmap.SkipGap | dependency/bitmap-allocator-main/src/lib.rs:197-228 | jumping past a gap passes over no fitting base |
| Bitmap.NothingLeft | dependency/bitmap-allocator-main/src/lib.rs:197-228 | giving up means no base fits |
| Sv39.SplitInjective | os/src/mm/address.rs:102-109 | the 9/9/9 index split is injective on the pages that pass the address assertions |
| Sv39.TopOfChecked | os/src/mm/address.rs:26-31 | the root slot alone tells user pages from kernel pages |
| Sv39.PteRoundTrip | os/src/mm/page_table.rs:47-67 | page number and flags of an entry read back as written |
| Sv39.PteLayout | os/src/mm/page_table.rs:47-67 | every bit of an entry is where section 4.4.1 of the RISC-V Privileged Architecture has it |
| Sv39.SetFlagsRoundTrip | os/src/mm/page_table.rs:94-97 | `set_flags` keeps the page number and replaces the flags |
| Sv39.ModifyBits | os/src/mm/page_table.rs:204-210 | the bit-copying loop computes the entry the next row is about |
| Sv39.ModifiedPteMeaning | os/src/mm/page_table.rs:204-210 | bits R, W, X, U are replaced, all others and the page number kept |
| PageTable.LeafStore | os/src/mm/page_table.rs:213-249 | a store into a leaf entry is seen by that page of that table, or of every table for kernel pages, and by no other page |
| PageTable.KernelWalk | os/src/mm/page_table.rs:116-135 | every table walks kernel pages through the same leaf tables |
| PageTable.MapOnePanics | os/src/mm/page_table.rs:165-173 | `map_one` panics if and only if the page is mapped or the frames for its missing tables are not there |
| PageTable.MapOneCorrect | os/src/mm/page_table.rs:165-173 | on the three-level tree `map_one` is a one-point update of the flat map of all tables; table frames stay distinct, other frames untouched |
| PageTable.MapOneEntry | os/src/mm/page_table.rs:165-173 | the page just mapped looks up with the caller's page number, R, W, X, U, G and COW, and with A, D and V |
| PageTable.HardwareWalk | os/src/mm/page_table.rs:213-249 | the walk of section 4.3.2 of the RISC-V Privileged Architecture finds what `find_pte` finds and never ends above the last level: every upper entry is a pointer |
| PageTable.UnmapCorrect | os/src/mm/page_table.rs:175-182 | `unmap` is a one-point removal |
| PageTable.ModifyFlagsCorrect | os/src/mm/page_table.rs:204-210 | `modify_flags` is a one-point change of R, W, X, U |
| PageTable.NewUserCorrect | os/src/mm/page_table.rs:116-135 | a new user table has the kernel translations and no other, and changes no other table |
| PageTable.LateKernelMapping | os/src/mm/page_table.rs:116-135 | a kernel page mapped after `new_user` is seen by the user table if and only if the kernel root slot was filled before |
| MemoryRuns.RunIsFlat | os/src/mm/page_table.rs:107-249 | any run of table creation and drop, mapping, unmapping, flag changes, page allocation and data stores is the same run on a flat map; no aliasing; frames neither gained nor lost |
| MemoryRuns.HardwareIsFlat | os/src/mm/page_table.rs:107-249 | after any run the hardware translates every page of every table as the flat map has it |
| MemoryRuns.RunKeepsData | os/src/mm/allocator/frame.rs:36-125 | after any run each data page has what was last stored in it, and zeros where nothing was |
| MemoryRuns.KernelIsolation | os/src/mm/page_table.rs:116-182 | after any run every kernel page translates alike in all tables |
| MemoryRuns.OneOwner | os/src/mm/allocator/frame.rs:36-125 | free frames, held frames and the frames of each table are pairwise disjoint |
| MemoryRuns.BootInv | os/src/mm/page_table.rs:107-113 | the state after the first table is made satisfies what the runs keep |
| MemoryRuns.TooEarly | os/src/mm/page_table.rs:116-135 | a user table made right after boot misses every page the kernel maps afterwards |
| MemoryRuns.TooEarlyHappens | os/src/mm/page_table.rs:116-135 | with four free frames the first page of the kernel is such a page |
| Paging.Memory.AllocFrame | os/src/mm/allocator/frame.rs:36-43 | takes the least free frame and zeroes it, nothing exactly when none is free |
| Paging.Memory.DropFrame | os/src/mm/allocator/frame.rs:52-56 | gives exactly that frame back |
| Paging.Memory.ZeroFrame | os/src/mm/allocator/frame.rs:36-43 | clears that frame and no other |
| Paging.Memory.AllocContiguous | os/src/mm/allocator/frame.rs:110-121 | takes the least free run of that length and zeroes it; an empty list when there is none |
| Paging.PageTable.FindPteCreate | os/src/mm/page_table.rs:213-231 | reaches the leaf slot, adding the missing tables |
| Paging.PageTable.FindPte | os/src/mm/page_table.rs:233-249 | reaches the leaf slot exactly when the two upper entries and the leaf entry are valid |
| Paging.PageTable.MapOne | os/src/mm/page_table.rs:165-173 | in place, what the function of PageTable.MapOneCorrect does |
| Paging.PageTable.Unmap | os/src/mm/page_table.rs:175-182 | in place, what the function of PageTable.UnmapCorrect does |
| Paging.PageTable.ModifyFlags | os/src/mm/page_table.rs:204-210 | in place, what the function of PageTable.ModifyFlagsCorrect does |
| Paging.NewUserTable | os/src/mm/page_table.rs:116-135 | in place, what the function of PageTable.NewUserCorrect does |
| Cow.LazyRefinesEager | os/src/mm/memory_set/mem_set.rs:408-477 | after the same reads, stores, forks, exits and `mprotect`s, in any order, copy-on-write and copying show every process the same pages; an `mprotect` that makes an owned and shared page writable is excluded, by Cow.ProtectCorrect |
| Forks.EveryLazyRunHasAnEagerOne | os/src/mm/memory_set/mem_set.rs:408-477 | every run with copy-on-write has a run with copies, of the same actions, that shows every process the same pages |
| Rights.RightsRefine | os/src/mm/memory_set/mem_set.rs:408-477 | after the same actions copy-on-write and copying let every process read and execute the same pages, if the `mprotect`s of the lazy run reach the pages in their range |
| Rights.BehaviourRights | os/src/mm/memory_set/mem_set.rs:408-477 | under either kind of fork each page has the permission the actions prescribe, and its entry agrees in R, X and U |
| Rights.EagerReaches | os/src/mm/memory_set/mem_set.rs:458-477 | with copies every `mprotect` reaches the pages in its range |
| Rights.ProtectRights | os/src/mm/vma.rs:266-276 | `mprotect` keeps entries and segments in step if and only if each page in range is in its segment's page map or has the rights already |
| Rights.ChildProtect | os/src/mm/vma.rs:266-276 | right after a lazy fork the child's `mprotect` of a segment to other rights changes no entry |
| Rights.ChildProtectHappens | os/src/mm/vma.rs:266-276 | a child that asks for X on a data page does not get it |
| Cow.BehaviourCorrect | os/src/mm/memory_set/mem_set.rs:408-477 | under either kind of fork each process sees what its own stores and its ancestors' before the fork prescribe |
| Cow.MappedFrames | os/src/mm/memory_set/mem_set.rs:408-456 | a frame mapped writable is mapped once in all spaces, and every mapped frame is held by the space that maps it |
| Cow.ForkLazyCorrect | os/src/mm/memory_set/mem_set.rs:408-456 | a lazy fork keeps that and shows the child the parent's contents |
| Cow.ForkLazyRights | os/src/mm/memory_set/mem_set.rs:424-450 | every entry of parent and child has the page, R, X, U and G that the parent's had, W clear and COW set; segments keep bounds and permissions; no other space changes |
| Cow.ForkEagerCorrect | os/src/mm/memory_set/mem_set.rs:458-477 | so does an eager one |
| Cow.ForkEagerRights | os/src/mm/memory_set/mem_set.rs:458-477 | every entry of the copy grants R, W, X and U as its segment does; segments keep bounds and permissions; no other space changes |
| Cow.CowFaultCorrect | os/src/mm/memory_set/page_fault.rs:164-201 | the fault handler keeps that and every process's contents |
| Cow.CowFaultRights | os/src/mm/memory_set/page_fault.rs:164-201 | the page has its R, X, U and G, W set and COW clear; every other entry, bound and permission is as before |
| Cow.StoreLazyCorrect | os/src/mm/memory_set/page_fault.rs:164-201 | a store to a writable segment changes that word for that process alone |
| Cow.PokeCorrect | os/src/mm/memory_set/page_fault.rs:164-201 | a store to a page that is not shared reaches nobody else |
| Cow.FindVmExact | os/src/mm/memory_set/mem_set.rs:358-369 | the search by address finds the covering segment if and only if no segment ends at that address |
| Cow.BoundaryStore | os/src/mm/memory_set/mem_set.rs:371-405 | a faulting store keeps page ownership in order if and only if no segment ends at its address |
| Cow.ReadOnlyStore | os/src/mm/memory_set/page_fault.rs:164-201 | a store goes through if and only if the segment is writable or the page is still shared |
| Forks.StoreAtTheSeam | os/src/mm/vma.rs:309-311 | after a fork of two adjacent one-page segments, a store to the first byte of the second breaks page ownership |
| Cow.ProtectCorrect | os/src/mm/vma.rs:266-276 | `mprotect` changes nobody's contents, and keeps what the forks rely on if and only if it does not make a page writable that is both in its segment's page map and shared |
| Cow.ProtectWritable | os/src/mm/vma.rs:266-276 | after it a frame mapped writable is mapped once if and only if nobody else maps the pages made writable that way |
| Forks.ProtectLeaks | os/src/mm/vma.rs:266-276 | an owned page that another process still maps, given the writable permission it has: the next store is seen by that process |
| Forks.ProtectAfterFork | os/src/mm/vma.rs:266-276 | after a fork of a two-page process the parent can do just that to page 1, and the child's page changes |
| Forks.LoadedSpace | os/src/process/loader/mod.rs:62-73 | the empty heap segment that the loader adds leaves a well-formed space well-formed, and a resident one resident |
| Forks.StoreToReadOnly | os/src/mm/memory_set/page_fault.rs:164-201 | a read-only page that refuses a store takes it after a fork |
| MemorySets.AddressSpaces.FromUserLazily | os/src/mm/memory_set/mem_set.rs:408-456 | the two nested loops compute the lazy fork of Cow.ForkLazyCorrect |
| MemorySets.AddressSpaces.FromUser | os/src/mm/memory_set/mem_set.rs:458-477 | the copying loops compute an eager fork in the sense of Cow.ForkEagerCorrect |
| MemorySets.AddressSpaces.IsInCow | os/src/mm/cow.rs:32-42 | true exactly for a page in the shared map |
| MemorySets.AddressSpaces.FindVmByVaddr | os/src/mm/memory_set/mem_set.rs:358-369 | the first segment whose closed interval holds the address |
| MemorySets.AddressSpaces.HandleCowFault | os/src/mm/memory_set/page_fault.rs:164-201 | copies or takes back the page as the function of Cow.CowFaultCorrect does |
| MemorySets.AddressSpaces.Store | os/src/mm/memory_set/mem_set.rs:371-405 | a store with its fault, as the function of Cow.StoreLazyCorrect |
| VmaRange.LoadedArea | os/src/process/loader/mod.rs:62-73 | so does it in the area of `mmap` and `munmap` |
| VmaRange.CutPages | os/src/mm/vma.rs:313-340 | the surviving pieces own exactly the segment's pages outside the cut |
| VmaRange.CutPartition | os/src/mm/vma.rs:291-340 | the surviving pieces partition the old interval minus the cut, each with its own pages only and the old permission |
| VmaRange.RoundingOverlap | os/src/mm/vma_range/vma_range.rs:61-81 | rounding the range to pages changes no overlap |
| VmaRange.UnmapPages | os/src/mm/vma_range/vma_range.rs:61-81 | one `unmap` removes exactly the owned pages of the page-rounded range |
| VmaRange.UnmapTranslations | os/src/mm/vma_range/vma_range.rs:61-81 | and exactly the translations of the segments there; all others are unchanged |
| VmaRange.UnmapPerms | os/src/mm/vma_range/vma_range.rs:61-81 | afterwards the segments cover the pages outside the range, and those of a segment that lies wholly inside, each with the permission it had |
| VmaRange.ProtectOneOk | os/src/mm/vma.rs:342-368 | protecting one segment keeps segments disjoint and keyed by start |
| VmaRange.MprotectCorrect | os/src/mm/vma_range/vma_range.rs:84-108 | `mprotect` is a pointwise permission update: same union, same owners; resident entries in range get R, W, X and U of the permission and keep all else |
| VmaRange.ProtectAligned | os/src/syscall/mm.rs:104-117 | with its start aligned, as the system call checks, protecting a segment keeps the area well-formed if and only if the end is aligned or not inside the segment |
| VmaRange.UnalignedEnd | os/src/mm/vma.rs:342-368 | otherwise the page holding the end goes to the part past it and keeps its entry, and a segment ends inside a page |
| VmaRange.EmptyRangeLoses | os/src/mm/vma_range/vma_range.rs:84-108 | an empty range strictly inside a segment: every page from there to its end is in no segment afterwards, and translated as before |
| Segments.AddressSpace.FindAnywhere | os/src/mm/vma_range/vma_range.rs:43-59 | the lowest clear address range of that length from the hint (or the bottom of the mmap area) up; none means every clear one ends past the top |
| Segments.AddressSpace.Remove | os/src/mm/vma.rs:279-284 | drops every page of the segment and its translations, and no other |
| Segments.AddressSpace.UnmapIfOverlap | os/src/mm/vma.rs:313-340 | the cut pieces of VmaRange.CutPartition, with the translations of the cut gone |
| Segments.AddressSpace.Modify | os/src/mm/vma.rs:266-276 | new permission; the entries of the resident pages get its R, W, X and U and keep all else |
| Segments.AddressSpace.OverlappingKeys | os/src/mm/vma_range/vma_range.rs:61-81 | exactly the starts of the segments that meet the range |
| Segments.AddressSpace.Unmap | os/src/mm/vma_range/vma_range.rs:61-81 | the loops do what VmaRange.UnmapPages, VmaRange.UnmapTranslations and VmaRange.UnmapPerms say |
| Segments.AddressSpace.Mprotect | os/src/mm/vma_range/vma_range.rs:84-108 | on any range the loops protect the overlapping segments one after another; on an aligned nonempty one that is what VmaRange.MprotectCorrect says |
| UserStack.StackInfo.BuildStack | os/src/process/loader/stack.rs:81-227 | reading memory from the returned layout gives argc, argv, envp and auxv back; all writes lie in [sp, top); sp is 8-byte aligned, and 16-byte aligned if and only if the strings are odd in number |
| UserStack.StackInfo.PlaceStrings | os/src/process/loader/stack.rs:89-169 | environment, argument and platform strings and the random bytes are placed below each other and none is overwritten |
| UserStack.StackInfo.PlaceArrays | os/src/process/loader/stack.rs:172-227 | auxv, envp, argv and argc are placed below them and leave them intact |
| UserStack.Memory.PushStrings | os/src/process/loader/stack.rs:90-130 | every string is placed with its NUL and its address recorded |
| UserStack.StackReads | os/src/process/loader/stack.rs:81-227 | a reader that follows the pointers gets exactly the strings and pairs that were passed |
| UserStack.ImageReads | os/src/process/loader/stack.rs:81-227 | the auxiliary vector leads to the platform string, the random bytes and the program name |
| UserStack.ImageFromStart | os/src/process/loader/stack.rs:29-80 | so they do for a program that takes the first entry of each kind, if the vector had none of the three before |
| UserStack.ReadStringsAt | os/src/process/loader/stack.rs:187-214 | a NULL-terminated pointer array reads back as the strings it points at |
| UserStack.ReadCStringAt | os/src/process/loader/stack.rs:90-130 | a NUL-terminated string reads back if it has no NUL inside |
| UserStack.ReadAuxvAt | os/src/process/loader/stack.rs:171-185 | the pairs read back up to the terminating AT_NULL |
| UserStack.WordRoundTrip | os/src/process/loader/stack.rs:172-227 | the bytes of a word read back as the word |
| Pipe.EveryRun | os/src/fs/pipe.rs:66-122 | in every interleaving: bytes delivered, then the ring, are the bytes accepted, in order; each call has its own bytes in order; a short read has missed nothing; a short write met a full ring with no reader |
| Pipe.NeverBothWait | os/src/fs/pipe.rs:66-122 | a reader and a writer in progress are never both made to wait |
| Pipe.History | os/src/fs/pipe.rs:66-122 | in every run an end is open unless it was closed, the calls are those that were started, with their requests, and a call that returned stays as it returned |
| Pipe.PassTakesAll | os/src/fs/pipe.rs:66-122 | a pass goes on until its call is served or the ring is empty, or full |
| Pipe.RunKeeps | os/src/fs/pipe.rs:66-122 | what every step of every reader and writer keeps |
| Pipe.PassWaits | os/src/fs/pipe.rs:66-122 | a pass neither returns nor moves a byte exactly when it has to wait for the other end |
| Pipe.PipeRingBuffer.ReadPass | os/src/fs/pipe.rs:66-93 | one locked pass of `read` is the pass of the step system |
| Pipe.PipeRingBuffer.WritePass | os/src/fs/pipe.rs:95-122 | one locked pass of `write` is the pass of the step system |
| Pipe.PipeRingBuffer.ReadByte | os/src/fs/pipe.rs:155-166 | takes the oldest byte, fails exactly on an empty ring |
| Pipe.PipeRingBuffer.WriteByte | os/src/fs/pipe.rs:168-179 | appends the byte, fails exactly on a full ring |
| Pipe.PipeRingBuffer.AvailableRead | os/src/fs/pipe.rs:197-207 | the number of bytes in the ring, also when it is full and head meets tail |
| Pipe.PipeRingBuffer.AvailableWrite | os/src/fs/pipe.rs:209-215 | the number of bytes that fit |
| Pipe.Pop | os/src/fs/pipe.rs:155-166 | advancing the head modulo the size drops the first byte of the queue |
| Pipe.Push | os/src/fs/pipe.rs:168-179 | storing at the tail modulo the size appends to the queue |
| Locks.EveryRun | os/src/sync/spin_mutex.rs:37-103 | in every interleaving: a flag is set exactly while one guard exists, no two do, each hart's depth counts its acquisitions begun and not finished, interrupts are off while it is positive, and `push_on` never gives up |
| Locks.Restored | os/src/sync/interrupt.rs:53-78 | whatever nests, overlaps or is refused, the interrupt bit ends at its value before the outermost acquisition |
| Locks.GuardOwns | os/src/sync/spin_mutex.rs:84-103 | while a guard is held nobody else takes the lock or changes what it protects |
| Locks.GuardKeeps | os/src/sync/spin_mutex.rs:84-103 | what the holder wrote last is there as long as it holds the guard, whatever others do |
| Locks.SieKept | os/src/sync/interrupt.rs:53-78 | the interrupt bit last set is the one the hart has whenever nothing is nested |
| Locks.ExchangeTakes | os/src/sync/spin_mutex.rs:37-81 | an exchange takes the lock if and only if nobody holds it; refused, `try_lock` gives up and `lock` waits as before |
| Locks.NoPanic | os/src/sync/interrupt.rs:67-78 | no step from a reachable state reaches the `todo!`, in any order of release |
| Locks.DropOnOwnHart | os/src/sync/spin_mutex.rs:98-103 | the depths survive dropping a guard if and only if it is dropped on the hart that took it, or its lock leaves interrupts on |
| Locks.DroppedElsewhere | os/src/sync/interrupt.rs:67-78 | a guard taken on hart 0 and dropped on hart 1 makes `push_on` give up |
| Locks.StepExclusive | os/src/sync/spin_mutex.rs:37-103 | each atomic step keeps a flag equal to "one guard exists" |
| Locks.StepCounted | os/src/sync/interrupt.rs:53-78 | each atomic step keeps the depth equal to the number of acquisitions |
| Locks.Cpu.PushOff | os/src/sync/interrupt.rs:53-63 | one level deeper with interrupts off; the bit to restore is kept |
| Locks.Cpu.PushOn | os/src/sync/interrupt.rs:67-78 | one level back; the bit is restored at the outermost |
| Locks.SpinMutex.TryLock | os/src/sync/spin_mutex.rs:65-81 | takes a free lock; a refusal leaves the interrupt bit and depth as they were |
| Locks.SpinMutex.Unlock | os/src/sync/spin_mutex.rs:98-103 | clears the flag and undoes one level |
| FdTable.FdTable.constructor | os/src/fs/fd_table.rs:100-117 | the three standard descriptors, one to read and two to write, none close-on-exec, and all others unused |
| FdTable.FdTable.InsertGetFd | os/src/fs/fd_table.rs:66-70 | the lowest unused descriptor; an error exactly when all 256 are in use |
| FdTable.FdTable.InsertSpecFd | os/src/fs/fd_table.rs:73-91 | that descriptor if it was unused, refused if in use or past the limit; the limit itself runs past the bitmap |
| FdTable.FdTable.AllocSpecFd | os/src/fs/fd_table.rs:29-37 | takes exactly that descriptor if it was unused |
| FdTable.FdTable.Close | os/src/fs/fd_table.rs:154-157 | closes that descriptor and makes it unused again |
| FdTable.FdTable.CloseExec | os/src/fs/fd_table.rs:119-131 | a descriptor is open afterwards if and only if it was open and not close-on-exec, with its entry unchanged |
| FdTable.FdTable.FromCloneCopy | os/src/fs/fd_table.rs:133-146 | every descriptor from 3 up is carried over, the first three are standard ones; the assertion holds |
| FdTable.FdTable.Dup3 | os/src/syscall/fs.rs:159-187 | both descriptors name one file; which flags the new one has; the error cases and the two panics |
| FdTable.CloneIsCopy | os/src/fs/fd_table.rs:133-146 | the copy equals the original if and only if the original still has the three standard descriptors |
| FdTable.Reopened | os/src/fs/fd_table.rs:66-70 | a closed descriptor is the next one handed out if and only if nothing lower is unused |
| Disk.Disk.Read | os/src/fs/ext4/disk.rs:104-120 | fills the buffer with the bytes at the position and advances past them, never short |
| Disk.Disk.Write | os/src/fs/ext4/disk.rs:121-136 | replaces exactly the bytes at the position, advances, never short |
| Disk.Disk.ReadOne | os/src/fs/ext4/disk.rs:44-71 | a whole or partial block; at least one byte |
| Disk.Disk.WriteOne | os/src/fs/ext4/disk.rs:74-98 | a whole block, or read-modify-write of a part |
| Disk.Disk.SetPosition | os/src/fs/ext4/disk.rs:38-41 | `position` after `set_position` is what was set |
| Disk.Disk.Seek | os/src/fs/ext4/disk.rs:140-165 | the new position or an error, with the casts between signed and unsigned 64 bits |
| Disk.WriteSeekRead | os/src/fs/ext4/disk.rs:104-165 | write, seek back, read returns the data, and no other byte has changed |
| Disk.FlatBlock | os/src/fs/ext4/disk.rs:44-71 | block `b` is the stretch of the flat array at 512 * b |
| Disk.FlatUpdate | os/src/fs/ext4/disk.rs:74-98 | replacing a block replaces that stretch and nothing else |
| Disk.CastRoundTrip | os/src/fs/ext4/disk.rs:149-163 | an unsigned position cast to signed and back is unchanged |
| Fat.EveryRun | os/src/fs/fat32/fat_file.rs:39-94 | after any run of growing and shrinking: each cluster vector is the only chain from its first cluster, of length ceil(size / cluster size), without repeats, apart from all others; entries from the mark up are free; the count is exact; each cluster that is free below the mark stays free |
| Fat.OneChain | os/src/fs/fat32/fat.rs:89-110 | a first cluster has at most one chain |
| Fat.LinkReads | os/src/fs/fat32/fat.rs:22-33 | every cluster of a table reads back as a link to itself, and a free entry as free |
| Fat.EndMarks | os/src/fs/fat32/fat.rs:22-33 | of the standard's eight end marks two are read as an end |
| Fat.NoRepeats | os/src/fs/fat32/fat.rs:89-110 | a chain that ends visits no cluster twice |
| Fat.GrowCorrect | os/src/fs/fat32/fat_file.rs:76-91 | growing extends this chain by fresh clusters and leaves every chain apart from it a chain |
| Fat.ShrinkCorrect | os/src/fs/fat32/fat_file.rs:62-75 | shrinking cuts this chain, counts what it frees, and leaves every chain apart from it a chain |
| Fat.ShrinkPassesWhen | os/src/fs/fat32/fat.rs:68-86 | the assertions of freeing hold if and only if nothing is freed or the chain ends in the mark 0x0FFFFFFF |
| Fat.OtherEndMark | os/src/fs/fat32/fat.rs:22-33 | a two-cluster chain that ends in 0x0FFFFFF8 is a chain, and cannot be shrunk |
| Fat.ResizeCorrect | os/src/fs/fat32/fat_file.rs:61-94 | the new size, and the same first cluster; the mark and the clusters stranded below it never go down |
| Fat.ClustersLeast | os/src/fs/fat32/fat_file.rs:62-66 | the rounded quotient is the least number of clusters that hold the bytes |
| Fat.AllocStep | os/src/fs/fat32/fat.rs:46-65 | one allocation appends the cluster at the mark to this chain only |
| Fat.ReleaseStep | os/src/fs/fat32/fat.rs:68-86 | one release drops the last cluster of this chain only |
| FatFiles.FatTable.AllocCluster | os/src/fs/fat32/fat.rs:46-65 | in place, the function of Fat.AllocStep |
| FatFiles.FatTable.FreeCluster | os/src/fs/fat32/fat.rs:68-86 | in place, the function of Fat.ReleaseStep |
| FatFiles.FatTable.FindAllCluster | os/src/fs/fat32/fat.rs:89-110 | ends, and returns the chain, whenever there is one |
| FatFiles.FatDiskFile.constructor | os/src/fs/fat32/fat_file.rs:25-50 | the chain from the directory entry, with a size that fills it |
| FatFiles.FatDiskFile.ModifySize | os/src/fs/fat32/fat_file.rs:61-94 | the loops do what Fat.ResizeCorrect says, and the chain read back changes nothing |
| FatFiles.FatDiskFile.Read | os/src/fs/fat32/fat_file.rs:100-135 | the buffer holds exactly the file's bytes at the offset, as many as there are and fit, each from its place on the device; the rest of it is unchanged |
| FatFiles.FatDiskFile.ReadSector | os/src/fs/fat32/fat_file.rs:111-131 | one sector contributes exactly its part |
| FatFiles.FatDiskFile.ByteInPlace | os/src/fs/fat32/utility.rs:88-92 | sector and offset of a byte are those of its place: cluster 2 right after the FATs, each further one a cluster size on |
| FatFiles.BytesApart | os/src/fs/fat32/utility.rs:88-92 | no byte of one file is on the device where a byte of another is, nor where another of its own is |
| Dentries.EveryRun | os/src/fs/ext4/ext4_dentry.rs:92-310 | after any run of create, link and look_up with any names, leaf rename, and unlink of leaves that store the name they hang by, the cache is exactly the path index of the tree |
| Dentries.RunLooks | os/src/fs/ext4/ext4_dentry.rs:92-310 | after any such run every path leads to the dentry and inode that the paths made, removed and moved prescribe |
| Dentries.StepLooks | os/src/fs/ext4/ext4_dentry.rs:92-310 | each step changes the paths it names and no other: a removed path leads nowhere, a moved one to what was moved |
| Dentries.UnlinkIndex | os/src/fs/ext4/ext4_dentry.rs:141-148 | `unlink` leaves the cache exact if and only if nothing hangs below the dentry and the name it stores is the one it hangs by |
| Dentries.RenameIndex | os/src/fs/ext4/ext4_dentry.rs:261-298 | `rename` leaves the cache exact if and only if nothing hangs below the dentry |
| Dentries.AddIndex | os/src/fs/ext4/ext4_dentry.rs:228-250 | a new dentry leaves the cache exact if and only if it replaces nothing, or something with nothing below it |
| Dentries.RunNamed | os/src/fs/dentry.rs:44-66 | while no new name ends in a tab or a newline every dentry stores the name it hangs by, so `unlink` is safe on every leaf |
| Dentries.NewlineName | os/src/fs/dentry.rs:44-66 | a file named "a" and a newline stores "a"; `unlink` takes it out of the cache and leaves it in the tree |
| Dentries.BelowIsForgotten | os/src/fs/ext4/ext4_dentry.rs:141-298 | with `/x/y` there, unlinking, replacing or moving `/x` leaves `/x/y` in the cache |
| Dentries.InvIndex | os/src/fs/dentry.rs:115-123 | a cached path is the walk of its components, and every walk is cached |
| Dentries.FreshPath | os/src/fs/ext4/ext4_dentry.rs:92-113 | a name unused in a directory makes a path unused anywhere |
| Dentries.AddKeeps | os/src/fs/ext4/ext4_dentry.rs:92-113 | a new dentry, also in place of a leaf, keeps every dentry's path, parent and children consistent |
| Dentries.UnlinkKeeps | os/src/fs/simplefs/simple_dentry.rs:124-131 | so does removing a leaf that stores the name it hangs by |
| Dentries.RenameKeeps | os/src/fs/ext4/ext4_dentry.rs:261-298 | and moving one |
| FileTree.FileTree.PathToDentry | os/src/fs/dentry.rs:130-175 | for any string: the dentry its nonempty components lead to through tree and disk; otherwise some component is on neither |
| FileTree.FileTree.Create | os/src/fs/ext4/ext4_dentry.rs:92-113 | a new dentry in tree and cache, over whatever had the name, storing the trimmed last component of its path |
| FileTree.FileTree.Link | os/src/fs/simplefs/simple_dentry.rs:175-197 | a second dentry for the same inode, over whatever had the name |
| FileTree.LinkTest | os/src/syscall/fs.rs:496-498 | the cache test of `sys_linkat` knows a path in use if and only if the path is canonical |
| FileTree.SlashPassesForNew | os/src/syscall/fs.rs:496-507 | `/x/` passes it while `/x` is there, and names `/x` to `link` |
| FileTree.FileTree.LookUp | os/src/fs/ext4/ext4_dentry.rs:180-226 | the child, or the one on the disk entered in tree and cache |
| FileTree.FileTree.Unlink | os/src/fs/ext4/ext4_dentry.rs:141-148 | out of the cache by its path and out of its directory by the name it stores; the removal step of Dentries.RunLooks when it is a leaf that stores the name it hangs by |
| FileTree.FileTree.Rename | os/src/fs/ext4/ext4_dentry.rs:261-298 | out of one directory into another, cache and stored path with it; onto a directory with something in it, refused with nothing changed |
| Paths.ParentAndName | os/src/utils/path.rs:17-47 | `parent_path` and `dentry_name` undo `cwd_and_name` on canonical paths |
| Paths.CwdAndNamePath | os/src/utils/path.rs:89-99 | adding a name to a canonical path gives the canonical path of the longer list |
| Paths.NamesOfPath | os/src/utils/path.rs:34-47 | splitting a canonical path gives its components |
| Paths.NamesAreNames | os/src/utils/path.rs:34-47 | the components of any string are nonempty and free of slashes |

## Left out

- ELF loading, scheduling, signals, traps and system-call decoding: control flow around the modelled parts.
- TLB flushes and `activate`: a translation is what the tables in memory say.
- `from_user_lazily` does not copy `heap_end` to the child; heap growth is not part of the model.
- Lazy allocation, file-backed and direct-mapped segments, and page cache writeback: segments in Cow.dfy and VmaRange.dfy hold resident anonymous pages; a page is 512 words.
- The page tables in Cow.dfy and VmaRange.dfy are flat maps; MemoryRuns.RunIsFlat is why that loses nothing.
- Cow.LazyRefinesEager: an `mprotect` is what VmaRange.MprotectCorrect makes of it page by page; into which segments it cuts the space is left open.
- Rights.RightsRefine: compares reading, executing and user mode; W is gone while a page is shared, and Cow.ReadOnlyStore says when a store goes through.
- Reference counts: a frame is held by a space when it is in its page map or its shared map, and freed when no space holds it.
- MemorySets.AddressSpaces.FromUser: the frames for the copies are given, not drawn from the bitmap.
- MemorySets.AddressSpaces.HandleCowFault: the frame for the copy is given, not drawn from the bitmap.
- Segments.AddressSpace.Unmap: states owned pages, translations and permissions; a segment cut away whole stays in the map as an empty one and a shrunk one keeps its old key, as in the original, so a second `unmap` over them is not covered.
- Segments.AddressSpace.Mprotect: requires the resident pages that splitting a segment demands of the original, and an end not below the start, which the original asserts.
- Segments.AddressSpace.UnmapIfOverlap: requires the resident pages that splitting a segment demands of the original.
- Blocking: the waiting loops of pipes and locks are steps that change nothing; fairness and the dead-lock counter of `lock` are not modelled.
- Pipe.PipeRingBuffer.ReadPass: a read into an empty buffer indexes past it in the original and is excluded; so is an empty write.
- Weak memory: atomic accesses are sequentially consistent; the depth counter does not overflow.
- Locks.SpinMutex.TryLock: alone on its hart; interleavings are the subject of Locks.EveryRun.
- Disk.Disk.Read: positions within the device; the original leaves anything beyond to the driver, which is not part of this model.
- Disk.Disk.Write: positions within the device, as for Disk.Disk.Read.
- Disk.Disk.ReadOne: positions within the device, as for Disk.Disk.Read.
- Disk.Disk.WriteOne: positions within the device, as for Disk.Disk.Read.
- FatFiles.FatDiskFile.ModifySize: growing requires room between the mark and the end of the table, which the original does not check, and a file with at least one cluster, without which it panics.
- FatFiles.FatTable.AllocCluster: requires the mark to be inside the table, which the original does not check; past it the original writes outside the table.
- `FatDiskFile::write`, directory entries on disk, the block cache and the second FAT copy.
- FileTree.FileTree.Rename: to a free name in another directory, or onto a directory that is not empty; with one directory twice, or onto a file or an empty directory, the original takes a lock it holds.
- Link counts, symbolic links, mount points and what ext4 stores; dentries are numbers in one table, so sharing and locking of dentries are not captured.
- Relative paths and `..`: how a path is made absolute before it is looked up.
