# A verified model of the pumpsOS kernel core

pumpsOS is a small 32-bit x86 kernel. This project models the parts of it whose correctness spans several functions,
in Dafny, and proves for all inputs, all runs or all reachable states what those parts are meant to guarantee.

- **Frames and paging** (`Pmm`, `Paging`, `VmmCost`, `Vmm`). The frame bitmap with the code's own 32-bit arithmetic;
  physical memory as words in frames; the two-level page walk through the directory in CR3; every table access through
  the recursive windows at `0xFFFFF000` and `0xFFC00000`. An owner is recorded for each frame in use, and create,
  clone and destroy of address spaces are shown to conserve frames exactly, on their failure paths too. What code in
  ring 3 can reach is followed through both levels. A clone is a private copy, and it succeeds exactly when the frames
  left cover what the source's pages and tables cost.
- **PumpsFS** (`PfsLayout`, `PfsSpec`, `PfsWrite`, `PfsGap`, `Pfs`, `PfsWitness`). A disk of 512-byte sectors with
  bitmaps, packed inodes and a directory block, down to bytes and bits. Over every run it refines a finite map from
  names to byte strings, with the exact effect of writes that run out of blocks; a write at an offset is a splice;
  block sharing never happens.
- **Kernel heap** (`HeapSpec`, `HeapMalloc`, `Heap`, `HeapRuns`). Doubly linked block headers in memory refine a
  sequence of blocks that tiles the heap; first fit, split, growth and coalescing for every 32-bit request, with the
  sums that wrap. Over runs, the heap stays in order exactly when every call is one the code can handle, live payloads
  are never touched, and every byte handed out lies on a mapped page.
- **Tasks and scheduling** (`TaskSpec`, `TaskProofs`, `TaskRuns`, `TaskSchedule`, `TaskSleep`, `TaskSpaces`,
  `TaskHistory`, `TaskWitness`, `Tasks`). A step machine for fork, threads, exit, wait, reap, sleep and wake with
  shared reference counts, an invariant that holds on every run, how long a sleeper sleeps, where each task, exit code
  and report comes from, when an address space is destroyed while a task lives in it or twice, and the kernel's linked
  ring carrying out each step.
- **Network** (`Checksum`, `Dns`, `Tcp`, `TcpSession`). The Internet checksum, domain names with compression pointers,
  and TCP byte by byte: the segments tcp_transmit builds, what tcp_handle reads from them, and the receiving side
  under arbitrary delivery, from tcp_connect to the end of the connection.
- **ELF loading** (`Elf`, `ElfFile`). The image a program's headers ask for, the loader that builds it, and executable
  files written byte by byte from the program they hold.

Code that works by changing things in place is a class or a method with loops; its contract ties the new state to a
function of the old one, and the promises are proved about those functions.

What the source does, where that is not what one would expect, is kept and delimited by an exact condition:

- `kmalloc` computes the new end of the heap modulo 2^32. `HeapMalloc.MallocContained` and `HeapRuns.ServedExactly`
  say for every 32-bit request exactly when the list stays inside the heap and the caller gets his bytes;
  `HeapRuns.OversizeBreaks` and `HeapRuns.LargestRequestEmpty` are requests that fail, and `HeapRuns.EveryRun` gives
  the condition for whole runs.
- `split_block` subtracts without a guard. The class `Heap.KernelHeap` uses the guarded split that the comments of the
  source describe; `HeapRuns.LiteralExact` and `HeapRuns.EveryLiteralRun` show exactly when the unguarded code keeps
  the heap in order, and `HeapRuns.LiteralSplitBreaks` is a run from `heap_init` in which it does not.
- A freed page directory can be handed out while an ended sharer is still on the task list;
  `TaskWitness.StaleReuseDestroysLiving` is such a run. `TaskSpaces.RunDestroysOnlyDead` proves every run safe that
  hands out no such directory, and `TaskSpaces.HandOutExact` that each such hand-out can be fatal.
- Two ended sharers destroy their space twice (`TaskWitness.DestroyedTwice`); `TaskSpaces.DestroyedOnceExactly` says
  exactly when a space is destroyed again.
- A FIN is acted on wherever it arrives (`Tcp.FinExact`).
- The sequence number of a connection never advances, so that a peer running this code discards whatever `tcp_send`
  sends (`TcpSession.SentDataDiscarded`), and TIME_WAIT is left by nothing but a reset (`TcpSession.TimeWaitStays`).
- A table of a clone admits the user exactly when the first page copied into it does
  (`Vmm.AddressSpaces.CloneAddressSpace`).
- `sys_sleep` multiplies in 32 bits (`TaskSleep.DelayExact`), and the wait for a key leaves an old tick in the record,
  at which the timer wakes the task (`TaskSleep.StepAsleep`).
- The label counter of `dns_write_name` is one byte wide (`Dns.ScanEndsIff`).
- A write past the end of a file shows what the blocks of the gap held before, or leaves a hole at which every later
  read ends: `PfsGap.GapRead` says which, and `PfsWitness.UnreadableFile` is a file of 1025 bytes that reads as none.
- A name of more than 27 characters is created but never found (`Pfs.PumpsFs.VfsCreate`).
- A region that reaches past 4 GB yields only its frames below 256 MB, because the clip constant in `pmm_init` has
  seven digits, and one that ends at 4 GB yields none (`Pmm.ReleasedExact`).
- `pmm_free_page` keeps its counter right only for managed frames (`Pmm.FrameAllocator.FreePage`).
- `task_fork` leaves preemption off for a kernel task and for a missing stack (`Tasks.Scheduler.TaskFork`).

Assumptions the task machine makes explicit in `TaskSpec.Enabled`: code between two yields is one step, and so is
reaping; the boot task never blocks, waits or exits; no directory and no count is handed out that a task not yet
terminated names. One that an ended task still names may be handed out. `TaskSpaces.HandOutExact` and
`TaskSpaces.DestroyedOnceExactly` show that a bad continuation exists for lists the reaper can walk, up to 1024 tasks;
that there is none otherwise they show for lists of any length.

## Model

| member | source | states |
|---|---|---|
| `Pmm.HighestAddress` | kernel/kernel/memory_map.c:52-72 | an upper bound, reached by some region when it is not zero, of the ends of the available regions |
| `Pmm.TotalPages` | kernel/kernel/pmm.c:80-87 | the number of managed frames: the whole frames below the highest address, at most MAX_PAGES |
| `Pmm.ClippedLength` | kernel/kernel/pmm.c:101-107 | whatever the truncation to 32 bits and the clip constant as written do, the 32-bit end of the released range stays inside the region |
| `Pmm.ReleasedInside` | kernel/kernel/pmm.c:90-110 | whatever frame the regions release, 32-bit wrap and clip included, lies wholly inside an available region |
| `Pmm.ReleasedExact` | kernel/kernel/pmm.c:97-109 | which frames a region yields: all its whole frames if it ends below 4 GB, none if it ends at 4 GB exactly, those below 0xFFFFFFF if it reaches beyond |
| `Pmm.OutsideImage` | kernel/kernel/pmm.c:120-126 | the two reserved ranges keep out exactly frame 0 and the frames that meet the kernel image |
| `Pmm.CountChange` | kernel/kernel/pmm.c:56-60 | freeing one frame changes the number of frames below a bound that are not free by exactly one, if it was below the bound and in use |
| `Pmm.FrameAllocator.constructor` | kernel/kernel/pmm.c:76-129 | for every memory map, the frames free after start-up are exactly those the regions release, but for page 0 and the kernel image; each lies inside an available region and below total_pages; used_pages is the number of used frames |
| `Pmm.FrameAllocator.MarkRegionFree` | kernel/kernel/pmm.c:47-62 | exactly the whole frames of the 32-bit range become free, and the counter follows |
| `Pmm.FrameAllocator.MarkRegionUsed` | kernel/kernel/pmm.c:64-74 | exactly the frames that meet the range stop being free, and the counter follows |
| `Pmm.FrameAllocator.ReleaseRegions` | kernel/kernel/pmm.c:90-110 | after the loop over the map the free frames are exactly those some region releases |
| `Pmm.FrameAllocator.BitmapTest` | kernel/kernel/pmm.c:41-43 | a bit is set exactly when its frame is not in the set of free frames |
| `Pmm.FrameAllocator.AllocPage` | kernel/kernel/pmm.c:131-152 | returns the lowest free frame and removes just that one, or returns 0 and changes nothing only when no scanned frame is free |
| `Pmm.FrameAllocator.FreePage` | kernel/kernel/pmm.c:154-163 | the frame becomes free, a warning comes exactly when it was free already, and the counter stays right exactly when the frame lies below total_pages |
| `Pmm.FrameAllocator.FullByte` | kernel/kernel/pmm.c:133-137 | a byte 0xFF of the bitmap holds no free frame, so skipping it skips none |
| `Pmm.FrameAllocator.LowestFrame` | kernel/kernel/pmm.c:133-147 | the lowest clear bit of the first byte that is not full is the lowest free frame |
| `Pmm.LowestClear` | kernel/kernel/pmm.c:139-146 | finds the lowest clear bit of a byte that has one |
| `Paging.WordRoundTrip` | kernel/kernel/vmm.c:73-104 | a 32-bit page table entry and its split into frame and flag bits determine each other |
| `Paging.DirWindowWalk` | kernel/kernel/vmm.c:7-27 | with entry 1023 pointing to its directory, the page walk of 0xFFFFF000+4i reaches directory entry i and may write it |
| `Paging.TableWindowWalk` | kernel/kernel/vmm.c:7-32 | with entry 1023 pointing to its directory, the page walk of 0xFFC00000+4096n+4k reaches entry k of table n |
| `Paging.LookupIsWalk` | kernel/kernel/vmm.c:34-41 | the hardware walk of an address agrees with the lookup in the flat map from pages to frames |
| `Paging.Isolation` | kernel/kernel/vmm.c:295-362 | a write through one address space at any user address changes neither the mapping nor the contents of any user page of another |
| `Paging.TablesDistinct` | kernel/kernel/vmm.c:73-104 | the user tables and the directory of one space lie in different frames |
| `Paging.AddTable` | kernel/kernel/vmm.c:79-91 | installing a fresh zero page as a table keeps the ownership of frames and every mapping |
| `Paging.AddLeaf` | kernel/kernel/vmm.c:93-100 | writing a table entry changes the mapping of that page alone and keeps the ownership of frames |
| `Paging.RemoveLeaf` | kernel/kernel/vmm.c:106-126 | clearing a table entry changes the mapping of that page alone and hands its frame back to the caller |
| `Paging.NewSpace` | kernel/kernel/vmm.c:177-190 | a directory filled as vmm_create_address_space fills it is a space with an empty user half, and no other space changes |
| `Paging.ForgetSpace` | kernel/kernel/vmm.c:201-256 | when all frames of a space are given up, the ownership of the others stays consistent |
| `Vmm.AddressSpaces.MapPage` | kernel/kernel/vmm.c:73-104 | through the recursive window: the page maps to the frame with the given flags; code in ring 3 reaches it exactly when it is a user page and its table is new or admits the user; every other lookup of the current space and the user halves of all other spaces are unchanged; one frame is used exactly when a table was missing; fails without effect exactly when that frame is not to be had |
| `Vmm.AddressSpaces.UnmapPage` | kernel/kernel/vmm.c:106-126 | returns the mapped frame and removes that mapping alone; returns 0 and changes nothing when the page was not mapped |
| `Vmm.AddressSpaces.IsMapped` | kernel/kernel/vmm.c:128-139 | true exactly when the page walk of the address succeeds |
| `Vmm.AddressSpaces.GetPhysical` | kernel/kernel/vmm.c:141-157 | the physical address of the flat map, 0 when the page is not mapped |
| `Vmm.AddressSpaces.EnsureTable` | kernel/kernel/vmm.c:79-91 | the table of a slot is present afterwards unless no frame was left, and no lookup in any space changes |
| `Vmm.AddressSpaces.MapFresh` | kernel/kernel/vmm.c:331-352 | a frame allocated and mapped: succeeds exactly when the frames left cover the page and a missing table, and otherwise gives the frame back |
| `Vmm.AddressSpaces.CreateAddressSpace` | kernel/kernel/vmm.c:159-195 | succeeds exactly when the frames left cover the directory and, if missing, the caller's scratch table, and takes just these: a new space with an empty user half, the caller's kernel half without its scratch table and its own recursive entry; on failure nothing changes |
| `Vmm.AddressSpaces.DestroyAddressSpace` | kernel/kernel/vmm.c:201-256 | frees exactly the frames of the space (user pages, user tables, directory), changes no other space; without a scratch table and memory for one, just the directory |
| `Vmm.AddressSpaces.ReleaseAll` | kernel/kernel/vmm.c:217-249 | the two nested loops release each user page and each user table of the space once |
| `Vmm.AddressSpaces.SwitchAddressSpace` | kernel/kernel/vmm.c:197-199 | only CR3 changes |
| `Vmm.AddressSpaces.CloneAddressSpace` | kernel/kernel/vmm.c:295-362 | succeeds exactly when there is a copy buffer and the frames left cover directory, tables, pages and a missing scratch table; the child's user half then maps the same pages with the same flags to frames that were free, with equal contents; code in ring 3 reaches in it exactly the user pages of tables whose first page is a user page; every other user half, the source's too, is unchanged; CR3 is restored; the free frames drop by exactly the child's; a failure anywhere gives every frame back |
| `Vmm.AddressSpaces.CopyAll` | kernel/kernel/vmm.c:315-357 | the loops succeed exactly when the frames left cover the cost of the source's pages, and then every present source page has its copy; otherwise all frames taken so far belong to the child |
| `VmmCost.CostIsCount` | kernel/kernel/vmm.c:315-357 | the cost of the pages up to any slot is one frame for each mapped page and one for each table that holds one |
| `VmmCost.PaidCopy` | kernel/kernel/vmm.c:331-352 | copying one page uses up exactly its own cost |
| `VmmCost.PaidFails` | kernel/kernel/vmm.c:332-350 | a page that cannot be paid for means that the frames at the start did not cover the whole source |
| `Vmm.AddressSpaces.CreateThenDestroy` | kernel/kernel/vmm.c:159-256 | creating and destroying a space restores the exact set of free frames, when the caller's scratch table is present |
| `Vmm.AddressSpaces.CloneThenDestroy` | kernel/kernel/vmm.c:201-362 | cloning and destroying the clone restores the exact set of free frames and every user half, when the caller's scratch table is present |
| `Vmm.AllReleased` | kernel/kernel/vmm.c:217-249 | when the loops are through, every frame of the space but its directory has been released |
| `Vmm.NextLeaf` | kernel/kernel/vmm.c:231-236 | one more table entry of the destroyed space: the frames released so far grow by the frame of that entry and no other |
| `Vmm.NextTable` | kernel/kernel/vmm.c:238-240 | one more table of the destroyed space: the frames released so far grow by that table and no other |
| `Vmm.IsCloneOf` | kernel/kernel/vmm.c:295-362 | copies made page by page up to the end of the user half make the child a clone of the source |
| `Vmm.UserPagesReached` | kernel/kernel/vmm.c:87 | in tables that hold user pages only, every page that code in ring 3 reaches in the source it reaches in the clone |
| `PfsLayout.WordOfBytes` | kernel/kernel/pfs.c:81-99 | a 32-bit field read back from its four bytes is the value stored |
| `PfsLayout.SetSectorBitBits` | kernel/kernel/pfs.c:101-133 | setting a bit of a bitmap sector sets that bit and no other |
| `PfsLayout.InodeRoundTrip` | kernel/kernel/pfs.c:81-99 | an inode written into its 64 bytes of a sector reads back, and the seven others of the sector are unchanged |
| `PfsLayout.EntryRoundTrip` | kernel/kernel/pfs.c:145-152 | a directory entry written into its 32 bytes reads back with its name cut to 27 characters, and the others are unchanged |
| `PfsLayout.InodeFormat` | kernel/kernel/pfs.h:38-43 | the 64 bytes of an inode: type at byte 0, size at 4, the twelve blocks from 8 on, lowest byte first |
| `PfsLayout.EntryFormat` | kernel/kernel/pfs.h:45-49 | the 32 bytes of a directory entry: the inode number, up to 27 characters, zeros |
| `PfsLayout.BitmapFormat` | kernel/kernel/pfs.c:101-133 | bit i of a bitmap is bit i mod 8, from the lowest, of byte i / 8 |
| `PfsLayout.InodeSector` | kernel/kernel/pfs.h:15-19 | the sector of every inode lies inside the inode table |
| `PfsLayout.BlockBitmapSector` | kernel/kernel/pfs.h:15-19 | the sector of every block's bit lies inside the block bitmap |
| `PfsLayout.DataSector` | kernel/kernel/pfs.h:15-19 | the sector of every block lies in the data region, behind all tables |
| `PfsLayout.HoldsInode` | kernel/kernel/pfs.c:91-99 | rewriting one inode sector changes one inode of the decoded file system and nothing else |
| `PfsLayout.HoldsBlockBit` | kernel/kernel/pfs.c:117-133 | rewriting one bitmap sector marks one block and changes nothing else |
| `PfsLayout.HoldsData` | kernel/kernel/pfs.c:193-198 | writing a data sector changes one block's contents and nothing else |
| `PfsSpec.FileMapAt` | kernel/kernel/pfs.c:208-245 | the finite map a disk stands for: a name is in it exactly when lookup finds a file, with the bytes that file reads as |
| `PfsSpec.OneInodeOneName` | kernel/kernel/pfs.c:159-172 | two names never lead to the same file |
| `PfsSpec.OthersSame` | kernel/kernel/pfs.c:175-205 | a write confined to one inode leaves the contents of every other file as they were |
| `PfsSpec.MapUpdate` | kernel/kernel/pfs.c:175-205 | a write confined to one inode updates the finite map at its name and nowhere else |
| `PfsSpec.NewInode` | kernel/kernel/pfs.c:159-167 | marking and clearing a free inode keeps the file system sound and its map unchanged |
| `PfsSpec.NewEntry` | kernel/kernel/pfs.c:136-156 | a new directory entry adds its (cut) name to the map, unless that name was there |
| `PfsSpec.NewEntryLookup` | kernel/kernel/pfs.c:136-156 | after a new entry every other name is looked up as before |
| `PfsSpec.DenseReadable` | kernel/kernel/pfs.c:208-228 | a file with every block slot below its size filled is read whole |
| `PfsWrite.WritingAlloc` | kernel/kernel/pfs.c:186-191 | a block taken in the middle of a write is never block 0 and belongs to no other slot of any file |
| `PfsWrite.WritingAbort` | kernel/kernel/pfs.c:186-191 | a write given up for lack of blocks leaves a sound file system in which only that file can have changed |
| `PfsWrite.WritingDone` | kernel/kernel/pfs.c:203-204 | storing the inode at the end of a write gives a sound file system in which only that file has changed |
| `PfsWrite.WroteAll` | kernel/kernel/pfs.c:184-204 | once all chunks are written the file reads as the data |
| `PfsWrite.WroteSome` | kernel/kernel/pfs.c:186-191 | a whole-file write that ran out of blocks leaves a dense file with its old size, holding the first bytes of the data |
| `PfsWrite.SplicedStep` | kernel/kernel/pfs_vfs.c:33-56 | one round of the offset write moves the splice on by the bytes of that round |
| `PfsWrite.SplicedAll` | kernel/kernel/pfs_vfs.c:24-60 | the finished offset write reads as old[..off] + data + old[off+len..] and keeps the file dense |
| `PfsWrite.SplicedSome` | kernel/kernel/pfs_vfs.c:38-43 | an offset write that ran out of blocks reads as the splice cut to the old size |
| `Pfs.PumpsFs.ReadInode` | kernel/kernel/pfs.c:81-89 | returns the inode of the decoded file system; refuses numbers out of range |
| `Pfs.PumpsFs.WriteInode` | kernel/kernel/pfs.c:91-99 | replaces that inode alone; refuses numbers out of range |
| `Pfs.PumpsFs.AllocInode` | kernel/kernel/pfs.c:101-114 | marks and returns the lowest free inode, or -1 when none is free |
| `Pfs.PumpsFs.AllocBlock` | kernel/kernel/pfs.c:117-133 | marks and returns the lowest free block, or -1 when none is free |
| `Pfs.PumpsFs.DirAdd` | kernel/kernel/pfs.c:136-156 | fills the first free entry of the root directory; fails exactly when all 16 are used |
| `Pfs.PumpsFs.Create` | kernel/kernel/pfs.c:159-172 | adds one empty file under the name, leaves every other name alone, and fails exactly when inodes or entries have run out |
| `Pfs.PumpsFs.Lookup` | kernel/kernel/pfs.c:231-245 | the inode of the first used entry with that name, -1 when there is none |
| `Pfs.PumpsFs.ReadFile` | kernel/kernel/pfs.c:208-228 | returns the contents of the file, cut to max; -1 for anything but a file |
| `Pfs.PumpsFs.WriteFile` | kernel/kernel/pfs.c:175-205 | a whole-file write of up to 6144 bytes makes the map hold the data under the file's name; other files unchanged; on failure the inodes are unchanged and every block is in use |
| `Pfs.PumpsFs.WriteFileAt` | kernel/kernel/pfs_vfs.c:24-60 | for off at most the size the file becomes the splice; beyond the size it reads as the old contents, the stale bytes of the gap and the data, or, if a block of the gap is missing, ends at that block; the file stays dense exactly when the blocks wholly before off existed; failure leaves the inodes unchanged |
| `Pfs.PumpsFs.VfsRead` | kernel/kernel/pfs_vfs.c:9-21 | the slice of the contents from the offset, cut at the end of the file |
| `Pfs.PumpsFs.VfsCreate` | kernel/kernel/pfs_vfs.c:124-136 | an existing name is refused; a name of up to 27 characters is added and found; a longer one is created but never found again |
| `Pfs.PumpsFs.Readdir` | kernel/kernel/pfs_vfs.c:101-122 | index i yields the i-th used entry, and nothing past the last |
| `Pfs.UsedEntriesExact` | kernel/kernel/pfs_vfs.c:101-122 | the entries enumerated are exactly the used ones, each once, in directory order |
| `Pfs.PumpsFs.Mkfs` | kernel/kernel/pfs.c:11-61 | a sound, dense, empty file system whose reserved inodes and block 0 are marked, whatever the disk held |
| `Pfs.PumpsFs.Mount` | kernel/kernel/pfs.c:63-79 | reads the superblock back and accepts it exactly by its magic number |
| `Pfs.SuperblockRoundTrip` | kernel/kernel/pfs.c:11-79 | the superblock mkfs writes decodes to the layout mount expects |
| `Pfs.SuperblockFormat` | kernel/kernel/pfs.c:11-27 | the eight numbers in the first sector of a formatted disk |
| `Pfs.RootListing` | kernel/kernel/pfs.c:54-60 | a formatted disk lists "." and "..", both inode 1, and nothing else |
| `Pfs.GapDense` | kernel/kernel/pfs_vfs.c:24-60 | a write past the end keeps a file dense exactly when no block before the offset is missing |
| `PfsGap.GapRead` | kernel/kernel/pfs_vfs.c:24-60 | what a file reads as after a write past its end: old contents, then in the gap what its blocks held before the write, then the data, all of it exactly when no block of the gap is missing; otherwise reads end at the first missing block |
| `PfsGap.GapLength` | kernel/kernel/pfs_vfs.c:24-60 | how many bytes such a file reads as: off + len, or 512 times the blocks before the first missing one, which is less than off |
| `PfsWitness.UnreadableFile` | kernel/kernel/pfs_vfs.c:24-60 | from a freshly formatted disk: one byte written at offset 1024 of a new file gives a file of 1025 bytes of which none can be read |
| `Pfs.PumpsFs.Step` | kernel/kernel/pfs.c:11-245 | every operation, failing ones too, keeps: each nonzero slot of a file in range, marked, not block 0 and named once; without a gap it keeps files dense and does to the finite map exactly what the operation means |
| `Pfs.WholeStep` | kernel/kernel/pfs.c:175-205 | a whole-file write replaces the bytes under its name, or, out of blocks, the first bytes up to the old length |
| `Pfs.PartStep` | kernel/kernel/pfs_vfs.c:24-60 | a write at an offset splices the bytes under its name, or, out of blocks, keeps the splice up to the old length |
| `Pfs.PumpsFs.Run` | kernel/kernel/pfs.c:11-245 | over any sequence of operations the file system stays sound, and up to the first write that leaves a gap the maps along the run are those of a finite map under the same operations |
| `HeapSpec.PayloadsDisjoint` | kernel/kernel/heap.c:97-119 | the payloads of different blocks do not overlap |
| `HeapSpec.FirstFit` | kernel/kernel/heap.c:148-160 | the first block in address order that is free and large enough |
| `HeapSpec.TakeLive` | kernel/kernel/heap.c:154-159 | an allocation makes exactly one payload live that was not, and ends none |
| `HeapSpec.TakeCoalesced` | kernel/kernel/heap.c:97-119 | splitting and taking a block leaves no two neighbouring free blocks |
| `HeapSpec.TakeCount` | kernel/kernel/heap.c:154-159 | one more block is used |
| `HeapSpec.GrowKeeps` | kernel/kernel/heap.c:171-182 | growth, wrapping or not, keeps the number of used blocks and leaves no free neighbours |
| `HeapSpec.GrowFits` | kernel/kernel/heap.c:162-186 | after growth whose sum does not wrap the tail, and no block before it, is large enough, so the loop ends on its next pass |
| `HeapSpec.GrowLive` | kernel/kernel/heap.c:171-182 | growth changes no live payload |
| `HeapSpec.JoinLive` | kernel/kernel/heap.c:122-138 | merging two free neighbours changes no live payload |
| `HeapSpec.ReleaseFacts` | kernel/kernel/heap.c:192-213 | a free ends exactly that payload, and one block less is used |
| `HeapSpec.ReleaseCoalesced` | kernel/kernel/heap.c:122-138 | after a free no two neighbouring blocks are both free |
| `HeapSpec.TakeWaste` | kernel/kernel/heap.c:97-119 | a block is split exactly when 36 bytes are left over, so less than that is wasted |
| `HeapSpec.ReleaseTake` | kernel/kernel/heap.c:97-138 | freeing a block just handed out restores the blocks |
| `Heap.SplitLinked` | kernel/kernel/heap.c:105-118 | the header stores of a split keep the list doubly linked, with the blocks of the split |
| `Heap.JoinLinked` | kernel/kernel/heap.c:122-138 | the header stores of a merge keep the list doubly linked, with the blocks of the merge |
| `Heap.GrowLinked` | kernel/kernel/heap.c:171-182 | the header stores of a growth keep the list doubly linked |
| `Heap.LiveUntouched` | kernel/kernel/heap.c:97-213 | no header store of any call touches a byte of a payload that stays live |
| `Heap.KernelHeap.constructor` | kernel/kernel/heap.c:70-92 | one free block that fills the initial heap |
| `Heap.KernelHeap.HeapExpand` | kernel/kernel/heap.c:44-68 | for every 32-bit end, one below the heap's too: succeeds exactly at or below the limit and with a frame for each page that begins between the old end and the new; maps exactly these and uses one frame each; the heap then ends at the page boundary above; a failure for want of frames has used them up on the first of these pages |
| `Heap.KernelHeap.SplitBlock` | kernel/kernel/heap.c:97-119 | on the linked headers, with the guard: the block sequence becomes the split one, and stays as it is without room for a header |
| `Heap.KernelHeap.MergeFreeBlocks` | kernel/kernel/heap.c:122-138 | on the linked headers: the block sequence becomes the merged one |
| `Heap.KernelHeap.GrowTail` | kernel/kernel/heap.c:161-186 | expansion and the stores at the last block are the growth of the block sequence, with the 32-bit sums as written |
| `Heap.KernelHeap.KMalloc` | kernel/kernel/heap.c:140-190 | for every 32-bit size: terminates with the outcome of the recursive definition, its wrapped sums included; without growth no frame is used; growth that does not wrap succeeds exactly below the limit and with a frame for each page between the ends, which are mapped, and otherwise the answer is 0; a request that can be handled keeps the list doubly linked, tiling the heap, coalesced, on mapped pages, and the counters equal to the used blocks |
| `Heap.PayloadMapped` | kernel/kernel/heap.c:44-68 | every byte of a block's payload lies on a mapped page |
| `Heap.KernelHeap.KFree` | kernel/kernel/heap.c:192-213 | frees that block and merges it; a null pointer or a double free changes nothing |
| `HeapMalloc.Malloc` | kernel/kernel/heap.c:140-190 | the passes of kmalloc end for every 32-bit size, also where growth wraps and the heap shrinks |
| `HeapMalloc.GrowthMeant` | kernel/kernel/heap.c:161-186 | growth whose end does not wrap makes one further pass, which takes the tail; the list ends inside the grown heap |
| `HeapMalloc.Creep` | kernel/kernel/heap.c:161-186 | when the header size alone wraps and the last block is free, the passes add a few bytes each until heap_expand refuses, and nothing is handed out |
| `HeapMalloc.Overrun` | kernel/kernel/heap.c:161-186 | when the end of the heap wraps behind a used block, a block that leaves the heap is handed out |
| `HeapMalloc.Runaway` | kernel/kernel/heap.c:161-186 | when the end of the heap wraps behind a free block, the passes end with a block that leaves the heap handed out, whatever pages there are |
| `HeapMalloc.MallocContained` | kernel/kernel/heap.c:44-190 | for every 32-bit size, pages and heap in order: afterwards the blocks are inside the heap and coalesced if and only if a block fits, heap_expand refuses, the new end does not wrap, or the header alone wraps behind a free block |
| `HeapMalloc.MallocChoice` | kernel/kernel/heap.c:140-190 | whatever the number of passes, kmalloc takes the first fit of the list they end with |
| `HeapRuns.MallocAllocates` | kernel/kernel/heap.c:140-190 | for every 32-bit size: a pointer that is not 0 is a payload of at least the rounded size, not live before, and the only change to the live payloads; 0 changes none |
| `HeapRuns.ServedExactly` | kernel/kernel/heap.c:140-190 | for every 32-bit request: the list stays inside the heap and the answer is 0 or at least the requested bytes if and only if the rounded size can be handled and the rounding does not wrap, or nothing is handed out |
| `HeapRuns.TinyRequest` | kernel/kernel/heap.c:145 | the seven largest requests round up to zero: the heap stays in order, and whatever is handed out is too small |
| `HeapRuns.StepGood` | kernel/kernel/heap.c:140-213 | a call with any 32-bit size, or a free of a listed payload, keeps tiling, coalescing and allocations minus frees equal to used blocks if and only if it is one that can be handled |
| `HeapRuns.EveryRun` | kernel/kernel/heap.c:44-213 | over every run of such calls the heap is in order in every state if and only if every call is one that can be handled |
| `HeapRuns.GoodPayloads` | kernel/kernel/heap.c:97-213 | in a heap in order the payloads of different blocks are disjoint and inside the heap |
| `HeapRuns.LiveUntilFreed` | kernel/kernel/heap.c:140-213 | over every run of handled calls a payload stays live, with its size, until its own free |
| `HeapRuns.FreeUndoesMalloc` | kernel/kernel/heap.c:140-213 | kfree of what kmalloc has just given restores the blocks, but for growth of the heap; kmalloc gives less than 44 bytes more than was asked for |
| `HeapRuns.LiveMapped` | kernel/kernel/heap.c:44-213 | every byte that a caller holds lies on a mapped page |
| `HeapRuns.Perform` | kernel/kernel/heap.c:140-213 | a handled call, done on the linked headers, is the step of the run, and its stores go to headers alone |
| `HeapRuns.Carry` | kernel/kernel/heap.c:44-213 | a whole run of handled calls on the linked headers ends in the last state of its trace |
| `HeapRuns.OversizeBreaks` | kernel/kernel/heap.c:163-173 | from the heap after heap_init, kmalloc(0x30000000) lowers the heap's end to 0x11000 and hands out a block that leaves the heap |
| `HeapRuns.LargestRequestEmpty` | kernel/kernel/heap.c:145 | from the heap after heap_init, kmalloc(0xFFFFFFFF) hands out a pointer to too few bytes |
| `HeapRuns.LiteralSplitAgrees` | kernel/kernel/heap.c:97-103 | the unguarded 32-bit subtraction splits as intended with room for the size and a header; otherwise the list becomes longer than 4 GB |
| `HeapRuns.LiteralExact` | kernel/kernel/heap.c:97-190 | kmalloc with the unguarded split keeps the blocks inside the heap if and only if the request can be handled and the block it picks has room for another header; with room it is the guarded kmalloc |
| `HeapRuns.LiteralStepExact` | kernel/kernel/heap.c:97-213 | the same for a call of a run, and a call that keeps the heap in order is the guarded one |
| `HeapRuns.EveryLiteralRun` | kernel/kernel/heap.c:44-213 | over every run with the unguarded split the heap is in order in every state if and only if every call can be handled and picks a block with room |
| `HeapRuns.LiteralSplitBreaks` | kernel/kernel/heap.c:97-103 | from the heap after heap_init: allocate 8, allocate 8, free the first, allocate 8; the exact fit makes the unguarded list leave the heap |
| `TaskSpec.BestIsFirstHighest` | kernel/kernel/task.c:50-73 | the task picked is the first in ring order among the ready ones of highest priority, and none is picked exactly when none is ready |
| `TaskSpec.FirstChild` | kernel/kernel/task.c:718-732 | the first child of a task in the list, or the first one that has ended |
| `TaskProofs.YieldKeeps` | kernel/kernel/task.c:503-531 | a switch keeps the invariant, also from a task that has just blocked or ended |
| `TaskProofs.ForkKeeps` | kernel/kernel/task.c:621-708 | fork keeps the invariant |
| `TaskProofs.SpawnKeeps` | kernel/kernel/task.c:212-279 | a new thread keeps the invariant: the shared count goes up with its holders |
| `TaskProofs.CreateKeeps` | kernel/kernel/task.c:388-501 | a new program keeps the invariant |
| `TaskProofs.ExitKeeps` | kernel/kernel/task.c:564-588 | exit keeps the invariant: the count goes down with its holders and a waiting parent is woken |
| `TaskProofs.WaitKeeps` | kernel/kernel/task.c:712-783 | every pass of task_wait keeps the invariant |
| `TaskProofs.ReapKeeps` | kernel/kernel/task.c:533-562 | reaping keeps the invariant |
| `TaskProofs.WithoutCuts` | kernel/kernel/task.c:745-755 | the list after unlinking is the old one cut at that task |
| `TaskProofs.StepKeeps` | kernel/kernel/task.c:50-832 | every enabled step keeps the invariant: ring, one running task, no lost wakeup, exact counts, honest reports; a directory or count that an ended task still names may be handed out |
| `TaskRuns.EveryRun` | kernel/kernel/task.c:50-832 | in every state of every run from boot the invariant holds, so exactly the current task is running and each count equals the number of its tasks that have not terminated |
| `TaskRuns.StepKept` | kernel/kernel/task.c:533-783 | over a step a task keeps its identity, only the current task can terminate, and only terminated tasks leave the list |
| `TaskRuns.TerminatedForever` | kernel/kernel/task.c:564-588 | over every run TERMINATED is never left and the exit code stays |
| `TaskRuns.GoneForever` | kernel/kernel/task.c:533-562 | over every run a task that has left the list never returns |
| `TaskRuns.NoLostWakeup` | kernel/kernel/task.c:573-580 | over every run no child of a task asleep in task_wait has terminated |
| `TaskRuns.ReportedOnce` | kernel/kernel/task.c:712-783 | over every run each child is reported by at most one wait, to its parent, with the code it ended with |
| `TaskHistory.StepCreates` | kernel/kernel/task.c:150-708 | a task that appears in a step was created by it, as asked, and stands ready right behind the current task |
| `TaskHistory.EveryTaskCreated` | kernel/kernel/task.c:150-708 | over every run every task but the first was created by a fork, thread or create step, and still has the priority, space, count and parent that step gave it |
| `TaskHistory.EndedByExit` | kernel/kernel/task.c:564-588 | over every run a terminated task called task_exit, with the code its record holds |
| `TaskHistory.ExitEnds` | kernel/kernel/task.c:564-588 | the caller of task_exit is terminated with its code |
| `TaskHistory.ExitsOnce` | kernel/kernel/task.c:564-588 | over every run no task exits twice |
| `TaskHistory.ReportedLife` | kernel/kernel/task.c:621-783 | over every run, behind each report lies a fork by the parent it went to, then the child's task_exit with the code reported, then that parent's task_wait |
| `TaskHistory.ReapExact` | kernel/kernel/task.c:533-562 | reaping takes off exactly the ended tasks without a parent among the first 1024 behind the head |
| `TaskSleep.StepAsleep` | kernel/kernel/task.c:573-832 | a blocked task stays so over a step exactly when the step does not wake it by name, as its exiting child, or because its tick has come |
| `TaskSleep.BlockSleeps` | kernel/kernel/syscall.c:41-54 | blocking with a tick leaves the caller asleep until that tick |
| `TaskSleep.TickExact` | kernel/kernel/task.c:822-832 | a tick makes ready exactly the blocked tasks whose tick is set and has come, and changes nothing else |
| `TaskSleep.SleepsUntilRoused` | kernel/kernel/task.c:815-832 | over every run a blocked task stays asleep exactly as long as no step wakes it |
| `TaskSleep.SleepsUntilTick` | kernel/kernel/syscall.c:41-54 | over every run a task that sleeps until tick w and is woken neither by name nor by a child is still asleep after every tick before w, and ready after the first one from w on |
| `TaskSleep.NoTickWakes` | kernel/kernel/task.c:826 | over every run no tick wakes a task that sleeps with tick 0 |
| `TaskSleep.DelayExact` | kernel/kernel/syscall.c:45-47 | the delay of sys_sleep is the request in whole ticks, at least one, exactly up to 42949672 milliseconds, where the product wraps |
| `TaskSchedule.StepOrder` | kernel/kernel/task.c:533-783 | every step keeps all tasks that stay on the list in order |
| `TaskSchedule.YieldProgress` | kernel/kernel/task.c:50-123 | a yield goes to a ready task of highest priority or strictly nearer to it |
| `TaskSchedule.StepOnward` | kernel/kernel/task.c:50-123 | over any step that adds no task, such a task gets its turn or comes no farther away, and nearer with every switch |
| `TaskSchedule.RunsWithin` | kernel/kernel/task.c:50-123 | with no new arrivals a ready task of highest priority at ring distance d runs within d switches |
| `TaskSpaces.StepSpaces` | kernel/kernel/task.c:212-708 | every step keeps that only user tasks are parents and that no child has the count of its parent; a step that hands out no stale directory keeps one count to a directory |
| `TaskSpaces.DestroysOnlyDead` | kernel/kernel/task.c:547-550 | while a directory has one count, no step destroys a space that a task not yet terminated uses |
| `TaskSpaces.EveryCleanRun` | kernel/kernel/task.c:50-832 | over every run from boot that hands out no stale directory, a directory has one count |
| `TaskSpaces.RunDestroysOnlyDead` | kernel/kernel/task.c:760-763 | over every such run no step destroys a space that a task not yet terminated uses |
| `TaskSpaces.CanRun` | kernel/kernel/task.c:50-123 | from every state of a run every task not yet terminated can be made to run, by scheduling alone |
| `TaskSpaces.EndHolders` | kernel/kernel/task.c:564-588 | from every state of a run all holders of a count can be made to end, and nothing else ends |
| `TaskSpaces.CanUnlink` | kernel/kernel/task.c:533-783 | an ended task with its count at zero, whose parent has not ended before it, can be made to be unlinked, and its space is destroyed then |
| `TaskSpaces.HandOutExact` | kernel/kernel/task.c:388-708 | for fork and for create: some continuation without further stale hand-outs destroys the new task's space while it lives if and only if an ended task on the list that can still be unlinked names the directory with another count, whatever that count is |
| `TaskSpaces.DestroyedOnceExactly` | kernel/kernel/task.c:547-550 | unlinking an ended task at zero destroys its space, and until the directory is handed out again some continuation destroys it once more if and only if another listed task that can still be unlinked holds it, so it is destroyed once exactly when the task was its last listed holder |
| `TaskWitness.DestroyedTwice` | kernel/kernel/task.c:547-550 | a run in which a space shared by two ended threads is destroyed twice |
| `TaskWitness.StaleReuseDestroysLiving` | kernel/kernel/task.c:760-763 | a run from boot in which a directory freed while an ended sharer is still listed is handed out again, and the next wait destroys the space of the living task |
| `Tasks.InsertCircular` | kernel/kernel/task.c:701-703 | linking a record in behind another keeps the ring circular |
| `Tasks.UnlinkCircular` | kernel/kernel/task.c:745-755 | unlinking a record keeps the ring circular |
| `Tasks.Scheduler.constructor` | kernel/kernel/task.c:125-148 | one running boot task linked to itself |
| `Tasks.Scheduler.PickNextTask` | kernel/kernel/task.c:50-73 | the walk around the links ends after one turn with the task the machine picks |
| `Tasks.Scheduler.TaskYield` | kernel/kernel/task.c:503-531 | on the linked list: the machine's yield |
| `Tasks.Scheduler.SchedulerTick` | kernel/kernel/task.c:89-123 | nothing while preemption is off, counting up to the tenth tick, and then the machine's yield |
| `Tasks.Scheduler.TaskFork` | kernel/kernel/task.c:621-708 | the machine's fork; fails without effect when something cannot be allocated; a kernel task and a missing stack leave with preemption off |
| `Tasks.Scheduler.TaskCreateUserThread` | kernel/kernel/task.c:212-279 | the machine's new thread; fails without effect exactly when the record, a stack or its mapping is not to be had |
| `Tasks.Scheduler.TaskCreate` | kernel/kernel/task.c:388-501 | the machine's new program; fails without effect exactly when the record, a stack, the directory, the load or the stack's mapping fails |
| `Tasks.Scheduler.TaskExit` | kernel/kernel/task.c:564-588 | the machine's exit, whether or not the parent is still listed |
| `Tasks.Scheduler.ScanChildren` | kernel/kernel/task.c:718-732 | whether there are children, and the first that has ended |
| `Tasks.Scheduler.Predecessor` | kernel/kernel/task.c:745-749 | the walk to the task in front ends, and finds it |
| `Tasks.Scheduler.TaskWait` | kernel/kernel/task.c:712-783 | one pass of the machine's wait, and the child and code it reports |
| `Tasks.Scheduler.TaskReapTerminated` | kernel/kernel/task.c:533-562 | the machine's reap, with its limit of 1024 visits |
| `Tasks.Scheduler.TaskWake` | kernel/kernel/task.c:815-819 | the machine's wake |
| `Tasks.Scheduler.TaskWakeSleepers` | kernel/kernel/task.c:822-832 | the machine's waking of sleepers, by one walk around the links |
| `Tasks.Scheduler.TaskBlock` | kernel/kernel/console.c:50-58 | the machine's blocking of the current task, with a tick or keeping the one in its record |
| `Tasks.Scheduler.SysSleep` | kernel/kernel/syscall.c:41-54 | the machine's blocking until the tick that the delay leads to, modulo 2^32 |
| `Tasks.Scheduler.Quantum` | kernel/kernel/task.c:89-123 | ten ticks with preemption on are one yield, at the last of them |
| `Tasks.Scheduler.Perform` | kernel/kernel/task.c:50-832 | any enabled step, done on the linked list, is the machine's step and keeps the invariant of its runs |
| `Checksum.FoldIs` | kernel/kernel/net.c:63 | folding keeps the sum modulo 65535, and gives zero only for zero |
| `Checksum.NetChecksum` | kernel/kernel/net.c:54-66 | the folded complement of the sum of halves, modulo 2^32, for any length |
| `Checksum.TcpChecksum` | kernel/kernel/net.c:598-621 | equals net_checksum of the 12-byte pseudo header followed by the segment |
| `Checksum.PseudoHeaderBytes` | kernel/kernel/net.c:602-608 | the pseudo header byte by byte: two addresses, 0, the protocol number 6, the length |
| `Checksum.VerifiesIff` | kernel/kernel/net.c:54-66 | the checksum of a packet is 0 exactly when its sum is a nonzero multiple of 65535 |
| `Checksum.StoredChecksumVerifies` | kernel/kernel/net.c:54-66 | storing the checksum in an even-aligned zeroed field makes the checksum of the packet 0 |
| `Checksum.StampedSegmentVerifies` | kernel/kernel/net.c:643-646 | a segment stamped by tcp_transmit verifies under its pseudo header |
| `Checksum.ChangedHalfNoticed` | kernel/kernel/net.c:54-66 | changing one half of a packet that verifies is missed exactly when it exchanges 0x0000 and 0xFFFF |
| `Checksum.ExchangeUnnoticed` | kernel/kernel/net.c:54-66 | exchanging two halves never changes the checksum |
| `Checksum.OddLength` | kernel/kernel/net.c:62 | a packet of odd length has the checksum of the packet with a zero byte added |
| `Checksum.ExamplePacket` | kernel/kernel/net.c:54-66 | the example of section 3 of RFC 1071 |
| `Dns.EncodableIff` | kernel/kernel/net.c:397-400 | the names that can be written: no label begins with a dot, and every 64 bytes hold one |
| `Dns.ScanEndsIff` | kernel/kernel/net.c:398-399 | the scan of a label with its one-byte counter ends exactly when the label has fewer than 256 bytes |
| `Dns.LabelLength` | kernel/kernel/net.c:398-399 | the length of the label |
| `Dns.WriteName` | kernel/kernel/net.c:393-413 | writes the labels and a zero byte and returns their number, or 0 exactly for a name with a bad label; nothing else in the buffer changes |
| `Dns.ReadName` | kernel/kernel/net.c:416-455 | for any bytes: terminates, stays inside both buffers, ends the text with a zero byte, returns the bytes the name takes up, inside the message |
| `Dns.ConsumedInside` | kernel/kernel/net.c:416-455 | a name that starts inside the message ends inside it |
| `Dns.ReadLabels` | kernel/kernel/net.c:442-450 | reading over the labels of a name adds that name to the text |
| `Dns.RoundTrip` | kernel/kernel/net.c:393-455 | a written name, anywhere in any message, reads back as the name and takes up the bytes written; exactly a last dot is lost |
| `Dns.CompressedRoundTrip` | kernel/kernel/net.c:431-440 | a name whose tail is reached through a compression pointer reads back whole and takes up its own labels and two bytes |
| `Dns.ChainRoundTrip` | kernel/kernel/net.c:431-440 | a name spread over up to 16 pointers reads back whole; of a longer chain exactly the first 17 parts are read |
| `Dns.LabelsInjective` | kernel/kernel/net.c:393-413 | different names are written differently, a last dot apart |
| `Tcp.EncodeLayout` | kernel/kernel/net.c:572-582 | the segment header as tcp_transmit lays it out: each field at its byte offset |
| `Tcp.EncodedParsed` | kernel/kernel/net.c:695-707 | the connection reads back exactly the segments encoded for its port by its peer, and drops those of other addresses and ports |
| `Tcp.TransmittedParsed` | kernel/kernel/net.c:624-652 | the bytes of tcp_transmit verify under their pseudo header, and the peer they are sent to reads the segment meant |
| `Tcp.Connection.Transmit` | kernel/kernel/net.c:624-652 | the segment with the current numbers is sent, in bytes that its peer reads so; more than 1024 bytes are refused |
| `Tcp.Connection.TcpSend` | kernel/kernel/net.c:677-683 | data goes out while established, up to 1024 bytes |
| `Tcp.Connection.TcpConnect` | kernel/kernel/net.c:654-675 | refused unless closed; otherwise the connection starts afresh, also when the SYN could not be sent, which is the answer |
| `Tcp.Connection.TcpClose` | kernel/kernel/net.c:685-693 | sends FIN from ESTABLISHED and CLOSE_WAIT only |
| `Tcp.Connection.TcpHandle` | kernel/kernel/net.c:695-764 | every drop condition, flag and state as the receive step has them |
| `Tcp.StepKeeps` | kernel/kernel/net.c:695-764 | any segment of an honest peer, any foreign bytes and a close keep: what was handed over is a prefix, and the next number counts it |
| `Tcp.PrefixDelivered` | kernel/kernel/net.c:654-764 | from tcp_connect on, under any loss, repetition and reordering, the bytes handed over are a prefix of the peer's stream and, while established, rcv_nxt is IRS+1 plus their number modulo 2^32 |
| `Tcp.Frozen` | kernel/kernel/net.c:740-763 | after the connection leaves ESTABLISHED nothing more is handed over |
| `Tcp.FinExact` | kernel/kernel/net.c:733-738 | after a FIN the application gets the whole stream exactly when the FIN's segment was next in order or all data had come |
| `Tcp.OvertakingFinTruncates` | kernel/kernel/net.c:733-738 | a FIN that overtakes the data cuts the stream off for good |
| `Tcp.PiecesDelivered` | kernel/kernel/net.c:726-732 | pieces of one cut arriving in any order and number: exactly the pieces reached in order are handed over |
| `Tcp.WholeStreamIff` | kernel/kernel/net.c:726-732 | the whole stream is handed over exactly when its pieces arrive in order somewhere among the arrivals |
| `TcpSession.BytesHandled` | kernel/kernel/net.c:695-764 | a run over the bytes of encoded segments is a run over the segments |
| `TcpSession.OpenExact` | kernel/kernel/net.c:711-724 | in SYN_SENT exactly a SYN that acknowledges establishes the connection; a reset closes it in every state |
| `TcpSession.SessionDelivers` | kernel/kernel/net.c:654-764 | from tcp_connect on, over bytes: the peer's SYN and ACK establish the connection, and of encoded pieces in any order and number exactly those reached in order are handed over; the whole stream exactly when they arrive in order among the arrivals |
| `TcpSession.PeerCloses` | kernel/kernel/net.c:685-764 | the peer's FIN, our close and the peer's last acknowledgement, as bytes: the data is complete, both answers carry the right numbers, and the connection is closed |
| `TcpSession.WeClose` | kernel/kernel/net.c:685-755 | our close, the acknowledgement and the peer's FIN lead to TIME_WAIT, in two segments or one |
| `TcpSession.AckRecorded` | kernel/kernel/net.c:726 | the number the peer acknowledges is recorded |
| `TcpSession.TimeWaitStays` | kernel/kernel/net.c:710-763 | TIME_WAIT is left exactly by a reset, so that without one no later tcp_connect succeeds |
| `TcpSession.NothingAcknowledgedInAdvance` | kernel/kernel/net.c:711-764 | over every run no segment sent acknowledges more than the application was given, and one number for a FIN |
| `TcpSession.SentDataDiscarded` | kernel/kernel/net.c:624-683 | over every run all that is sent carries the number of the SYN, and a peer that runs this code discards the data |
| `Elf.Loader.ElfLoad` | kernel/kernel/elf.c:72-169 | succeeds if and only if the file is acceptable and the allocators grant a frame for each page of its segments that was not mapped; then the space holds exactly the program's image; on every path the caller's space is current again |
| `Elf.UserHalfOnly` | kernel/kernel/elf.c:117-120 | no page of an accepted program lies in the kernel half |
| `ElfFile.EhdrRead` | kernel/kernel/elf.h:32-47 | from a file header written field by field the loader reads the entry point, offset and number of program headers; it accepts exactly 32-bit little-endian executables for the i386 with 32-byte program headers and an entry point below the kernel |
| `ElfFile.PhdrRead` | kernel/kernel/elf.h:65-74 | the loader reads back a program header written field by field |
| `ElfFile.BuildAccepted` | kernel/kernel/elf.c:72-127 | the file of every well-formed program is accepted, with the headers of its parts |
| `ElfFile.LoadProgram` | kernel/kernel/elf.c:72-169 | loading the file of any well-formed program into a fresh space succeeds exactly when there is a frame for each page it meets; then the answer is its entry point, every part's bytes stand at its address with zeros behind them, and all else on those pages is zero |
| `Elf.Loader.LoadSegment` | kernel/kernel/elf.c:99-160 | one program header: fails if and only if it is loadable and out of bounds or its missing pages are not granted; otherwise skipped or its image added |
| `Elf.Loader.MapRange` | kernel/kernel/elf.c:130-152 | succeeds if and only if every missing page of the range is granted a frame; exactly those pages are then mapped, wiped, and paid for one frame each |
| `Elf.RoundFailed` | kernel/kernel/elf.c:99-160 | a round that fails shows that the file is not acceptable or memory does not reach for the whole program |
| `Elf.Loader.ReadInto` | kernel/kernel/elf.c:154-160 | exactly the addressed bytes become the file's |
| `Elf.SegmentLoaded` | kernel/kernel/elf.c:128-160 | mapping and copying one segment extends the image by that segment, also on pages it shares with earlier ones |
| `Elf.ExpectUntouched` | kernel/kernel/elf.c:128-160 | where no segment has a page no file byte is asked for, so a wiped page is right |
| `Elf.ProgramImage` | kernel/kernel/elf.c:72-169 | a program with disjoint segments in a fresh space: exactly the touched pages are mapped, every byte of a file range is the file's, every other one is zero |
| `Elf.DisjointImage` | kernel/kernel/elf.c:128-160 | an address at which one segment alone brings a byte holds that byte, and zero where none does |

## Left out

- Device drivers, display, console, keyboard, interrupt and segment tables, assembly: port and register level detail.
- The disk driver: sectors are an array, and reading and writing them never fails.
- TLB flushes: the walk always sees the memory as it is.
- Register frames on kernel stacks and `task_switch` itself: a switch changes the current task.
- Preemption inside a step; the preemption flag does not nest in the source.
- `vmm_init`, and the contents of the kernel half of a directory beyond its being copied and shared.
- The copy buffer of `vmm_clone_address_space`: whether `kmalloc` gave one is the parameter `bufferOk`.
- `task_create_user` and `thread_create`, which never set the reference count, `task_set_priority`, and `execve`.
- Task ids and reference counts wrapping at 32 bits, the timer beyond 2^32 ticks, and the file descriptors of a task.
- Reference counts after `kfree`: a freed count keeps its last value until it is given out again.
- The file descriptor layer above PumpsFS, `O_TRUNC`, and the shared static node of `pfs_vfs_finddir`.
- TCP retransmission, windows and the checksum of received segments, which are not part of the code.
- `dns_on_response`, ARP, UDP, ICMP and the IP header checks.
- The page tables under the ELF loader: an address space is the map of its pages, so that a load cannot change another
  space holds by construction here (`Paging.Isolation` proves it of page tables); an allocation answers with a grant.
- `printf`, string routines, the initial RAM disk, audio, the shell and user programs.
- Vmm.AddressSpaces.CloneAddressSpace: asks that the source's user pages be writable, because the copy is written
  through the child's mapping with the source's flags while write protection is on for the kernel.
- Vmm.AddressSpaces.MapPage: not for the recursive slot 1023; a user page is mapped to a frame the caller has
  allocated.
- Vmm.AddressSpaces.UnmapPage: not for the recursive slot 1023.
- Vmm.AddressSpaces.IsMapped: not for the recursive slot 1023.
- Vmm.AddressSpaces.GetPhysical: not for the recursive slot 1023.
- Vmm.AddressSpaces.DestroyAddressSpace: for a live space that is not the current one.
- Task records after `kfree`: the record of a parent that has left the list is taken to say TERMINATED still, where
  the heap may have given its bytes to someone else.
- Tasks.Scheduler.TaskWait: called by the task that runs.
- Heap.KernelHeap.SplitBlock: the guarded form, as the comments of the source describe it; the headers are followed
  only while the list is inside the heap.
- Heap.KernelHeap.KMalloc: where headers leave the heap or overlap, the block sequence is followed and the words in
  memory are not; frames are counted, and one whose page table cannot be had counts as not to be had.
- Heap.KernelHeap.KFree: for the null pointer and for payload addresses of blocks on the list, which is what the
  caller of `kfree` owes.
- Heap.KernelHeap.constructor: the first expansion has succeeded.
- Pfs.PumpsFs.ReadFile: a number that names a file-typed inode is one marked as allocated.
- Pfs.PumpsFs.VfsRead: the same as for ReadFile.
- Pfs.PumpsFs.WriteFile: the same, and for lengths whose rounding up to a block does not wrap 32 bits.
- Pfs.PumpsFs.WriteFileAt: the same, and for offsets and lengths whose sum does not wrap 32 bits.
- Pfs.PumpsFs.DirAdd: for the root directory, the only one there is.
- Pmm.FrameAllocator.MarkRegionFree: for ranges below total_pages, as pmm_init calls it.
- Pmm.FrameAllocator.MarkRegionUsed: for ranges whose rounded end does not wrap 32 bits, as pmm_init calls it.
- Pmm.FrameAllocator.constructor: for regions whose 64-bit end does not overflow, as the memory map of the machine
  gives.
- Dns.WriteName: for names whose labels the one-byte counter can scan, and a buffer large enough for them.
- Tcp.PrefixDelivered: for streams shorter than 2^32 bytes, and within one connection.
- Elf.Loader.ElfLoad: for files whose loadable segments have sums that do not wrap 32 bits; a failed load leaves its
  pages to the caller, who destroys the space.
- ElfFile.LoadProgram: for programs whose parts do not overlap; files are built with the program headers behind the
  file header and the data behind these.
