# Lofita kernel: a Dafny model

This project models the state machines inside the Lofita x86_64 kernel (Rust and Zig) and proves what they keep on
every run. Hardware is replaced by values: page-table memory is a map from frames to 512-entry tables, the disk is a
row of sectors, the clock is a counter, and what a device driver, the ext2 volume or the page allocator answers is
given from outside. Code that works in place is a class or a method with loops, and each such method is proved to
compute a function of its old state; the lemmas are about those functions.

| file | what it models |
|---|---|
| `Paging.dfy` | four-level page tables as a tree without sharing, refining a flat map from page number to entry |
| `Buddy.dfy`, `BuddyTiling.dfy`, `BuddyInit.dfy`, `BuddyRequests.dfy` | the buddy allocator on `page_meta`, the pool as a tiling by aligned blocks, what the marks left by `ppa_init` change, and which requests then overlap |
| `KeyboardRing.dfy` | the key ring shared by an interrupt handler and the shell, one load or store at a time |
| `Ext2Data.dfy`, `Ext2Holes.dfy` | block traversal, for files without and with holes |
| `Ext2Dir.dfy`, `Ext2Layout.dfy` | inodes, directories and path resolution, and their bytes on disk read back |
| `AtaDriver.dfy` | byte access on 512-byte sectors |
| `Scheduler.dfy`, `Ipc.dfy`, `KernelIpc.dfy`, `Wakeups.dfy` | round robin, message ports, the two together, and what becomes of woken threads |
| `Tokens.dfy` | tokens, sessions, expiry and inherited rights |
| `Vfs.dfy`, `Initramfs.dfy`, `Compress.dfy` | RAMFS and descriptors, the initial file list, run-length encoding |
| `Options.dfy`, `Bytes.dfy`, `Text.dfy`, `Utf8.dfy`, `Arith.dfy` | results, little-endian words, searching a text, UTF-8, division |

Counters that never wrap in practice (ticks, token, session, thread and descriptor numbers) are unbounded. Casts that
can lose bits are written out: the sector count of a disk access is cut to eight bits and block addresses to 32. The
sums that give tokens and sessions their last tick are taken modulo 2^64, since their second operand is an argument;
the size of a read is not, as the system call bounds it by the caller's buffer (kernel/src/lib.rs:467-472).

## Where the code falls short of a property

- The merge step of `phys_free` leaves the absorbed right-hand head marked free when it merges into a left buddy.
  `Coalesce`, `MergeStep`, `Free` and `Step` take a flag `clear`: `false` is the code as written, `true` also clears
  that mark. The class `PageAllocator` is the code as written. `LiteralFreeTiledIff` says exactly when the code as
  written keeps the pool tiled, for one call, and `LiteralRunTiledIff` for whole runs; `LiteralFreeBreaksTiling` gives
  a concrete failing call, after which `LeftMergeHandsOutTwice` hands out overlapping blocks. The coalescing theorems
  `FreeTiled` and `FreeingEverythingRebuilds` are about the step with `clear`; `LiteralRunRebuilds` carries them to
  runs of the code as written in which no free merges into a left buddy.
- `ppa_init` marks every page free at order 0 besides the sixteen heads, so the pool it leaves is not tiled
  (`InitialPoolIsNotTiled`). `FirstTwoOverlapIff`: its first two allocations overlap exactly when one of them, and not
  the other, asks for a single page. `RequestsOverlapIff`: in any run of requests, two blocks overlap exactly when single
  pages and larger blocks were both requested, or more than 16369 single pages were. `DisjointWithoutSinglePages`: on
  every run that never asks for exactly one page, clients hold what they would hold from a clean pool, and the blocks
  they hold are disjoint (for the code as written, as long as no free merges into a left buddy).
- A thread woken on one port may go and wait on another; the message it was woken for then stays, with other threads
  waiting for it and nothing to run (`WokenThreadGoesElsewhere`). `WokenThreadsAreReady` says exactly which woken
  threads are Ready, and `OnePortEach` that all are when each thread receives on one port only.
- `resolve_path` does not advance past a directory record of length zero (`ZeroLengthStalls`). `ScanEndsIff` says
  exactly when the scan of a directory ends without a panic.
- The loader of the initial files drops a carriage return before a newline (`ReturnIsLost`), leading newlines, and
  lines that look like headers. `RestoredIff` says exactly which contents come back.
- The last tick of a new token is a 64-bit sum without overflow check, so a great lifetime makes a token that is listed
  and already expired, and a session can be started on it (`WrappedLifetimeRuns`). `StepFreshIff` and `AlwaysFreshIff` say
  exactly which creations do that, `NeverRunsExpired` that the next tick ends it, and `StartsInTimeIff` that a session
  whose own sum wraps never passes a check.
- Once a token has left the table, a session still running on it may create children with any rights
  (`GrantedIff`), and such states are reachable (`UnlistedParentReachable`).
- A file with a hole is not read with zeroes in its place: a zero pointer ends its row and later blocks move up
  (`LeadingHole`). `ReadsFileBlocks` says exactly what is read for every inode.
- A disk access that touches more than 255 sectors panics after its sector count is cut to eight bits; `AtaDisk.Read`
  and `AtaDisk.Write` state success exactly up to that size.
- A comment in `read_inode_data` says that only direct blocks are supported; the code reads three levels of indirection,
  and the model follows the code.

## Model

| member | source | states |
|---|---|---|
| `Paging.SplitInjective` | arch/x86_64/mm/paging.zig:71-79 | two addresses share all four table indices exactly when they share the 36-bit page number |
| `Paging.LeafFrame` | arch/x86_64/mm/paging.zig:123 | a written leaf is present, and decodes to the requested frame exactly when the flags add no frame bit to it |
| `Paging.LeafRights` | arch/x86_64/mm/paging.zig:123 | a written leaf has exactly the requested write, user and no-execute rights |
| `Paging.WriteFrame` | arch/x86_64/mm/paging.zig:110-147 | writing one table entry changes no walk except those through that entry, because no table is shared |
| `Paging.EnsureTableCorrect` | arch/x86_64/mm/paging.zig:157-169 | at any level: fails exactly when the child table is absent and no frame is left, takes a frame exactly when it is absent, changes no translation and no other table, keeps the tree, and leads to the returned table |
| `Paging.MapCorrect` | arch/x86_64/mm/paging.zig:110-127 | succeeds exactly when there is a frame for each absent table on the way, and takes just those; success changes the translation of exactly one page, running out of memory at any level changes none |
| `Paging.NeighboursNeedNoFrames` | arch/x86_64/mm/paging.zig:110-169 | pages that share their last-level table with a mapped page need no frame to be mapped |
| `Paging.UnmapCorrect` | arch/x86_64/mm/paging.zig:130-147 | removes the translation of exactly one page |
| `Paging.StepRefines` | arch/x86_64/mm/paging.zig:110-147 | every map, unmap or allocator step keeps the tree invariant and the agreement with the flat map |
| `Paging.EveryRunRefinesFlatMap` | arch/x86_64/mm/paging.zig:90-147 | on every run over a created space, every walk equals the lookup in the flat map |
| `Paging.UpperLevelsNeverNarrow` | arch/x86_64/mm/paging.zig:157-169 | the processor's walk, with rights combined over four levels, grants what the leaf alone grants |
| `Paging.EveryRunWalksFlatMap` | arch/x86_64/mm/paging.zig:90-169 | on every run over a created space, the processor's walk grants what the flat map's entry grants and faults exactly where there is none |
| `Paging.MappedRights` | arch/x86_64/mm/paging.zig:106-127 | after a successful map the processor's walk gives the requested frame with the requested rights |
| `Paging.PagingContext.Create` | arch/x86_64/mm/paging.zig:90-95 | null exactly without a frame; otherwise an empty valid space |
| `Paging.PagingContext.EnsureTableAt` | arch/x86_64/mm/paging.zig:157-169 | the in-place code computes `EnsureTable` |
| `Paging.PagingContext.MapPage` | arch/x86_64/mm/paging.zig:110-127 | the in-place code computes `Map` and keeps the invariant, including the partial work of a failed call |
| `Paging.PagingContext.UnmapPage` | arch/x86_64/mm/paging.zig:130-147 | the in-place code computes `Unmap` and keeps the invariant |
| `Buddy.RequestOrderExact` | mm/ppa.zig:111-116 | the request order is the least that fits, and exists exactly up to 1024 pages |
| `Buddy.FindExact` | mm/ppa.zig:118-141 | the search fails exactly when no page is marked free with a sufficient order; a hit lies inside the pool |
| `Buddy.FindLeast` | mm/ppa.zig:118-141 | of all pages marked free with a sufficient order, the search finds the least order and then the lowest page |
| `Buddy.BuddyHalves` | mm/ppa.zig:173-181 | an aligned block and its XOR buddy are the two halves of an aligned block of the next order |
| `Buddy.StepBounded` | mm/ppa.zig:104-188 | any call keeps every page aligned to its recorded order of at most 10 |
| `Buddy.EveryRunIsBounded` | mm/ppa.zig:71-188 | that holds after every sequence of calls from `ppa_init`, as written |
| `Buddy.AllocInPool` | mm/ppa.zig:104-141 | whatever was freed before, a returned block is in the pool, aligned, and the smallest power of two that fits |
| `Buddy.PageAllocator.constructor` | mm/ppa.zig:71-89 | the metadata `ppa_init` leaves |
| `Buddy.PageAllocator.PhysAlloc` | mm/ppa.zig:104-141 | the nested loops compute `Alloc` and keep the bound invariant |
| `Buddy.PageAllocator.ScanFor` | mm/ppa.zig:120-124 | the scan returns the first free block of the order |
| `Buddy.PageAllocator.SplitBlock` | mm/ppa.zig:125-136 | the split loop computes `SplitDown` and takes the block |
| `Buddy.PageAllocator.PhysFree` | mm/ppa.zig:147-188 | bad pointers and double frees change nothing; otherwise the loop computes the literal `Free` |
| `BuddyTiling.SplitTiling` | mm/ppa.zig:127-134 | halving a block keeps the pool tiled |
| `BuddyTiling.MergeTiling` | mm/ppa.zig:178-183 | merging two free halves keeps the pool tiled |
| `BuddyTiling.AllocFromTiling` | mm/ppa.zig:104-141 | from any tiled pool: null exactly when nothing fits; otherwise one aligned block carved from a free one, every other block, free or held, untouched, the tiling kept, and the absence of free pairs kept |
| `BuddyTiling.AllocFirstFit` | mm/ppa.zig:104-141 | first fit: no page with enough room has a smaller order, or the same order and a lower number |
| `BuddyTiling.CoalesceTiled` | mm/ppa.zig:169-187 | coalescing (with `clear`) keeps any tiling and all held blocks, and leaves no free pair if every pair there was involves the freed block |
| `BuddyTiling.FreeTiled` | mm/ppa.zig:147-188 | freeing a block of any tiled pool (with `clear`) removes exactly that block from the held ones, and keeps the absence of free pairs |
| `BuddyTiling.HeldBlocksDisjoint` | mm/ppa.zig:104-188 | blocks held at the same time never share a page |
| `BuddyTiling.AllFreeMeansMaximal` | mm/ppa.zig:169-187 | with every block free and no free pair, every block has the maximum order |
| `BuddyTiling.FreeingEverythingRebuilds` | mm/ppa.zig:104-188 | every run from a clean pool stays tiled, and holding nothing means the sixteen maximum blocks again |
| `BuddyTiling.LiteralFreeTiledIff` | mm/ppa.zig:147-188 | freeing a held block of any tiled pool with the code as written leaves a tiled pool exactly when no merge goes into a left buddy |
| `BuddyTiling.LiteralFreeBuilds` | mm/ppa.zig:147-188 | for any tiled pool, the code as written builds the same blocks as the clearing step, left merges or not; other pages differ at most by a stray free mark |
| `BuddyTiling.FreeingTwice` | mm/ppa.zig:147-188 | freeing the same page twice in a row changes nothing the second time |
| `BuddyTiling.LiteralFreeBreaksTiling` | mm/ppa.zig:178-183 | a concrete free after which page 0 and page 512 are both marked free |
| `BuddyInit.LiteralAgrees` | mm/ppa.zig:147-188 | with no left merge, the code as written and the clearing step do the same to a valid pool |
| `BuddyInit.LiteralRunTiledIff` | mm/ppa.zig:104-188 | a run of the code as written keeps the pool tiled at every point exactly when no free in it merges into a left buddy |
| `BuddyInit.LeftMergeHandsOutTwice` | mm/ppa.zig:104-188 | after one such merge, requests for 1024 and 512 pages get overlapping blocks |
| `BuddyInit.LiteralRunRebuilds` | mm/ppa.zig:104-188 | a run of the code as written without left merges keeps the pool tiled, and holding nothing means the sixteen maximum blocks again |
| `BuddyInit.RunFollows` | mm/ppa.zig:71-188 | order-0 marks that no call reads never change what a run hands out |
| `BuddyInit.DisjointWithoutSinglePages` | mm/ppa.zig:71-188 | from `ppa_init`, runs that never ask for exactly one page hold what they would hold from a clean pool, in disjoint blocks; for the code as written, while no free merges into a left buddy |
| `BuddyInit.FirstTwoOverlapIff` | mm/ppa.zig:71-141 | the first two blocks allocated after `ppa_init` share a page exactly when one request, and not the other, is for a single page |
| `BuddyRequests.RequestsOverlapIff` | mm/ppa.zig:71-141 | for every run of requests after `ppa_init`: two of the blocks given out share a page exactly when single pages and larger blocks were both requested, or more than 16369 single pages were |
| `BuddyInit.InitialPoolIsNotTiled` | mm/ppa.zig:77-87 | the metadata `ppa_init` leaves describes no tiling |
| `KeyboardRing.ProducerKeepsInv` | drivers/keyboard.zig:10-18 | each shared access of `ring_put` keeps the queue invariant |
| `KeyboardRing.ConsumerKeepsInv` | drivers/keyboard.zig:20-27 | each shared access of `read_key` keeps the queue invariant |
| `KeyboardRing.EveryInterleavingIsFifo` | drivers/keyboard.zig:5-27 | under every interleaving, bytes returned are a prefix of bytes published, at most 255 wait, and no write targets the slot being read |
| `KeyboardRing.DecisionsAreExact` | drivers/keyboard.zig:12-23 | a key is dropped exactly at 255 waiting bytes; a read returns nothing exactly when all bytes seen published were returned |
| `KeyboardRing.PutCallAppends` | drivers/keyboard.zig:10-18 | an uninterrupted put appends unless 255 bytes wait |
| `KeyboardRing.ReadCallTakesFirst` | drivers/keyboard.zig:20-27 | an uninterrupted read takes the oldest byte |
| `KeyboardRing.Keyboard.RingPut` | drivers/keyboard.zig:10-18 | the method performs the four steps and keeps the invariant |
| `KeyboardRing.Keyboard.ReadKey` | drivers/keyboard.zig:20-27 | the method performs the four steps and returns the oldest byte |
| `Ext2Data.StreamIsLogical` | kernel/src/fs/ext2.rs:190-255 | byte k below a pointer of any level lies in the block found by dividing k down the levels |
| `Ext2Data.FetchFull` | kernel/src/fs/ext2.rs:192-255 | with all needed pointers non-zero the pointer loops return the leading bytes of that stream |
| `Ext2Data.FileIsLogical` | kernel/src/fs/ext2.rs:176-255 | 12 direct, then p, p^2 and p^3 blocks make up the file in order |
| `Ext2Data.ReadsLogicalFile` | kernel/src/fs/ext2.rs:171-258 | without holes the result has length min(size, capacity) and every byte comes from its logical block |
| `Ext2Data.ReadsDeviceBytes` | kernel/src/fs/ext2.rs:147-258 | byte k of such a file stands on the device at its logical block's start plus k modulo the block size |
| `Ext2Holes.ReadsFileBlocks` | kernel/src/fs/ext2.rs:171-258 | for every inode, with or without holes: the file's blocks in order, each row of pointers ending at its first zero, cut at the size; the length is the lesser of size and blocks |
| `Ext2Holes.LeadingHole` | kernel/src/fs/ext2.rs:177-188 | a file with a hole in front whose direct blocks are not read at all |
| `Ext2Data.ReadDataBlocks` | kernel/src/fs/ext2.rs:192-201 | the loop computes `Fetch` at level 1; copied plus remaining is constant |
| `Ext2Data.ReadDoubly` | kernel/src/fs/ext2.rs:219-227 | the loop computes `Fetch` at level 2; copied plus remaining is constant |
| `Ext2Data.ReadTriply` | kernel/src/fs/ext2.rs:237-253 | the loop computes `Fetch` at level 3; copied plus remaining is constant |
| `Ext2Data.ReadDirect` | kernel/src/fs/ext2.rs:177-188 | the direct loop, which also stops at an unreadable block |
| `Ext2Data.ReadInodeData` | kernel/src/fs/ext2.rs:171-258 | the whole call computes `Fetched` for every inode, with or without holes |
| `Ext2Dir.InodeLayout` | kernel/src/fs/ext2.rs:153-169 | inode number g * per-group + i + 1 is read from slot i of the table of group g |
| `Ext2Dir.InodeExistsIff` | kernel/src/fs/ext2.rs:153-169 | an inode is found exactly for numbers 1 to the superblock's count on a readable device |
| `Ext2Dir.DirectoryBits` | kernel/src/fs/ext2.rs:269-271 | the directory test is the masked mode |
| `Ext2Layout.InodeReadsBack` | kernel/src/fs/ext2.rs:67-86 | mode, size and fifteen pointers written byte by byte are read back |
| `Ext2Layout.InodeFromDevice` | kernel/src/fs/ext2.rs:153-169 | an inode written to its slot on the device is the one found under its number |
| `Ext2Layout.PointersFromDevice` | kernel/src/fs/ext2.rs:205-217 | pointers written to an indirect block are the ones followed |
| `Ext2Layout.RecordReadsBack` | kernel/src/fs/ext2.rs:278-283 | a record written byte by byte reads back as its inode, length and name |
| `Ext2Layout.NoTextNoName` | kernel/src/fs/ext2.rs:283 | a name that is no UTF-8 text reads as the empty name |
| `Ext2Layout.DirectoryReadsBack` | kernel/src/fs/ext2.rs:277-318 | a printed directory is listed as exactly its live names except dot and dot-dot, and searched as its first live bearer |
| `Ext2Layout.PrintedDirectory` | kernel/src/fs/ext2.rs:260-322 | so on a volume: `list_dir` and one step of `resolve_path` |
| `Ext2Layout.PrintedRoot` | kernel/src/fs/ext2.rs:260-297 | the root path is inode 2, and names under it resolve to their first bearer |
| `Ext2Dir.FoundIffListed` | kernel/src/fs/ext2.rs:277-321 | a proper name is found in a directory exactly when it is listed, or borne by a final record of length zero, which the listing passes over |
| `Ext2Dir.TilesScan` | kernel/src/fs/ext2.rs:277-321 | when every record advances and live names lie inside, both scans end and no such final record exists |
| `Ext2Dir.ScanEndsIff` | kernel/src/fs/ext2.rs:277-291 | the scan for a name ends without a panic exactly when each record reached can be read, and advances unless it matches |
| `Ext2Dir.ZeroLengthStalls` | kernel/src/fs/ext2.rs:277-291 | a record of length zero that does not match keeps the scan in place for ever |
| `Ext2Dir.PartsOfConcat` | kernel/src/fs/ext2.rs:263 | joining two paths with a slash joins their parts |
| `Ext2Dir.RepeatedSlashes` | kernel/src/fs/ext2.rs:263 | repeated and leading slashes change nothing |
| `Ext2Dir.PathsCompose` | kernel/src/fs/ext2.rs:260-297 | resolving a joined path is resolving its second half from where the first half leads, and that half can be scanned too |
| `Ext2Dir.ResolvesIffListed` | kernel/src/fs/ext2.rs:260-322 | one more name resolves from a directory exactly when `list_dir` reports it, or a final record of length zero bears it |
| `Ext2Dir.FindEntry` | kernel/src/fs/ext2.rs:277-291 | whenever the scan ends, it returns the first live record with the name |
| `Ext2Dir.ListEntries` | kernel/src/fs/ext2.rs:305-318 | for any data: the live names except dot and dot-dot up to a record of length zero, or a panic exactly when a read leaves the data |
| `Ext2Dir.Resolve` | kernel/src/fs/ext2.rs:260-297 | computes `ResolvePath` on every path whose directories can be scanned for their parts |
| `Ext2Dir.List` | kernel/src/fs/ext2.rs:299-322 | computes `ListDir` or panics, decided by the data; not a directory means an empty list |
| `AtaDriver.TruncationIsHarmless` | kernel/src/driver.rs:115-126 | the eight-bit sector count holds the access exactly when at most 255 sectors are touched |
| `AtaDriver.Patched` | drivers/ata.zig:106-127 | writing whole sectors replaces one contiguous range of the flat disk |
| `AtaDriver.AtaDisk.ReadSectors` | drivers/ata.zig:80-104 | reads one contiguous range of the flat disk |
| `AtaDriver.AtaDisk.Read` | kernel/src/driver.rs:114-127 | returns exactly the addressed slice, or panics exactly beyond 255 sectors |
| `AtaDriver.AtaDisk.Write` | kernel/src/driver.rs:129-148 | changes exactly the addressed bytes, or panics and changes nothing |
| `Scheduler.ScheduleRotates` | kernel/src/sched.rs:84-107 | scheduling only rotates the queue and returns nothing exactly when nothing is Ready; otherwise the first Ready thread is returned, active and last |
| `Scheduler.StepKeepsUnique` | kernel/src/sched.rs:60-120 | thread ids stay distinct |
| `Scheduler.Advances` | kernel/src/sched.rs:84-120 | a Ready thread never moves back, and each scheduling call that passes it moves it forward |
| `Scheduler.BoundedWaiting` | kernel/src/sched.rs:60-120 | a thread at index p that stays Ready runs within p+1 scheduling calls whatever else happens |
| `Scheduler.TerminatedForGood` | kernel/src/sched.rs:109-120 | a terminated thread is gone and never runs again; the others that are not Zombies stay, in order |
| `Scheduler.ThreadScheduler.Spawn` | kernel/src/sched.rs:60-82 | appends a Ready thread with the next id |
| `Scheduler.ThreadScheduler.ScheduleNext` | kernel/src/sched.rs:84-107 | the rotation loop computes `Schedule` |
| `Scheduler.ThreadScheduler.MarkThread` | kernel/src/lib.rs:532-537 | the loop sets the state of the thread with the id and of no other |
| `Scheduler.ThreadScheduler.TerminateThread` | kernel/src/sched.rs:109-120 | the two loops compute `Terminate` |
| `Ipc.PortStepOk` | kernel/src/ipc.rs:38-76 | one send or receive keeps order, the 1024 limit and the wake-up count of its port |
| `Ipc.NoLostWakeup` | kernel/src/ipc.rs:38-76 | after every run: while a thread is blocked, waiting messages number at most the woken threads yet to come; messages leave in send order and never exceed 1024 |
| `Ipc.IpcSubsystem.SendMessage` | kernel/src/ipc.rs:38-59 | the method computes `Send` |
| `Ipc.IpcSubsystem.ReceiveMessage` | kernel/src/ipc.rs:61-76 | the method computes `Recv` |
| `KernelIpc.StepValid` | kernel/src/lib.rs:519-560 | every legal call keeps: one waiting place per thread, and waiting threads are exactly the Blocked ones |
| `KernelIpc.WaitingAreBlocked` | kernel/src/lib.rs:519-560 | that holds after every legal run |
| `KernelIpc.BlockedUntilSend` | kernel/src/lib.rs:519-560 | a thread with i others ahead is not scheduled, and keeps its line, until more than i sends on its port are accepted |
| `KernelIpc.FirstInLineWakes` | kernel/src/lib.rs:528-541 | the next accepted send returns the first waiting thread and makes it Ready |
| `Wakeups.TraceStepOk` | kernel/src/lib.rs:519-560 | every legal call keeps: a thread woken on a port is recorded once, alive, and out of that port's line |
| `Wakeups.WokenThreadsAreReady` | kernel/src/lib.rs:519-560 | after every legal run: a woken thread is Ready exactly when it waits on no other port; while a thread waits, messages number at most the distinct woken threads |
| `Wakeups.ReadyRuns` | kernel/src/lib.rs:519-618 | a thread Ready at index p that makes no receive is picked within p+1 ticks, whatever is spawned, sent or received meanwhile |
| `Wakeups.WokenRuns` | kernel/src/lib.rs:519-618 | after every legal run, a woken thread that waits on no other port is picked within one round of the queue |
| `Wakeups.OnePortEach` | kernel/src/lib.rs:519-560 | if each thread receives on one port only, every woken thread is Ready |
| `Wakeups.WokenThreadGoesElsewhere` | kernel/src/lib.rs:519-560 | a legal run that ends with a message and a waiting thread on one port and nothing to schedule |
| `KernelIpc.KernelPorts.RustIpcSend` | kernel/src/lib.rs:519-542 | the call computes `IpcSend` and returns the woken id or zero |
| `KernelIpc.KernelPorts.RustIpcRecv` | kernel/src/lib.rs:545-560 | the call computes `IpcRecv` and returns whether a message came |
| `Tokens.StepValid` | kernel/src/lib.rs:237-618 | creation, start and tick keep the table invariants: known ids, counted runs, rights and privilege within the recorded parent's |
| `Tokens.StepFreshIff` | kernel/src/lib.rs:237-618 | after a call no listed token has expired exactly when the call is a tick, or none had before and it is no granted creation whose last tick exceeds 64 bits |
| `Tokens.AlwaysFreshIff` | kernel/src/lib.rs:237-618 | at every point of a run no listed token has expired exactly when no such creation occurs in it |
| `Tokens.NeverRunsExpired` | kernel/src/lib.rs:237-618 | in every reachable state no listed token has expired exactly unless such a creation happened since the last tick, and only then can a session start on an expired token; no token starts more than two |
| `Tokens.WrappedLifetimeRuns` | kernel/src/lib.rs:284 | a run from boot after which a session starts on an expired token |
| `Tokens.StartsInTimeIff` | kernel/src/lib.rs:328-416 | a new session is in time exactly when the end of its span fits in 64 bits; otherwise it never passes a capability check |
| `Tokens.TokenLasts` | kernel/src/lib.rs:258-309 | a granted token is listed after every run that ends at a tick of at most its creation plus lifetime, and after no later one |
| `Tokens.SessionLasts` | kernel/src/lib.rs:313-416 | a started session passes a check exactly for rights its token holds and at ticks of at most its start plus span |
| `Tokens.StartedIff` | kernel/src/lib.rs:313-340 | a process starts exactly on a listed token with fewer than two sessions, and adds one |
| `Tokens.RootStaysListed` | kernel/src/lib.rs:579-595 | the permanent root token stays listed on every run |
| `Tokens.TickActivates` | kernel/src/lib.rs:602-606 | a tick activates the session of the scheduled thread and changes no other |
| `Tokens.ExpiredForGood` | kernel/src/lib.rs:402-416 | once a session's time is over, no later state passes its capability check |
| `Tokens.AncestorsBound` | kernel/src/lib.rs:268-279 | along recorded parents rights only shrink and privilege only drops |
| `Tokens.CheckBoundedByAncestors` | kernel/src/lib.rs:402-416 | no check passes for a right that a recorded ancestor lacks |
| `Tokens.GrantedIff` | kernel/src/lib.rs:258-309 | a creation is granted exactly to a session running on the parent, which is no longer listed or has the requested rights and privilege; the one new token records its parent exactly when listed, and nothing else changes |
| `Tokens.UnlistedParentReachable` | kernel/src/lib.rs:258-309 | a run from boot to a session whose token holds no right and is no longer listed |
| `Tokens.KernelState.CreateChildToken` | kernel/src/lib.rs:258-309 | computes `CreateChild`, keeps the table invariants, and keeps all listed tokens unexpired exactly when the granted lifetime does not wrap |
| `Tokens.KernelState.StartProcess` | kernel/src/lib.rs:313-340 | computes `RunProcess` and spawns a Ready thread for the session; if no listed token had expired, the started session's token has not |
| `Tokens.KernelState.CheckCapability` | kernel/src/lib.rs:402-416 | active, in time and capability held |
| `Tokens.KernelState.CollectExpired` | kernel/src/lib.rs:579-585 | the first loop collects exactly the expired ids |
| `Tokens.KernelState.KernelTick` | kernel/src/lib.rs:574-618 | counts the tick, removes exactly the expired tokens so that no listed one has expired, schedules, and activates the session of the scheduled thread |
| `Vfs.StepValid` | kernel/src/vfs.rs:84-218 | every call keeps each RAMFS descriptor inside an existing file |
| `Vfs.RunValid` | kernel/src/vfs.rs:84-218 | on every run that holds and no file disappears or shrinks |
| `Vfs.PathKinds` | kernel/src/vfs.rs:84-96 | which paths are devices, ext2 files, or refused |
| `Vfs.OpenIff` | kernel/src/vfs.rs:84-115 | opens exactly paths that are not refused and are devices, existing, or created; the new descriptor stands at the start and nothing else changes |
| `Vfs.CloseIff` | kernel/src/vfs.rs:117-125 | closes exactly open descriptors and removes just that one |
| `Vfs.ReadExact` | kernel/src/vfs.rs:136-183 | the bytes at the descriptor, as many as asked for and left, and only that descriptor moves, by that many |
| `Vfs.WriteIff` | kernel/src/vfs.rs:185-218 | succeeds exactly on an open, writable descriptor whose device answers or file exists |
| `Vfs.WriteHasNoGap` | kernel/src/vfs.rs:185-218 | a write gives old prefix, data, old suffix; the zero fill is never visible, and only that descriptor moves |
| `Vfs.SoleWriter` | kernel/src/vfs.rs:84-218 | a new file written through one descriptor holds the concatenation of the writes made while it was open, also after it is closed |
| `Vfs.ReadsFromStart` | kernel/src/vfs.rs:84-183 | reads through a new descriptor, with no write to the file in between, return its bytes from the start, as many as asked for in all |
| `Vfs.WrittenIsReadBack` | kernel/src/vfs.rs:84-218 | what a sole writer wrote is read back by whoever opens the file afterwards |
| `Vfs.VfsState.Open` | kernel/src/vfs.rs:84-115 | computes `OpenFile` with its refusals and keeps the invariant |
| `Vfs.VfsState.Close` | kernel/src/vfs.rs:117-125 | computes `CloseFile` |
| `Vfs.VfsState.Read` | kernel/src/vfs.rs:136-183 | computes `ReadFile`, devices and ext2 answers included |
| `Vfs.VfsState.Write` | kernel/src/vfs.rs:185-218 | computes `WriteFile` |
| `Initramfs.PopulateFiles` | kernel/src/vfs.rs:53-82 | the line loop computes `Populate` |
| `Initramfs.LastLine` | kernel/src/vfs.rs:58 | a last line without newline counts and keeps its carriage return |
| `Initramfs.TrimExact` | kernel/src/vfs.rs:66 | trimming takes away whitespace only, and all of it at both ends |
| `Initramfs.PaddedHeader` | kernel/src/vfs.rs:59-67 | a header line starts the file it names, with blanks around the path ignored |
| `Initramfs.NothingBeforeHeader` | kernel/src/vfs.rs:60-81 | lines before the first header belong to no file |
| `Initramfs.NoTextNoFiles` | kernel/src/vfs.rs:54 | data that is no UTF-8 text loads nothing |
| `Initramfs.LoadRestores` | kernel/src/vfs.rs:53-82 | printing, compressing, decompressing and loading restores exactly the files, and leaves files with other paths as they were |
| `Initramfs.RestoredIff` | kernel/src/vfs.rs:53-82 | printed files with distinct good paths all come back exactly when, in each, no line ends in a carriage return or looks like a header and there is no leading newline |
| `Initramfs.BadContentShrinks` | kernel/src/vfs.rs:53-82 | any other content comes back with fewer characters, whatever was read before it, and no file it overwrites gets more |
| `Initramfs.ReturnIsLost` | kernel/src/vfs.rs:53-82 | a concrete content whose carriage return is lost |
| `Utf8.RoundTrip` | kernel/src/vfs.rs:54 | every text survives encoding and `from_utf8` |
| `Utf8.OnlyEncodings` | kernel/src/vfs.rs:54 | nothing but the encoding of a text is accepted |
| `Compress.RoundTrip` | kernel/src/compress.rs:16-59 | decompressing a compressed input gives it back, for every input |
| `Compress.Optimal` | kernel/src/compress.rs:16-35 | no pair sequence that decompresses to the input is shorter than the encoder's |
| `Compress.RunLength` | kernel/src/compress.rs:25-28 | the inner loop finds the run |
| `Compress.CompressBytes` | kernel/src/compress.rs:16-35 | the loops compute `Encode` |
| `Compress.DecompressBytes` | kernel/src/compress.rs:41-59 | the loops compute `Decode`; odd lengths are refused |

## Left out

- Tokens.StepValid: does not promise that no listed token has expired, because that fails when a lifetime wraps; `StepFreshIff` has the exact condition.
- StartProcess: does not promise an unexpired token after a wrapped creation, for the same reason.
- Port I/O, boot code, descriptor tables, interrupt controllers, PCI, serial, VGA, shell and the simulation script: plumbing and a second copy of the same logic.
- `activate`, `invlpg`, locks: the processor's caches and mutual exclusion are not modelled; every call is one atomic step except in the key ring.
- `paging_global_init`: it installs 1 GiB entries that `ensure_table` would decode as child tables; the paging theorems are about spaces made by `create`, with the allocator as a supply of fresh aligned frames.
- `free_pages`: it counts interior pages too.
- CoalesceTiled: about the step that also clears the absorbed right-hand head; the code as written is covered by `LiteralFreeTiledIff` and `LiteralRunTiledIff`, because the property fails for it.
- FreeTiled: the same, and about block heads only.
- HeldBlocksDisjoint: about valid pools, which runs with the clearing step from a clean start keep; `DisjointWithoutSinglePages` says what holds from `ppa_init` and for the code as written.
- FreeingEverythingRebuilds: clearing step and clean start; `LiteralRunRebuilds` is about the code as written.
- PhysFree of a pointer into the middle of a block: the bound invariant covers it, the tiling theorems require the head of a held block.
- ReadsLogicalFile: about files without holes, because files with holes are not read as their logical view; `ReadsFileBlocks` is about all files.
- `mount`: the superblock's and group descriptors' fields are the geometry of the volume.
- ReadSectors: a transfer of zero sectors is read as transferring nothing; an access past the end of the disk is not modelled.
- Resolve: directories on which the scan panics or never ends are excluded; `ScanEndsIff` says exactly which these are. Inode tables that do not cover the inode count are excluded everywhere, as indexing them panics.
- `terminate_thread` together with message ports: it does not remove the thread from the waiting lines, so it is modelled in the scheduler only; register contexts and shared thread references are values there.
- KernelTick: leaves out the unmapping of regions and the freeing of their frames when a token expires, and the register values copied to the trap frame.
- Region bookkeeping of a token (`mem_alloc`, page faults, `rust_allocate_memory`): quota and lookup would only add easy members, and disjointness of regions does not hold.
- CreateChildToken: tokens made below a parent that has left the table record no parent, as in the code, so `AncestorsBound` does not reach past them.
- `rust_spawn_process`: it looks up token 0, which is never created.
- Both ELF loaders, the Linux call routing, the web view, the SDK, and the null, random and framebuffer devices: stubs, thin wrappers, or right only for aligned segments.
- LoadRestores: the files' paths are distinct, trimmed and non-empty; content outside the condition of `RestoredIff` is not restored by the code.
