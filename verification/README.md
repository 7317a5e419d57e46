# mayv2 in Dafny

mayv2 is a 64-bit hobby kernel. These files describe, in Dafny, the parts of it whose correctness is
hard to see from one function at a time, and prove what they promise. Most of it is the memory stack,
where three managers have to agree with each other: the page-table editor and the address-space lists
(`src/boot/virtualmemmgmt.cpp`), the buddy bitmaps of physical memory (`src/boot/phymemmgmt.cpp`) and the
kernel heap (`src/boot/heapmemmgmt.cpp`). Beside it stand the red-black tree that the kernel library
compiles in (`src/lib/libkc++.cpp`), the boot loader's clean-up of the firmware's memory map
(`src/boot/stage2/loader32.cpp`), the AHCI command slots with the event queue
(`src/drivers/storage/ahci/device.cpp`, `src/boot/scheduler.cpp`), the UTF-8/UTF-16 codec
(`src/boot/unicode.cpp`) and the lookup of files by path (`src/drivers/filesystems.cpp`).

`dafny verify dfyconfig.toml` verifies everything.

## How it is laid out

| files | subject |
|---|---|
| `RbShapes`, `RbBalance` | the pointers of a tree as a snapshot, a place in a tree as a path of frames, rotations, the colour and height conditions, and the turns of the two rebalancing loops |
| `RbRebalance`, `RbTrees`, `RbErase`, `RbWalk` | the library's functions on nodes with parent, left, right and colour fields |
| `Shifts`, `BuddyBits`, `Physical`, `PhysicalRuns` | the ten bitmaps, the manager on byte arrays, and every sequence of grants, markings and releases |
| `PageWalk`, `PageTree`, `Paging` | four-level translation and the windows of the self-referencing entry; the tree of tables; the editor, which reads and writes tables only through the windows |
| `PagingBudget`, `PagingTranslation`, `PagingRoundTrip` | the frames that mapping takes and when there are too few; what mapping and unmapping mean for every address; mapping followed by unmapping |
| `AddressLists`, `AddressSpaces`, `AddressReleases` | the run-length lists, the operations on them, and when a release is the inverse of a request |
| `Allocation`, `AllocationRuns` | memory for a range of pages: one turn of the loop that takes and maps it, and whole calls |
| `Reservations`, `VirtualMemory`, `Boot` | the three managers together, and their state at the start |
| `HeapBlocks`, `Heap`, `HeapList` | blocks, one region with its in-band entries and its table of addresses, all regions |
| `MemoryMap` | the firmware's memory map |
| `CommandSlots`, `Ahci` | the protocol of slots, results and events over whole runs; the classes that follow it |
| `Unicode`, `Paths`, `FileTree`, `FileWalks` | the codec, absolute paths, finding and opening files, where "." and ".." lead |

A kernel panic is an outcome (`Panicked`, `None` or a false result, as the doc comments say); nothing is
promised after it. Page numbers stand for page-aligned addresses in the physical manager and in the
lists, byte addresses in the page-table editor. Ghost parameters and fields (a tree, a set of tables, a
list of blocks) say what the pointers, entries or bytes mean; each class ties them to the real fields.

## What the code does that its comments or callers do not expect

Each point names the member that states it.

- Requesting pages from a list panics when no single block is large enough although enough pages are
  available, and when the best fit is exactly the whole last block: the integrity check counts the last
  block as available (`AddressSpaces.AddressSpace.RequestPages`).
- Releasing pages that are not all in use returns true, where the comment at
  `src/boot/virtualmemmgmt.cpp:364` says false, unless all of them are available: then it panics, except
  inside a last block that ends at 2^64 bytes, where it returns true as well (`AddressReleases.FreeExactly`).
- A release that takes effect keeps the list as it should be exactly if the range ends below 2^64 bytes
  (`AddressReleases.FreeKeepsListIff`). Releasing the last, available pages of the kernel's address space
  passes the integrity check and leaves overlapping blocks (`AddressReleases.FreeCanCorrupt`).
- Marking pages free never clears a bit above order 0. Over a run the bit of a buddy of two or more pages
  stays clear exactly if no page of the buddy was ever taken or marked used; once one was, the buddy is
  never offered again (`PhysicalRuns.ClearIffNeverUsed`).
- Allocating pages without PhysicalContiguous asks for buddies until all pages are mapped, and panics when a
  buddy is larger than what is left. While every turn finds a clear buddy of the order closest to what is left,
  and frames for its tables, the call succeeds exactly if no two neighbouring binary digits of the number of
  pages are ones: 5 pages can be had and 3, 6 or 11 cannot, however much memory is free
  (`AllocationRuns.AdjacentIff`). In any memory a number without neighbouring ones is never granted too much
  (`AllocationRuns.OvershootMeansAdjacent`). Every caller in the kernel asks for contiguous pages, and then a
  panic is a matter of free frames (`AllocationRuns.ContiguousIff`).
- The heap's integrity check compares the size of blocks in use with the bytes that are free. An
  allocation passes exactly if no block in use is larger than what stays free; in a fresh region that
  limits a request to less than half of it (`HeapList.TakenPasses`, `HeapList.HalfIsTheLimit`). A request that
  fits no free block although enough bytes are free goes through a null entry, and the table of addresses
  holds an eighth of what its size suggests (`HeapList.HeapRegions.Allocate`).
- Moving up the base of a usable memory-map entry does not shorten it. The clean-up is right exactly under
  the condition `MemoryMap.AllHandled` (`MemoryMap.RightIffHandled`, `MemoryMap.LastUsableGrows`). Of any sorted
  map it leaves reserved addresses usable unless every usable entry that keeps any address begins, once moved,
  after the ends of all earlier reserved entries; and of all reserved entries, if it was moved past the next
  entry, since the subtraction for its length then wraps around (`MemoryMap.OnlyUsableIffSpared`). For a map
  that it handles that is `MemoryMap.OnlyUsableIffCleared`, and `MemoryMap.NestedStaysUsable` is an instance
  where it fails.
- A well-formed UTF-16 string is converted without a panic exactly if it has no unit 0xd800
  (`Unicode.WellFormedPoints`). UTF-8 that is longer than need be, or beyond 0x10ffff, passes as valid
  (`Unicode.ChunkRoundTripIff`).
- `openFile` looks for the file in the directory itself where `getInfo` goes on to what is mounted there. They
  agree exactly if nothing is mounted on the parent, or both directories cannot be read for the same reason,
  or both can be read and neither has the name, or both have the same node under it, or both have one that is
  no file (`FileTree.OpenAgreesWithWalkIff`); so a file below a mount point is not opened
  (`FileTree.MountedParentMissesFile`).
- ".." does not lead out of a mounted file system: its root is its own parent. A name and ".." lead back exactly
  if nothing is mounted on the directory of that name, or the very directory it is in (`FileWalks.UpLeadsBackIff`).
- Of several children of one name `openFile` takes the last, `getInfo` the first, and a child that is no file
  makes `openFile` fail (`FileTree.LastFileIsOpened`, `FileWalks.IsChild`).

## Model

| member | source | states |
|---|---|---|
| RbTrees.InsertAndRebalance | src/lib/libkc++.cpp:381-470 | inserting a node below p keeps every red-black and header condition, and the node comes right before p (left) or right after it (right) in the order |
| RbErase.RebalanceForErase | src/lib/libkc++.cpp:472-631 | erasing any node returns it, keeps every red-black and header condition, and leaves the order without exactly that node |
| RbErase.Unlink | src/lib/libkc++.cpp:479-550 | the node is out of the tree, or its successor stands in its place, with one place short of a black node if a black node left; the header's ends are those of what remains |
| RbErase.UpdateEnds | src/lib/libkc++.cpp:534-549 | leftmost and rightmost move to the ends of the order without the node |
| RbErase.Relink | src/lib/libkc++.cpp:497-518 | the successor takes the erased node's place with all parent pointers |
| RbErase.Splice | src/lib/libkc++.cpp:524-533 | an only child takes the erased node's place |
| RbRebalance.RotateLeft | src/lib/libkc++.cpp:320-339 | every field of the nodes after a left rotation, including the root pointer |
| RbRebalance.RotateRight | src/lib/libkc++.cpp:350-370 | every field of the nodes after a right rotation, including the root pointer |
| RbRebalance.RebalanceAfterInsert | src/lib/libkc++.cpp:418-469 | the insertion loop turns a red node below a possibly red parent into a red-black tree of the same order |
| RbRebalance.RebalanceAfterErase | src/lib/libkc++.cpp:553-628 | the erasure loop turns a tree with one place short of a black node into a red-black tree of the same order |
| RbBalance.InsertStepBalances | src/lib/libkc++.cpp:420-467 | one turn of the insertion loop keeps all black heights and moves a red-red edge two levels up or ends it |
| RbBalance.InsertStepKeepsOrder | src/lib/libkc++.cpp:420-467 | one turn of the insertion loop keeps the order |
| RbBalance.RedSiblingBalances | src/lib/libkc++.cpp:557-563 | rotating a red sibling up leaves the place one black node short below a red parent |
| RbBalance.BlackSiblingBalances | src/lib/libkc++.cpp:564-571 | painting a black sibling red moves the shortage one level up |
| RbBalance.RedNearBalances | src/lib/libkc++.cpp:575-582 | rotating a red near nephew makes it the far one |
| RbBalance.RedFarBalances | src/lib/libkc++.cpp:583-588 | rotating a red far nephew up ends the shortage |
| RbShapes.RotationsKeepOrder | src/lib/libkc++.cpp:320-378 | rotations keep the order |
| RbWalk.Increment | src/lib/libkc++.cpp:246-267 | the next position of the order, the header after the last node, also for a root with no right child |
| RbWalk.Decrement | src/lib/libkc++.cpp:281-305 | the previous position of the order, also from the header, told by its colour |
| RbWalk.FollowsUnique | src/lib/libkc++.cpp:246-305 | a position has at most one next and one previous position |
| RbWalk.ThereAndBack | src/lib/libkc++.cpp:246-305 | decrementing after incrementing returns to the node |
| RbWalk.BackAndThere | src/lib/libkc++.cpp:246-305 | incrementing after decrementing returns to the position |
| RbErase.Minimum | src/include/std/bits/stl_tree.h:113-118 | the first node of a subtree |
| RbErase.Maximum | src/include/std/bits/stl_tree.h:127-132 | the last node of a subtree |
| Physical.BitIsDigit | src/boot/phymemmgmt.cpp:278-285 | the masks read the binary digits of a byte, lowest first |
| Physical.PhysicalMemory.constructor | src/boot/phymemmgmt.cpp:71-98 | all pages free, each order with half the bits of the one below |
| Physical.PhysicalMemory.AreBuddiesOfType | src/boot/phymemmgmt.cpp:371-391 | whether a run of buddies of one order is all used or all free; none of them if the address is beyond memory |
| Physical.PhysicalMemory.MarkPages | src/boot/phymemmgmt.cpp:263-305 | the bits of every order after marking, the counter of free pages, and nothing beyond memory |
| Physical.PhysicalMemory.FindRun | src/boot/phymemmgmt.cpp:148-167 | a complete first fit: the lowest start from 1 MiB of a run of free pages, and none only if there is none |
| Physical.PhysicalMemory.ClosestLevel | src/boot/phymemmgmt.cpp:176-193 | the order that wastes at most a quarter, or else the next smaller one |
| Physical.PhysicalMemory.RequestBuddy | src/boot/phymemmgmt.cpp:174-245 | the first clear buddy of the closest order, or of the largest order below that has one; all its pages were free |
| Physical.PhysicalMemory.RequestPages | src/boot/phymemmgmt.cpp:140-248 | exactly when a request is refused, which pages it takes, that they were all free, and that a grant larger than the request wastes at most a quarter of itself |
| BuddyBits.ClearMeansFree | src/boot/phymemmgmt.cpp:293-304 | a clear bit at order k means that all 2^k pages beneath it are free |
| BuddyBits.MarkedKeepsLayers | src/boot/phymemmgmt.cpp:263-305 | marking pages used or free keeps that |
| BuddyBits.ClearBuddyIsFree | src/boot/phymemmgmt.cpp:198-242 | the pages of the buddy that a request takes are in memory and free |
| BuddyBits.ClosestLevelUnique | src/boot/phymemmgmt.cpp:176-193 | only one order is closest to a count |
| BuddyBits.WasteBound | src/boot/phymemmgmt.cpp:176-242 | a grant larger than the request wastes at most a quarter of itself |
| BuddyBits.ClosestTakenOff | src/boot/phymemmgmt.cpp:176-193 | the closest order is larger than a number only if the number has two neighbouring binary ones; else taking it off leaves neighbouring ones exactly if there were some |
| PhysicalRuns.RunsAreSafe | src/boot/phymemmgmt.cpp:140-305 | in every state of every run of grants, markings and releases of any pages, live grants are in use and pairwise disjoint, and clear bits mean free pages |
| PhysicalRuns.GrantsAreDisjoint | src/boot/phymemmgmt.cpp:140-248 | every grant of a run is of free pages that no live grant has |
| PhysicalRuns.ClearIffNeverUsed | src/boot/phymemmgmt.cpp:293-304 | above order 0 a bit clear at the start of a run is clear later exactly if no page of its buddy was taken or marked used meanwhile |
| PageWalk.CanonicalMeansSignExtended | src/boot/virtualmemmgmt.cpp:588-594 | canonical addresses are those whose bits 47 to 63 are equal |
| PageWalk.WindowLeadsToTable | src/boot/virtualmemmgmt.cpp:13-16 | the hardware walk of the address of each window lands on the frame of the table that serves the address at that level (Intel SDM Volume 3A, section 4.5) |
| PageWalk.LoadThroughWindow | src/boot/virtualmemmgmt.cpp:652-661 | a load through a window reads the entry in the table's frame |
| Paging.PageTables.Crawl | src/boot/virtualmemmgmt.cpp:605-663 | a crawl finds exactly the frames of the hardware walk, and none for an address that is not canonical |
| Paging.SplitAddress | src/boot/virtualmemmgmt.cpp:607-619 | the four indexes and the four windows of an address |
| PageTree.LevelFrameIsTable | src/boot/virtualmemmgmt.cpp:649-661 | the walk of an address goes through the tables on its path and no others |
| PageTree.TableAdded | src/boot/virtualmemmgmt.cpp:520-523 | a new empty table keeps one parent for each table and every mapping |
| PageTree.LeafChanged | src/boot/virtualmemmgmt.cpp:526-532 | writing a leaf entry changes the mapping of one page only |
| PageTree.TableRemoved | src/boot/virtualmemmgmt.cpp:577-580 | taking an empty table out keeps one parent for each table and every mapping |
| PageTree.SameMappingSameTables | src/boot/virtualmemmgmt.cpp:563-581 | with no empty table, the tables that exist are known from the pages that are mapped |
| PageTree.SamePathSamePage | src/boot/virtualmemmgmt.cpp:607-613 | canonical addresses with equal indexes lie in one page |
| Paging.PageTables.CreateTable | src/boot/virtualmemmgmt.cpp:505-523 | a missing table gets a free frame, which is then used; every mapping stays |
| Paging.PageTables.MapPages | src/boot/virtualmemmgmt.cpp:489-535 | each page of the range that was not mapped is mapped to its frame, and once the whole range is, a load of its leaf entry through the level-1 window reads a present entry with that frame, writable and cacheDisable as asked for and executeDisable if not asked to be executable; mapped pages and all others stay as they are, only new tables on the range's paths take frames; how far it gets, and the missing table without a frame where it panics |
| Paging.RangeLoads | src/boot/virtualmemmgmt.cpp:526-532 | the same of any state where a range was mapped: the frame and the three permissions, field by field, as loaded through the window |
| Paging.PageTables.UnmapPages | src/boot/virtualmemmgmt.cpp:543-584 | no page of the range stays mapped, others stay as they are, emptied tables and on request the pages are freed and nothing else, no table is left empty |
| Paging.PageTables.PruneTable | src/boot/virtualmemmgmt.cpp:564-580 | a table is taken out exactly if it is empty; its frame then is free, every mapping stays, and of the other tables none but the one above can be empty |
| PagingBudget.MissingMade | src/boot/virtualmemmgmt.cpp:504-525 | a mapped range has exactly the tables on its pages' paths, and took one frame for each that was missing |
| PagingBudget.PanicsIffShort | src/boot/virtualmemmgmt.cpp:499-534 | mapping panics exactly if more tables are missing on the paths of the pages up to the first that is not canonical than frames at or above 1 MiB are free, counted before the call |
| PagingTranslation.MappedByte | src/boot/virtualmemmgmt.cpp:489-535 | every byte of page i of a mapped range is found at the same offset of frame i, or where it was if it was mapped |
| PagingTranslation.UnmappedByte | src/boot/virtualmemmgmt.cpp:543-584 | no byte of an unmapped range is found anywhere |
| PagingTranslation.OtherByte | src/boot/virtualmemmgmt.cpp:489-584 | every other canonical address outside slot 510 is found where it was |
| PagingRoundTrip.RoundTrip | src/boot/virtualmemmgmt.cpp:489-584 | mapping a range that was not mapped and unmapping it restores every translation, every table with its frame, and the pages in use |
| PagingRoundTrip.MapAndUnmap | src/boot/virtualmemmgmt.cpp:489-584 | the two calls in turn do so, counter of free pages included |
| AddressLists.EncodingIsUnique | src/boot/virtualmemmgmt.cpp:429-450 | a contiguous, zero-free, alternating list is the only one for its availability |
| AddressLists.DefragmentedIsCanonical | src/boot/virtualmemmgmt.cpp:429-450 | defragmenting gives that list and keeps the availability of every page |
| AddressLists.SoundMeansLastAvailable | src/boot/virtualmemmgmt.cpp:452-481 | for such a list with the right counter the integrity check passes exactly if the last block is available |
| AddressLists.SoundIff | src/boot/virtualmemmgmt.cpp:452-481 | for any list whose blocks, but for the last, end below 2^64 bytes: exactly if it is contiguous, zero-free and alternating and the counter is that of its available pages, the last block counted as available |
| AddressLists.FreeCountIsClear | src/boot/virtualmemmgmt.cpp:452-468 | the pages of available blocks are the pages not in use |
| AddressSpaces.AddressSpace.Kernel | src/boot/virtualmemmgmt.cpp:222-231 | the kernel's first list is as it should be |
| AddressSpaces.AddressSpace.General | src/boot/virtualmemmgmt.cpp:232-267 | the general list of eight blocks is as it should be |
| AddressSpaces.AddressSpace.Defragment | src/boot/virtualmemmgmt.cpp:429-482 | the list after removing and merging blocks, and exactly when the check panics |
| AddressSpaces.AddressSpace.BestFit | src/boot/virtualmemmgmt.cpp:290-300 | the first of the smallest blocks that are large enough |
| AddressSpaces.AddressSpace.RequestPages | src/boot/virtualmemmgmt.cpp:283-320 | exactly the pages taken flip, the counter follows, the list stays the encoding of its availability, and exactly when the request is refused or panics |
| AddressSpaces.AddressSpace.Free | src/boot/virtualmemmgmt.cpp:365-426 | for all arguments, which block is found, what the list becomes, and exactly which of four ways the call ends |
| AddressReleases.FreeUsed | src/boot/virtualmemmgmt.cpp:387-414 | freeing used pages flips exactly them, keeps the list as it should be and passes the check |
| AddressReleases.FreedIffUsed | src/boot/virtualmemmgmt.cpp:374-427 | a release of a range below 2^64 bytes takes effect exactly if all its pages are in use |
| AddressReleases.MetIffFree | src/boot/virtualmemmgmt.cpp:374-386 | the first block that holds the range is an available one exactly if all its pages are available and they are not free up to 2^64 bytes |
| AddressReleases.FreeExactly | src/boot/virtualmemmgmt.cpp:365-427 | for the call, exactly when it fails, takes effect, panics or is ignored, in terms of pages in use, and what it leaves alone |
| AddressReleases.ReleaseRestores | src/boot/virtualmemmgmt.cpp:283-427 | releasing what was reserved restores the list block by block |
| AddressReleases.RequestAndFree | src/boot/virtualmemmgmt.cpp:283-427 | the two calls in turn do so, counter included |
| AddressReleases.FreeKeepsListIff | src/boot/virtualmemmgmt.cpp:367-414 | a release that takes effect keeps the list as it should be exactly if the range ends below 2^64 bytes |
| AddressReleases.FreeCanCorrupt | src/boot/virtualmemmgmt.cpp:367-414 | a release of available pages that end at 2^64 bytes passes the check and spoils the list |
| AllocationRuns.MapFresh | src/boot/virtualmemmgmt.cpp:322-347 | the turns of a whole call: each takes the one grant for what is left and maps it, to frames that are different and were all free, with only new tables on the range's paths besides; the entry of each page that was not mapped loads with its frame and the permissions asked for; it ends with all pages mapped or with a turn that cannot be taken; both theorems on neighbouring digits hold of it |
| AllocationRuns.ContiguousIff | src/boot/virtualmemmgmt.cpp:322-347 | with PhysicalContiguous a call panics exactly if no run of free frames at or above 1 MiB is long enough, or fewer frames are free there than the pages and the missing tables need, counted before the call; else all is mapped to the first fit |
| AllocationRuns.AdjacentIff | src/boot/virtualmemmgmt.cpp:322-347 | without it, while every turn finds a clear buddy of its closest order and frames for its tables, a call succeeds exactly if no two neighbouring binary digits of the number of pages are ones |
| AllocationRuns.OvershootMeansAdjacent | src/boot/virtualmemmgmt.cpp:322-347 | in any memory, a turn of a call is granted more than is left only if the number of pages asked for has two neighbouring ones |
| Allocation.OvershootIff | src/boot/virtualmemmgmt.cpp:324-346 | one turn: while there is a buddy of the closest order, and the number left is not refused, it cannot be taken exactly if that number lies between three quarters of the buddy and all of it, or frames for the missing tables are too few |
| Allocation.OvershootPanics | src/boot/virtualmemmgmt.cpp:324-346 | so such a number cannot be had in one turn while there is such a buddy, however much memory is free |
| Allocation.MapPiece | src/boot/virtualmemmgmt.cpp:324-346 | one turn takes the one grant for what is left and maps it, and panics exactly if none is granted, more is granted than is left, or tables are missing without frames |
| Allocation.FreshFramesApart | src/boot/virtualmemmgmt.cpp:322-347 | none of these frames is or becomes a table |
| Allocation.FreshLoads | src/boot/virtualmemmgmt.cpp:526-532 | a load through its window reads each page's frame with the permissions asked for |
| Allocation.FreshFramesFreed | src/boot/virtualmemmgmt.cpp:556-562 | freeing the range frees exactly these frames |
| Allocation.FreshRoundTrip | src/boot/virtualmemmgmt.cpp:322-422 | mapping to fresh frames and freeing restores translations, tables and the pages in use |
| VirtualMemory.RequestPages | src/boot/virtualmemmgmt.cpp:283-357 | no page that a list calls available is mapped, before and after; the pages reserved, and the fresh frames they are mapped to if asked for, each loading with its frame and the permissions asked for, which with PhysicalContiguous are consecutive and the first fit; when it panics for want of addresses or memory: exactly, from the state before, with PhysicalContiguous, and by its turns and the digits of the number without |
| VirtualMemory.FreePages | src/boot/virtualmemmgmt.cpp:365-427 | the same invariant; exactly when it takes effect; the pages freed and unmapped, and their frames if asked for |
| VirtualMemory.MapReserved | src/boot/virtualmemmgmt.cpp:489-535 | mapping reserved pages keeps the invariant, loads read the frames and permissions asked for, and it succeeds exactly if the missing tables are no more than the free frames at or above 1 MiB |
| VirtualMemory.AllocateAndFree | src/boot/virtualmemmgmt.cpp:283-427 | allocating and freeing restores the list, its counter, every translation, every table and the pages in use |
| Boot.Start | src/boot/virtualmemmgmt.cpp:120-267 | the two lists and the tables as they are set up satisfy the invariant |
| Boot.GeneralFreeIff | src/boot/virtualmemmgmt.cpp:232-267 | the pages that the first general list calls available, as four ranges of addresses |
| Boot.KernelFreeIff | src/boot/virtualmemmgmt.cpp:222-231 | the kernel's first list calls available exactly the pages from the given one to 2^64 bytes |
| Heap.Region.Check | src/boot/heapmemmgmt.cpp:164-181 | the sizes always add up, so the check passes exactly if no block is larger than the bytes free |
| Heap.Region.FindFree | src/boot/heapmemmgmt.cpp:63-73 | the first free block that is large enough, by walking the entries in memory |
| Heap.Region.Take | src/boot/heapmemmgmt.cpp:77-87 | the block is in use where the free one began, with at least `count` and fewer than `count` + 16 bytes; if the free one had `count` + 16, it has exactly `count`, and the next block is free and ends where the free one did; no other block changes, and the counter, which loses at most `count` + 8, is still the sum of free sizes |
| Heap.Region.Serve | src/boot/heapmemmgmt.cpp:62-91 | the payload's address, that of a block in use of fewer than 16 bytes more than asked for, joins the table, which lists each block in use once |
| Heap.Region.Release | src/boot/heapmemmgmt.cpp:116-139 | a block is freed exactly if the address is that of a block in use, and leaves the table |
| HeapBlocks.LiveBlocksDisjoint | src/boot/heapmemmgmt.cpp:63-73 | blocks do not overlap |
| HeapBlocks.PayloadsApart | src/boot/heapmemmgmt.cpp:88-88 | the bytes handed out lie in the region behind its header, 8-aligned, apart from those of all other blocks and from every entry |
| HeapBlocks.TotalIsEnd | src/boot/heapmemmgmt.cpp:166-172 | header, entries and payloads fill the region exactly |
| HeapBlocks.TakenTiles | src/boot/heapmemmgmt.cpp:77-87 | taking a block keeps the region filled with 8-aligned blocks of at least 8 bytes |
| HeapBlocks.TakenExactly | src/boot/heapmemmgmt.cpp:77-87 | how large the block taken is, what is left of the free one, that no other block changes, and what the counter loses |
| HeapBlocks.TakenFreeBytes | src/boot/heapmemmgmt.cpp:83-87 | what the counter loses is what the free blocks lose |
| HeapList.TakenPasses | src/boot/heapmemmgmt.cpp:264-289 | exactly when the integrity check passes after an allocation |
| HeapList.HalfIsTheLimit | src/boot/heapmemmgmt.cpp:264-289 | in a fresh region: exactly if two blocks of the size and an entry fit |
| HeapList.HeapRegions.Allocate | src/boot/heapmemmgmt.cpp:38-109 | the region and block that serve a request, that it has fewer than 16 bytes more than the aligned request and costs at most 8 more than it, what stays unchanged, and exactly when it returns null, faults, panics or succeeds |
| HeapList.HeapRegions.Free | src/boot/heapmemmgmt.cpp:111-162 | the one block freed, or a panic exactly if no region has the address in use; the check never fails |
| HeapList.HeapRegions.Create | src/boot/heapmemmgmt.cpp:189-246 | a region of one free block joins the list |
| HeapList.AllocateThenFree | src/boot/heapmemmgmt.cpp:77-136 | afterwards the same addresses are in use, and the free bytes are as before less the entry of a split |
| MemoryMap.FirmwareMap.Sort | src/boot/stage2/loader32.cpp:118-135 | sorted by base, with the same entries |
| MemoryMap.FirmwareMap.Process | src/boot/stage2/loader32.cpp:137-176 | the sorted map of trimmed entries and entries for gaps |
| MemoryMap.OutcomeComesFrom | src/boot/stage2/loader32.cpp:152-173 | every entry of the outcome has the kind and the attributes of one entry of the map, or is a hole, with attributes 1, up to where an entry begins and from no earlier than the one before it ends |
| MemoryMap.RightIffHandled | src/boot/stage2/loader32.cpp:152-173 | the outcome is free of gaps, overlaps and empty entries, and no entry has grown, exactly if every pair of neighbours is handled |
| MemoryMap.SumIsSpan | src/boot/phymemmgmt.cpp:46-49 | the lengths then add up to the last end less the first base |
| MemoryMap.OnlyUsableIffSpared | src/boot/stage2/loader32.cpp:152-173 | for any sorted map, no address becomes usable that lay in another kind of entry exactly if every usable entry that is not emptied begins after the ends of the earlier entries of another kind, and of all of them if its length wraps around |
| MemoryMap.OnlyUsableIffCleared | src/boot/stage2/loader32.cpp:152-173 | for a map that is handled: exactly if every such entry ends before each later usable one, or not after the other kind of entry right before that one |
| MemoryMap.UsableWasUsable | src/boot/stage2/loader32.cpp:152-173 | every address that the outcome of a handled map calls usable lay in a usable entry |
| MemoryMap.LastUsableGrows | src/boot/stage2/loader32.cpp:161-162 | a last usable entry whose base is moved up ends later than it did |
| MemoryMap.NestedStaysUsable | src/boot/stage2/loader32.cpp:155-158 | an instance: two nested reserved entries and a usable one that stays usable under the first |
| CommandSlots.RunsKeepEvents | src/drivers/storage/ahci/device.cpp:79-131 | over all runs a slot is running exactly if a command waits in it, and every event is in the table, the queue or among those taken from it as often as it was brought in, whether its coroutine could still run or not |
| CommandSlots.EachInOnePlace | src/drivers/storage/ahci/device.cpp:345-372 | an event brought in once is in exactly one place, and, unless a coroutine queued it, has one result exactly once it has left the table |
| CommandSlots.NoSharedSlots | src/drivers/storage/ahci/device.cpp:295-304 | no two slots hold the same command |
| CommandSlots.WaitsUntilFinished | src/drivers/storage/ahci/device.cpp:345-351 | from its issue on, in every run, a command's slot is issued and running and holds its event until the port finishes that slot |
| CommandSlots.NoResultUntilFinished | src/drivers/storage/ahci/device.cpp:79-131 | until then an event brought in once has no result and is not queued |
| CommandSlots.CollectedOnceFinished | src/drivers/storage/ahci/device.cpp:79-131 | the first interrupt with a task file error or a register FIS after that frees the slot, sets the result, false with the error and else true, and queues the event |
| CommandSlots.LowerSlotFirst | src/drivers/storage/ahci/device.cpp:91-121 | of two finished commands an interrupt queues the event of the lower slot first |
| CommandSlots.FirstInFirstOut | src/boot/scheduler.cpp:23-42 | in every run the events are taken from the queue in the order in which results were set and coroutines queued them, and resumed or dropped as their coroutines can run or not |
| CommandSlots.ResumedInOrder | src/boot/scheduler.cpp:23-37 | so if every coroutine can run, none is dropped, and those resumed followed by those still queued are all that were queued, in order |
| CommandSlots.CollectedTwice | src/drivers/storage/ahci/device.cpp:86-130 | collecting completed commands a second time in one interrupt changes nothing |
| Ahci.Device.FindFreeCommandSlot | src/drivers/storage/ahci/device.cpp:295-304 | the lowest slot neither issued, active nor running, and none only if there is none |
| Ahci.Device.AwaitSuspend | src/drivers/storage/ahci/device.cpp:345-351 | the step that issues a command: its slot joins the command issue register and the running slots, nothing else does, and the command waits there for its event |
| Ahci.Device.MsiHandler | src/drivers/storage/ahci/device.cpp:79-131 | the step of an interrupt: every completed command gets its one result, false if there was a task file error, and its event is queued; no result is set twice |
| Ahci.Command.SetResult | src/drivers/storage/ahci/device.cpp:362-372 | panics exactly if the result is set already, else sets it and queues the event |
| Ahci.Scheduler.TimerLoop | src/boot/scheduler.cpp:23-37 | takes events in order, at most 100, those queued meanwhile included, and stops early only when none is left, whatever each resumption finds and queues |
| Ahci.TimerLoopIsSteps | src/boot/scheduler.cpp:23-37 | the turns of a call of the timer loop are steps of the runs, in order |
| Ahci.RunTimer | src/boot/scheduler.cpp:23-37 | so a call on a device's scheduler leads to the state after these steps |
| CommandSlots.RunGoesOn | src/boot/scheduler.cpp:23-37 | steps that can be taken in the last state of a run go on with it |
| Unicode.PointRoundTrip | src/boot/unicode.cpp:126-151 | every code point is read back from its bytes (RFC 3629, section 3) |
| Unicode.TableOfLayouts | src/boot/unicode.cpp:25-151 | reading and writing against the table of RFC 3629, section 3: reading accepts exactly the four layouts of bits, for the code point in them, and writing gives the one layout of the code point's row |
| Unicode.AsciiStays | src/boot/unicode.cpp:110-131 | a string of units below 0x80 becomes the bytes of the same numbers |
| Unicode.ChunkRoundTripIff | src/boot/unicode.cpp:25-55 | an accepted chunk is written back as it was exactly if it is the shortest form of a code point |
| Unicode.IsValidUtf8 | src/boot/unicode.cpp:57-91 | accepts exactly the strings made of chunks that have code points |
| Unicode.SplitIsUnique | src/boot/unicode.cpp:57-91 | there is only one way to split such a string |
| Unicode.ToUtf8String | src/boot/unicode.cpp:153-173 | the bytes of the code points it reads, and exactly when it panics; units below 0x80 come out as the same numbers |
| Unicode.WellFormedPoints | src/boot/unicode.cpp:153-173 | on well-formed UTF-16 (RFC 2781, section 2.2) it panics exactly if there is a unit 0xd800, and else reads the string's code points |
| Unicode.TranscodedRight | src/boot/unicode.cpp:153-173 | the bytes then are valid and hold these code points chunk by chunk |
| Paths.IsValidAbsolutePath | src/drivers/filesystems.cpp:263-288 | accepts exactly UTF-8 that begins with a slash, has no double slash and no forbidden character after it |
| Paths.AbsoluteIffProper | src/drivers/filesystems.cpp:263-288 | a path put together from parts is accepted exactly if every part is UTF-8 without a control character, slash, backslash or bar |
| Paths.SplitAbsolutePath | src/drivers/filesystems.cpp:223-237 | the parts put together again are the path, and none is empty or has a slash |
| Paths.SplitOnce | src/drivers/filesystems.cpp:223-237 | there is only one way to split a path |
| Paths.SplitParentDirectory | src/drivers/filesystems.cpp:206-221 | the path's parts are the parent's parts and the name, and the parent is a valid path ending in a slash |
| FileTree.FileSystem.GetInfo | src/drivers/filesystems.cpp:119-171 | the node that the path's parts lead to, or the first thing that goes wrong, for every way the device's reads can go; what ".", ".." and names lead to is in the rows of FileWalks |
| FileWalks.DotStays | src/drivers/filesystems.cpp:132-146 | a further "." leads to the same directory, or to what is mounted there |
| FileWalks.UpLeadsBackIff | src/drivers/filesystems.cpp:146-161 | a name and then ".." lead back exactly if nothing is mounted on the child, or the very directory it is in; children have their directory as parent, and roots of file systems themselves |
| FileWalks.DotLeftOut | src/drivers/filesystems.cpp:128-166 | a path leads to the same without a "." at a directory with nothing mounted on it |
| FileWalks.PairLeftOut | src/drivers/filesystems.cpp:128-166 | and without a name and ".." |
| FileWalks.NormalLeavesOut | src/drivers/filesystems.cpp:128-166 | what is left of a path without "." and ".." is the same with or without any such "." or pair |
| FileWalks.NormalHasNames | src/drivers/filesystems.cpp:128-166 | it has only names, and all of them if the path had no others |
| FileWalks.NormalLeadsThere | src/drivers/filesystems.cpp:128-166 | it leads to the same place as the path, if no ".." is taken where something is mounted |
| FileWalks.NormalLeadsToSame | src/drivers/filesystems.cpp:128-166 | it leads to the same node, if nothing is mounted anywhere |
| FileWalks.IsChild | src/drivers/filesystems.cpp:149-161 | a name leads to the first child of that name, and fails only if there is none |
| FileTree.FileSystem.ReadDirectory | src/drivers/filesystems.cpp:173-204 | the directory of a path that ends in a slash, or what goes wrong |
| FileTree.FileSystem.OpenFile | src/drivers/filesystems.cpp:53-98 | the file found through the parent directory, and its one new descriptor |
| FileTree.LastFileIsOpened | src/drivers/filesystems.cpp:69-88 | the last child of the name is opened exactly if there is one and all of that name are files; the errors are that one is not, and that there is none |
| FileTree.OpenAgreesWithWalkIff | src/drivers/filesystems.cpp:53-171 | opening finds the file that getInfo finds, or fails alike, exactly if nothing is mounted on the parent or the mount makes no difference to the name; with unique names and an ordinary last part |
| FileTree.MountedParentMissesFile | src/drivers/filesystems.cpp:63-88 | a file of the mounted directory, whose name the directory itself has not, is missed |
| FileTree.FileSystem.CloseFile | src/drivers/filesystems.cpp:100-117 | removes the descriptor exactly if it is there |
| FileTree.FileSystem.OpenAndClose | src/drivers/filesystems.cpp:53-117 | closing after opening restores all descriptors |

## Left out

- The bitmaps' layout follows `src/boot/virtualmemmgmt.cpp:143-149`, because `src/boot/phymemmgmt.cpp:92` reads before the first size; memory is a multiple of 4096 pages, since else the last bitmap bytes have bits of no page.
- Boot.Start: starts the page-table editor from a top-level table with only its own entry; marking the kernel used, the identity mapping and its removal are not modelled.
- Frame numbers are unbounded: the truncation of a frame to 40 bits in a table entry, and counters of pages near 2^64, are not modelled.
- The permissions in an entry are those asked for (`Paging.RangeLoads`), but have no effect on a translation, and the arrays for them in a crawl's result are not computed; TLB contents are not modelled.
- AllocationRuns.MapFresh: without PhysicalContiguous, and where some turn finds no clear buddy of its closest order or too few frames, whether the call panics is told by its turns, not by the state before it. A grant of more pages than are left is a panic at once: the source first maps them, past the range, and panics when the number left has wrapped around.
- VirtualMemory.FreePages: asks for canonical pages outside slot 510 below 2^64 bytes, as the comment at `src/boot/virtualmemmgmt.cpp:361` does, and for frames that hold no table.
- AddressSpaces.AddressSpace.Free: the unmapping that follows a release is in VirtualMemory.FreePages. The block is found and changed by its index; the source goes on using a reference to it after inserting into the vector (`src/boot/virtualmemmgmt.cpp:375-407`), which is valid only while the vector has room.
- AddressReleases.RequestAndFree: restores the list only if the address handed out is canonical, which the general list's first blocks see to.
- MemoryMap.FirmwareMap.Process: takes entries with different bases, with at least one byte, below 2^52 bytes, and room for the entries it adds.
- Ahci.Device.AwaitSuspend: writing the command issue register sets the bits written and clears none (AHCI 1.3.1, section 3.3.14); finding a slot and issuing the command are one step, as the FIXME in the code intends; bitmaps of slots are sets, and the table of commands starts empty, which the constructor does not see to.
- Ahci.Scheduler.TimerLoop: what a resumed coroutine does, other than queue events, is not modelled; coroutine frames neither.
- FileTree.FileSystem.GetInfo: which reads of a directory from its device fail is given for each call, and the children that a read finds are given; the disk is not part of this model.
- Creating files, reading file contents, the fields of command tables, and the lifetime of storage buffers are not modelled.
- HeapList.HeapRegions.Create: the region's memory is given; the requests for pages, their mapping and the false results at `src/boot/heapmemmgmt.cpp:190-223` are left out.
- Heap.Region.Serve: what clients write into payloads is not modelled beyond being outside the entries; the release of pages for new regions is in VirtualMemory.
- `Unicode::toCodePoint` of a two-unit string is left out beside its overload of two units.
- Terminal output, port input and output, interrupt controllers, timers, ACPI and PCIe probing, ELF loading and random numbers are not modelled.
