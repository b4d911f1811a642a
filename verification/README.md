# µxoµcota: verified models

A Dafny model of eight parts of the µxoµcota operating system, and proofs about them:

| file | part | source |
|---|---|---|
| `TreeShape.dfy`, `Tree.dfy` | the AVL tree with parent pointers | `src/lib/common/cdi/tyndur-tree.c` |
| `Cache.dfy` | the block cache on top of the tree | `src/lib/common/cdi/cache.c` |
| `Heap.dfy` | `malloc`, `free`, `realloc` | `src/lib/common/stdlib/` |
| `Scheduler.dfy` | the scheduler | `src/kernel/common/tasking/scheduler.c` |
| `RwLock.dfy` | the readers-writers lock | `src/lib/common/system/rwl_lock.c`, `lock.c` |
| `Pmm.dfy` | the physical frame allocator | `src/kernel/common/memory/pmm.c` |
| `Shm.dfy` | shared memory segments | `src/kernel/common/memory/vmem.c` |
| `Digest.dfy` | the CRC-32 integrity digest | `src/kernel/common/lib/digest.c` |
| `Storage.dfy` | byte streams over block devices | `src/lib/common/cdi/storage.c` |

Objects that the C code updates in place are classes with the same fields, and the methods follow the C
functions branch by branch. Ghost fields hold what the pointers mean: the shape of the tree, the tiles of the heap,
the order of the list of recently used blocks, the segments that exist. The properties are stated about these.

The lock and the concurrent frame allocator are state machines: one step is one access to a shared word, and
the theorems are about every run of any number of threads.

`TreeShape.dfy` describes trees as values: a `Shape`, and a path of `Frame`s that leads to a hole in one. `Tree.dfy`
says how a shape lies in memory. A path splits the tree where the code is at work, so that every step reasons about
one node and its neighbours.

## Results that hold only under a condition

Some of what one would expect of the code holds only under a condition, which is then stated exactly:

- `TyndurTree.Tree.Insert`: an object that is in the tree already loses everything that hangs below it. The balances are exact afterwards if and only if it was the root or had nothing below it.
- `BlockCache.Cache.Get`: if reading fails, the cache stays consistent if and only if the block that had to make room was neither at an end of the list nor one of the hints; a block made for the number never leaves the tree (`BlockCache.FirstReadFails`). Otherwise it stays consistent unless the count of references wraps around to 0 while the data differ from the medium.
- `BlockCache.Cache.Release`: the cache stays consistent if and only if the block is still held, is dirty or equals the medium (`BlockCache.ForgottenChange`).
- `UserHeap.Heap.Malloc`: a block at the end of the heap keeps the heap sound if and only if the end does not wrap around (`Grows`; `UserHeap.HeapLost`). `UserHeap.RoundedIsEnough`: the rounded size is large enough if and only if the size is at most 0xFFFFFFF0. Together: `UserHeap.Heap.Allocate`, `UserHeap.Heap.Realloc`.
- `RwLock.StuckByUpgradesOnly`: the lock gets stuck if and only if two or more readers ask to write and everybody else is out or waits to write (`RwLock.UpgradesDoCollide`).
- `FrameAllocator.Pmm.Free`: a frame becomes free if and only if the last user goes and the frame is not marked copy-on-write (`FrameAllocator.CowFrameIsLost`); one that is lost stays so (`LossesStay`).
- `FrameAllocator.Pmm.AllocAdvanced`: the search leaves the bitmap if and only if it comes, before any suitable frame, to one from which all frames up to the last are free, but too few (`FrameAllocator.BitmapLeft`). `FrameAllocator.Pmm.LimitKept`: the windows that are searched keep below the address limit if and only if the last one does (`FrameAllocator.LimitBroken`). `FrameAllocator.Pmm.FramesAreEnough`: the number of frames is enough if and only if rounding up does not wrap.
- `SharedMemory.Memory.Open`: a mapping that fails is noticed if and only if the segment has no offset (`SharedMemory.FailureUnnoticed`). Its frames cover a segment if and only if rounding its size up does not wrap (`SharedMemory.PagesAreEnough`, `SharedMemory.NothingBehind`).
- `SharedMemory.Memory.Make`: the size of a segment fits its frames if and only if the areas are smaller than the address space.
- `RwLock.CallsEnd`: a call ends without the others if and only if the thread may be inside together with them.
- `SharedMemory.Memory.Release`: the counts stay balanced if and only if the segment has a user, which nothing checks for one that is kept alive.
- `Storage.File.SetPosition`: a position is inside a partition if and only if the value is, or the device is no larger than the partition; `Storage.File.Send` from outside writes beyond the partition (`Storage.PartitionLeft`).
- `Storage.ExactWhenFilled`: `send` changes exactly the bytes it is given if and only if they do not begin a block without filling it.

Where comments and code disagree, the model follows the code: `find_replaceable` (`cache.c:290-310`) says that it
takes the block out of the list of recently used blocks, and leaves it there.

## Model

| member | source | states |
|---|---|---|
| TreeShape.AvlIsShallow | src/lib/common/cdi/tyndur-tree.c:249-316 | a tree of height h with balances in -1..1 has at least Fib(h + 2) - 1 nodes |
| TreeShape.LeftTurnMends | src/lib/common/cdi/tyndur-tree.c:261-286 | a right-heavy node whose subtrees are balanced is balanced again after the rotation the code chooses, single or double; the order is kept, and the height is within one of what the path above was balanced for |
| TreeShape.RightTurnMends | src/lib/common/cdi/tyndur-tree.c:289-311 | the same for a left-heavy node |
| TyndurTree.AdjustBalance | src/lib/common/cdi/tyndur-tree.c:155-183 | after the height of the subtree below a path has changed by one, all balances on the path are exact again, although they may be outside -1..1 |
| TyndurTree.Tree.RotateLeft | src/lib/common/cdi/tyndur-tree.c:189-203 | the rotated subtree hangs in place of the old one, with all links in both directions |
| TyndurTree.Tree.RotateRight | src/lib/common/cdi/tyndur-tree.c:209-223 | the mirror image |
| TyndurTree.Tree.Rebalance | src/lib/common/cdi/tyndur-tree.c:249-316 | walking to the root ends although rotations push the node down, and leaves a tree with exact balances in -1..1 that holds the same objects in the same order |
| TyndurTree.Tree.DoSearch | src/lib/common/cdi/tyndur-tree.c:109-129 | finds the node with the key, or the leaf under which it belongs and on which side, in at most as many rounds as the tree is high; needs right links and ascending keys only, no balance |
| TyndurTree.Tree.Search | src/lib/common/cdi/tyndur-tree.c:137-146 | a hit is the object with the key, a miss means there is none, and Fib(rounds + 2) does not exceed the number of objects plus one |
| TyndurTree.Tree.Insert | src/lib/common/cdi/tyndur-tree.c:324-357 | a new object is added at its place in the order of keys, and nothing happens exactly if the key is there already; links, order and exact balances hold afterwards. An object that is in the tree stays at its place and loses all objects below it; balances are exact then if and only if it was the root or a leaf |
| TyndurTree.Tree.Clear | src/lib/common/cdi/tyndur-tree.c:330-332 | clearing the links of an object in the tree cuts off exactly what hangs below it, keeps all other links and the order, and keeps the balances exact if and only if the object is the root or a leaf |
| TyndurTree.Tree.Remove | src/lib/common/cdi/tyndur-tree.c:365-459 | exactly the given object leaves the sequence of objects, in all shapes including both kinds of substitution; links, order and exact balances hold afterwards |
| TyndurTree.Tree.ReplaceDirect | src/lib/common/cdi/tyndur-tree.c:417-444 | the predecessor that is the direct left child takes over, with exact balances up to the root |
| TyndurTree.Tree.ReplaceAndLower | src/lib/common/cdi/tyndur-tree.c:417-455 | the predecessor further down takes over, and its old parent is lowered, with exact balances up to the root |
| TyndurTree.Tree.Next | src/lib/common/cdi/tyndur-tree.c:517-547 | the object with the next greater key, from NULL the smallest, after the greatest NULL |
| TyndurTree.Tree.Prev | src/lib/common/cdi/tyndur-tree.c:470-506 | the object with the next smaller key, from NULL the greatest, after the smallest NULL |
| TyndurTree.Tree.Ascend | src/lib/common/cdi/tyndur-tree.c:517-547 | iterating tree_next from NULL visits every object exactly once in ascending order and ends |
| TyndurTree.Tree.Descend | src/lib/common/cdi/tyndur-tree.c:470-506 | iterating tree_prev from NULL visits every object exactly once in descending order and ends |
| BlockCache.Cache.constructor | src/lib/common/cdi/cache.c:131-173 | an empty cache is consistent and shows the medium as it is |
| BlockCache.Cache.GetHint | src/lib/common/cdi/cache.c:319-330 | a hint that is found is a cached block with this number, and NULL means that none of the hints has it |
| BlockCache.Cache.PutHint | src/lib/common/cdi/cache.c:338-343 | the block takes the place of the oldest hint, the other seven stay, and all are blocks of the cache |
| BlockCache.Cache.Lookup | src/lib/common/cdi/cache.c:394-399 | hints and tree together find a block if and only if it is cached |
| BlockCache.Cache.WriteBack | src/lib/common/cdi/cache.c:227-242 | the medium changes at one block, and the read-ahead buffer still agrees with it |
| BlockCache.Cache.SyncBlock | src/lib/common/cdi/cache.c:221-246 | a dirty block reaches the medium, no other block of the medium changes, and the image stays |
| BlockCache.Cache.Sync | src/lib/common/cdi/cache.c:256-266 | afterwards no block is dirty, and the medium holds exactly what was dirty, and otherwise what it held |
| BlockCache.Cache.FindReplaceable | src/lib/common/cdi/cache.c:296-310 | the least recently obtained block that nobody holds, clean, or NULL if all are held |
| BlockCache.Cache.LoadBlock | src/lib/common/cdi/cache.c:348-374 | the block gets what the medium holds, from the read-ahead buffer without asking the medium if it is there; the buffer agrees with the medium on its range; after a failed read the buffer is empty and the block as it was |
| BlockCache.Cache.Rekey | src/lib/common/cdi/cache.c:419-421 | a clean block that nobody holds can change its number without changing the image or any other block |
| BlockCache.Cache.Touch | src/lib/common/cdi/cache.c:454-477 | the block becomes the last of the doubly linked list, the others keep their order |
| BlockCache.Cache.Discard | src/lib/common/cdi/cache.c:426-447 | after a failed read the tree is rid of a block that was to be replaced, but not of one that was made for the number; no other block changes; the cache is consistent if and only if the block was neither first nor last in the list nor a hint |
| BlockCache.Cache.Get | src/lib/common/cdi/cache.c:390-480 | delivers block n with the data of the image, or NULL, and makes it the newest hint; the image changes at most at n, and only for a block that was not cached with noread; no other block changes its number, data or references; no change that is marked gets lost: a block that is not dirty any more has reached the medium, which changes nowhere else, and for a cached block neither flags nor medium change; a new block is made only below 256, the block that is replaced is the least recently obtained one that nobody holds, and NULL means that all 256 are held or that reading failed; when exactly the cache is consistent afterwards, also if reading fails or the 16-bit count of references wraps |
| BlockCache.Cache.Write | src/include/common/cdi/cache.h:24-33 | data is the client's to overwrite: doing so with a block it holds changes the image at this number and nowhere else |
| BlockCache.Cache.MarkDirty | src/lib/common/cdi/cache.c:502-507 | one block more is dirty, and the cache stays consistent |
| BlockCache.Cache.Release | src/lib/common/cdi/cache.c:488-494 | one reference less, from 0 to 65535; the cache stays consistent if and only if the block is still held, is dirty or equals the medium |
| BlockCache.Cache.Flush | src/lib/common/cdi/cache.c:256-266 | afterwards the medium shows the image wherever nobody holds a block that was not marked dirty |
| BlockCache.Cache.Store | src/lib/common/cdi/cache.c:488-507 | a client that overwrites a block it holds, marks it and releases it changes the image there and leaves a consistent cache |
| BlockCache.Cache.Look | src/lib/common/cdi/cache.c:390-494 | obtaining a cached block and releasing it changes no handle, no flag, neither image nor medium, and keeps the cache consistent |
| BlockCache.Cache.WriteOnce | src/lib/common/cdi/cache.c:390-507 | while nobody holds a block, a block can always be overwritten |
| BlockCache.Cache.Perform | src/lib/common/cdi/cache.c:256-507 | the cache refines a memory of blocks: over any sequence of reads, writes and syncs the answers are those of the memory, up to the first block that cannot be read, and after a sync the medium is the memory |
| BlockCache.RememberedChange | src/lib/common/cdi/cache.c:488-507 | a change that is marked reaches the medium although the block is obtained and released again before the sync |
| BlockCache.ForgottenChange | src/lib/common/cdi/cache.c:488-494 | a client that changes a block it has read and releases it without marking it dirty leaves an inconsistent cache |
| BlockCache.FirstReadFails | src/lib/common/cdi/cache.c:426-447 | the first block that is asked for: if reading it fails, the tree still holds it and the cache is inconsistent |
| HeapTiles.Canonical | src/lib/common/stdlib/free.c:40-60 | the blocks in use determine the whole layout of the heap: two layouts without adjacent free blocks that agree on them are equal |
| HeapTiles.JoinSettles | src/lib/common/stdlib/free.c:47-59 | after coalescing no two neighbours are free |
| HeapTiles.JoinTiles | src/lib/common/stdlib/free.c:47-59 | coalescing keeps the heap tiled without gaps or overlaps |
| HeapTiles.JoinKeepsLive | src/lib/common/stdlib/free.c:47-59 | coalescing does not touch blocks in use |
| HeapTiles.PayloadsApart | src/lib/common/stdlib/malloc.c:39-91 | two different blocks in use have no byte in common |
| UserHeap.RoundedIsEnough | src/lib/common/stdlib/malloc.c:41-45 | the size is rounded up to the next multiple of 16 if and only if it is at most 0xFFFFFFF0, and becomes 0 beyond |
| UserHeap.RoundedWraps | src/lib/common/stdlib/malloc.c:44-45 | the largest size that can be rounded up, and the next one, which becomes 0 |
| UserHeap.LargestSize | src/lib/common/stdlib/malloc.c:86-88 | for the largest size that can be rounded up the kernel is asked for no memory at all |
| UserHeap.GrowsExactly | src/lib/common/stdlib/malloc.c:86-88 | the end of the heap moves by header and size if and only if the addresses do not wrap |
| UserHeap.RoundTrip | src/lib/common/stdlib/free.c:63-91 | freeing what was just taken from the free list restores the layout exactly |
| UserHeap.Heap.TakeFirstFit | src/lib/common/stdlib/malloc.c:49-82 | takes the first free block that is large enough, as a whole if less than 32 bytes would remain, and otherwise splits it; if there is none, nothing changes |
| UserHeap.Heap.Malloc | src/lib/common/stdlib/malloc.c:39-91 | first fit, or a new block at the end; the bytes of all blocks in use stay; the heap is sound afterwards if and only if the end does not wrap |
| UserHeap.HeapLost | src/lib/common/stdlib/malloc.c:86-91 | an empty heap that is asked for 0xFFFFFFF0 bytes, and gets them, is not sound any more |
| UserHeap.Heap.Allocate | src/lib/common/stdlib/malloc.c:39-91 | exactly one block more is in use; it is large enough, with less than 48 bytes to spare, and the heap is sound if and only if the size can be rounded up and a block is free or the heap can grow |
| UserHeap.Heap.JoinMemory | src/lib/common/stdlib/free.c:40-60 | the layout is coalesced, the bytes of blocks in use stay, and the trap for overlaps is never reached |
| UserHeap.Heap.Free | src/lib/common/stdlib/free.c:63-91 | the block is put back in address order and merged with its neighbours; the heap is sound, other blocks keep their bytes, and no trap is reached |
| UserHeap.Heap.Realloc | src/lib/common/stdlib/realloc.c:32-56 | NULL allocates, size 0 frees, a large enough block stays, and otherwise the old contents are a prefix of the new block and the old block is free; all other blocks keep their bytes; all this if and only if no new block is needed or malloc can serve the size |
| UserHeap.Heap.UniformAgain | src/lib/common/stdlib/free.c:63-91 | with nothing in use the heap is one free block again |
| UserHeap.Heap.AlignedBlocks | src/lib/common/stdlib/malloc.c:39-91 | every block in use is aligned to 16 bytes and lies inside the heap |
| FairChoice.Waits | src/kernel/common/tasking/scheduler.c:73-112 | while a process waits, every call not decided by an interrupt uses up some of its patience: 41 minus its age, plus the number of processes ahead of it |
| FairChoice.BoundedWait | src/kernel/common/tasking/scheduler.c:53-112 | among n active processes the current one is chosen again within n + 40 calls, plus one per call that is decided by an interrupt, whatever processes are named; ticks may wrap |
| FairChoice.InterruptsAreUsedUp | src/kernel/common/tasking/scheduler.c:107-111 | no more calls are decided by interrupts than are fresh in the beginning or raised in between |
| FairChoice.BoundedWaitWithInterrupts | src/kernel/common/tasking/scheduler.c:53-112 | chosen again within n + 40 calls plus one per interrupt that is fresh or raised |
| FairChoice.Choice | src/kernel/common/tasking/scheduler.c:67-111 | a call chooses the last active process with a fresh interrupt, which has none afterwards; otherwise the last one that is named, if nobody is 42 calls old; otherwise the first of the oldest |
| FairChoice.NobodyRuns | src/kernel/common/tasking/scheduler.c:92-99 | if no process is active, none is chosen |
| FairChoice.BoundIsTight | src/kernel/common/tasking/scheduler.c:53-112 | for every n from 2 on there are n + 39 calls in which a process is not chosen |
| FairChoice.SomebodyRuns | src/kernel/common/tasking/scheduler.c:73-105 | while some process is active, a call chooses an active process |
| FairChoice.NobodyOvertakes | src/kernel/common/tasking/scheduler.c:84-88 | nobody gets ahead of a waiting process |
| FairChoice.OldestFirst | src/kernel/common/tasking/scheduler.c:102-105 | from age 42 on a call that is not decided by an interrupt chooses the process or one ahead of it |
| Scheduling.Scheduler.Survey | src/kernel/common/tasking/scheduler.c:67-89 | the loop finds the first eldest active process with its age, the last active one with the wanted number, and the last one with a fresh interrupt |
| Scheduling.Scheduler.Schedule | src/kernel/common/tasking/scheduler.c:32-114 | a call on the linked run queue does what the step of the theorems does; what it returns is the idle process or an active one of the queue; if an active process had a fresh interrupt to handle, such a one is chosen and its flag is cleared, and no other flag changes; with the lock taken nothing changes |
| RwLock.StepKeeps | src/lib/common/system/rwl_lock.c:25-77 | every atomic step of every thread keeps the invariant: who owns lock_lock, that the count is the number of readers, that write_lock is taken exactly while somebody is inside and names only a thread that is |
| RwLock.Exclusion | src/lib/common/system/rwl_lock.c:25-77 | in every reachable state a writer, direct or upgraded, excludes all readers and other writers |
| RwLock.NeverLocksItselfOut | src/lib/common/system/lock.c:28-37 | the assertion against taking one's own lock never fails |
| RwLock.NothingLeaks | src/lib/common/system/rwl_lock.c:36-77 | when all threads are out, all three words are zero again |
| RwLock.StuckByUpgradesOnly | src/lib/common/system/rwl_lock.c:61-77 | a reachable state in which nobody can go on is exactly one in which at least two readers upgrade and all others are out or wait to write |
| RwLock.OneUpgradeIsSafe | src/lib/common/system/rwl_lock.c:61-77 | with at most one thread in rwl_require_w the lock is not stuck |
| RwLock.WaitsIsRetrying | src/lib/common/system/rwl_lock.c:25-77 | a thread waits, in the sense of the results on getting stuck, if and only if whatever it does on its own is the same attempt again |
| RwLock.GetsThere | src/lib/common/system/rwl_lock.c:25-77 | a thread in a call, while all others are outside, or are readers inside and it does not ask to write, ends the call within six of its own steps |
| RwLock.CallsEnd | src/lib/common/system/rwl_lock.c:25-77 | while no other thread is in a call, a call can end without them if and only if the thread may be inside together with them |
| RwLock.UpgradesDoCollide | src/lib/common/system/rwl_lock.c:61-77 | a run in which two upgrades get stuck |
| RwLock.Machine.Next | src/lib/common/system/rwl_lock.c:25-77 | whatever the threads do, no state of the machine ever has a writer beside another writer or a reader, the invariant holds, and the assignments are the steps of the theorems |
| FrameAllocator.Pmm.Alloc | src/kernel/common/memory/pmm.c:168-196 | the lowest free frame gets one user; panics exactly if none is free; all frames below look_from_here stay in use |
| FrameAllocator.Pmm.Free | src/kernel/common/memory/pmm.c:199-209 | one user less, the flag stays; panics exactly without users; the frame is free afterwards exactly if this was the last user and the flag was not set |
| FrameAllocator.Pmm.Use | src/kernel/common/memory/pmm.c:212-223 | one user more, the flag stays; panics exactly at 0 and 127 users |
| FrameAllocator.Pmm.MarkCow | src/kernel/common/memory/pmm.c:240-254 | sets the flag and leaves the users as they are |
| FrameAllocator.CowFrameIsLost | src/kernel/common/memory/pmm.c:206-208 | a count that goes down leaves only the flag if and only if the last user goes from a frame marked copy-on-write, and leaves the frame free if and only if the last user goes from one that is not |
| FrameAllocator.Pmm.AllocAdvanced | src/kernel/common/memory/pmm.c:269-332 | the first aligned run of free frames in the searched range is taken as a whole, or nothing changes; what is found ends, but for the base of the memory, a page below the limit, and what ends there and suits is found; the exact condition under which the search leaves the bitmap |
| FrameAllocator.Pmm.LimitKept | src/kernel/common/memory/pmm.c:274-288 | all windows that are searched keep below the address limit if and only if the last one does, since the base of the memory is left out of the comparison |
| FrameAllocator.Pmm.Searched | src/kernel/common/memory/pmm.c:274-288 | a frame is tried if and only if it exists and the frames from there on and one more end at the limit or below, counted from address 0 |
| FrameAllocator.Pmm.FramesAreEnough | src/kernel/common/memory/pmm.c:274 | the number of frames covers the length if and only if rounding up does not wrap, and is 0 otherwise |
| FrameAllocator.LimitBroken | src/kernel/common/memory/pmm.c:274-288 | a memory that begins at two pages, where a page is handed out that ends beyond the limit |
| FrameAllocator.BitmapLeft | src/kernel/common/memory/pmm.c:294-302 | two pages without a limit when only the last frame is free: the search reads past the end of the bitmap |
| FrameRace.StepKeeps | src/kernel/common/memory/pmm.c:168-332 | every entry is its initial value plus the increments that are not taken back, and at most one processor has found an entry at zero |
| FrameRace.Exclusive | src/kernel/common/memory/pmm.c:168-332 | in every interleaving of pmm_alloc, pmm_alloc_advanced and pmm_free no frame is handed to two processors, nor one that was in use |
| FrameRace.FailuresLeaveNothing | src/kernel/common/memory/pmm.c:310-324 | attempts that fail leave every count as it was |
| FrameRace.AttemptEnds | src/kernel/common/memory/pmm.c:168-332 | a processor left alone comes to the end of an attempt within twice as many steps as frames plus one, and gets the frames if and only if all are free |
| FrameRace.CanTake | src/kernel/common/memory/pmm.c:310-324 | frames that are free can be taken, and each is counted once |
| SharedMemory.Memory.Create | src/kernel/common/memory/vmem.c:68-82 | a new segment without references; the counts of all frames stay balanced |
| SharedMemory.Memory.Make | src/kernel/common/memory/vmem.c:85-136 | the segment has one user and one more reference to each frame of its areas, in their order, which were in use before; panics if and only if there is no area, the offset is not inside a page, or a frame is not in use or would get more than 127 users; counts stay balanced, and the size fits the frames, if and only if the areas are smaller than the address space |
| SharedMemory.Memory.Open | src/kernel/common/memory/vmem.c:139-185 | one user more and one more reference to each frame, or the reference that kept the segment alive becomes the user's, or the frames are new; if the mapping fails visibly nothing changes; counts stay balanced; the frames cover the size with less than a page to spare unless rounding up wraps; panics if and only if frames are used up or a count of users is full |
| SharedMemory.Memory.OpenKept | src/kernel/common/memory/vmem.c:149-158 | the reference of a segment that is kept alive is handed to its only user, and no count changes |
| SharedMemory.Memory.OpenFresh | src/kernel/common/memory/vmem.c:165-178 | the first user brings one new frame per page, rounded up, and all are given back if they cannot be mapped; panics if and only if there are not enough free frames for the size |
| SharedMemory.PagesAreEnough | src/kernel/common/memory/vmem.c:145 | the frames cover the size, with less than a page to spare, if and only if rounding up does not wrap, and there are none otherwise |
| SharedMemory.NothingBehind | src/kernel/common/memory/vmem.c:139-185 | a segment of 0xFFFFF001 bytes is opened without a single frame |
| SharedMemory.Memory.Release | src/kernel/common/memory/vmem.c:194-245 | one user less; its references are given back, or kept by the segment if it was the last one and does not destroy it; a destroyed segment is gone; nothing panics; counts stay balanced if and only if there was a user |
| SharedMemory.Memory.UseOutside | src/kernel/common/memory/pmm.c:212-223 | a reference to a frame that is added outside of segments, with counts balanced |
| SharedMemory.Memory.AllocOutside | src/kernel/common/memory/pmm.c:168-196 | a frame allocated outside of segments is in no segment that has users or is kept alive |
| SharedMemory.Memory.FreeOutside | src/kernel/common/memory/pmm.c:199-209 | giving back a reference from outside never panics, and frames that segments hold keep users |
| SharedMemory.FailureUnnoticed | src/kernel/common/memory/vmem.c:149-163 | a segment with offset 8 that cannot be mapped is opened all the same: the caller gets address 8, and the segment a second user |
| SharedMemory.Memory.Rebalanced | src/kernel/common/memory/vmem.c:139-245 | if the counts follow what one segment holds, every frame still has as many users as there are references to it |
| SharedMemory.Memory.NoDanglingFrames | src/kernel/common/memory/vmem.c:139-245 | every frame of a segment that has users or is kept alive has more users than there are references from outside |
| SharedMemory.Memory.SegmentsAreIntact | src/kernel/common/memory/vmem.c:256-273 | every segment that exists passes the test of its digest, and one that is kept alive has no users |
| SharedMemory.Segment.IsValid | src/kernel/common/memory/vmem.c:256-273 | the test is passed if and only if the segment lies in kernel memory and the digest is that of the fields before it |
| SharedMemory.FieldsProtected | src/kernel/common/memory/vmem.c:256-273 | a change of any one field of a segment changes its digest |
| Digest.Crc32 | src/kernel/common/lib/digest.c:26-47 | the nested loops compute the register the theorems are about |
| Digest.CheckValue | src/kernel/common/lib/digest.c:26-47 | the digest of "123456789" is 0xCBF43926, the check value of the standard |
| Digest.EmptyDigest | src/kernel/common/lib/digest.c:26-47 | the digest of nothing is 0 |
| Digest.LeadingZeroShows | src/kernel/common/lib/digest.c:26-47 | a zero byte in front changes the digest |
| Digest.AbsorbOneToOne | src/kernel/common/lib/digest.c:26-47 | different registers stay different whatever is fed to both |
| Digest.CheckIntegrity | src/kernel/common/lib/digest.c:56-59 | true if and only if the digest of the buffer is the residue |
| Digest.ShiftsOneToOne | src/kernel/common/lib/digest.c:36-40 | different registers stay different |
| Digest.ShiftsLinear | src/kernel/common/lib/digest.c:36-40 | the register is linear over exclusive or |
| Digest.AbsorbIsFeed | src/kernel/common/lib/digest.c:31-44 | absorbing a buffer byte by byte is feeding its bits one by one, lowest first |
| Digest.DigestChecks | src/kernel/common/lib/digest.c:50-59 | a buffer followed by a little-endian digest passes the check if and only if that is the buffer's digest |
| Digest.BurstDetected | src/kernel/common/lib/digest.c:26-47 | two bit streams that differ only within 32 consecutive bits leave different registers |
| Digest.DifferentDigests | src/kernel/common/lib/digest.c:26-47 | two buffers whose bits differ only within 32 consecutive places have different digests |
| Digest.ChangeDetected | src/kernel/common/lib/digest.c:56-59 | a structure that passes the check fails it after any change to up to four consecutive bytes |
| Digest.FieldShows | src/kernel/common/lib/digest.c:56-59 | a four-byte field with another value gives another digest |
| BlockBytes.Touched | src/lib/common/cdi/storage.c:361-362 | the blocks from pos / size on, as many as the code computes, begin at the last boundary up to the position and end at the first one after the last byte |
| BlockBytes.LastTouched | src/lib/common/cdi/storage.c:402-404 | where the block that is only partly overwritten at the end lies, in the buffer and on the device |
| BlockBytes.FlatSlice | src/lib/common/cdi/storage.c:361-362 | blocks i up to j are the bytes from i * size up to j * size |
| Storage.File.Recv | src/lib/common/cdi/storage.c:333-377 | what is delivered is exactly the bytes from the position on, of the directory or of the device taken as one array of bytes, and the position advances by as many |
| Storage.File.Send | src/lib/common/cdi/storage.c:380-427 | the device, taken as one array of bytes, is overwritten from the position on by the bytes sent, and by an arbitrary tail only if these begin a block without filling it; the blocks written lie in the partition if and only if the position is inside |
| Storage.File.InsideOrNot | src/lib/common/cdi/storage.c:436-437 | the bytes lie in a partition if and only if they end inside it, and beyond its end all blocks touched are outside |
| Storage.ExactWhenFilled | src/lib/common/cdi/storage.c:395-409 | exactly the bytes sent change, whatever the buffer held, if and only if the position is inside a block or the bytes fill at least one |
| Storage.TailIsHarmless | src/lib/common/cdi/storage.c:395-412 | a tail changes nothing if and only if it is what the device held |
| Storage.SendAndReceive | src/lib/common/cdi/storage.c:333-427 | sending, setting the position back and receiving delivers the bytes that were sent, as many as fit, for a device that works and a position inside |
| Storage.ReceiveAll | src/lib/common/cdi/storage.c:333-377 | as much as fits of what lies between the position and the end of the device, or of the partition, is delivered |
| Storage.File.SetPosition | src/lib/common/cdi/storage.c:504-517 | the position is inside a partition if and only if the value is not beyond the partition, or the device is no larger, because the size of the whole device is the bound |
| Storage.PartitionLeft | src/lib/common/cdi/storage.c:504-517 | a partition of one block, where a byte is written to the block behind it |
| Storage.File.PressureBeyondTheEnd | src/lib/common/cdi/storage.c:436-437 | inside, the rest up to the end; beyond the end, a number larger than any size |

## Left out

- BlockCache.Cache.SyncBlock: writing to the medium succeeds. Private data per block and the layout of the read-ahead buffer in bytes are not modelled.
- BlockCache.Cache.Write: a client that does not hold the block any more, or changes its number, is not modelled.
- `cdi_cache_destroy`.
- UserHeap.Heap.Sbrk: moves the end of the heap and may fail; pages are not modelled. For a size from 0x7FFFFFF0 on the kernel takes its shrinking branch and maps no pages, although the end may move as it should.
- UserHeap.Heap.Malloc: the heap lock, since calls are modelled one at a time. The bytes of headers are kept apart from the bytes of payloads; writing a header makes its sixteen bytes arbitrary.
- `aligned_alloc`: its free-list branch does not unlink an aligned block, so that the layout is not kept.
- Scheduling.Scheduler.Schedule: the lock is taken or not, other processors do nothing during a call; the assertion about the stack of the chosen process (line 117) is not modelled.
- FairChoice.BoundedWait: processes do not change their status or join the queue; calls that do not get the lock do not count.
- `rwl_drop_w`, which writes the count without `lock_lock`; the width of the reader count; and the yields while waiting, which are steps that change nothing.
- RwLock.Machine.Next: what a thread does between two accesses to the lock is not modelled.
- `init_pmm` and the discovery of memory.
- FrameRace.StepKeeps: each increment and decrement of an entry is one step, counts are not bounded by eight bits, and `pmm_use`, the flag and `look_from_here` are left out.
- SharedMemory.Memory.Release: a segment that has no user and is not kept alive has frames that are not set, and is left out. Unmapping is not modelled.
- SharedMemory.Memory.Make: an area comes as the list of the frames its pages are mapped to, which are frames of the bitmap; lazy mapping is not modelled.
- SharedMemory.Memory.Open: mapping delivers an arbitrary address or NULL. Decrements of `users` by several processors at once are not modelled, nor is the time between a change of a segment and its new digest.
- Storage.File.Send: memory is always available, and a buffer after a failed write is not tracked. A device whose callbacks may fail is covered by what is stated without `working`.
- Page tables, address spaces, context switches, system calls, IPC, the virtual file system, drivers, ELF loading, the network programs and the standard library beyond the heap: input and output, or code that adds no hard properties.
