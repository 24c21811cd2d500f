# MorphicOS kernels: models and proofs

Dafny models of the parts of MorphicOS whose correctness spans whole runs, all inputs or all
interleavings, with proofs of what they promise. `dafny verify dfyconfig.toml` checks everything.

- **Locks** (`TicketLock`, `RWLock`). Transition systems over single atomic accesses of any number of
  threads. Both locks are proved correct up to the thread count at which their 32-bit counters fail,
  and a failing run is constructed beyond it.
- **Audio ring** (`AudioRing`). One producer and one consumer interleaved byte by byte, with wrapping
  positions; the sequential `Write` and `Read` as in-place methods.
- **Heaps** (`Tiling`, `KHeap`, `UserHeap`). Segments are a sequence that tiles the heap; the classes hold
  a memory map from header addresses to headers, with the pointers of the source, and every method is
  proved to do to the linked headers what the specification does to the sequence.
- **Pages** (`Bitmap`, `PhysicalMemory`). A byte array of bits, the page allocator over it, and boot-time
  initialisation from a memory map.
- **Sector cache** (`SectorCache`). `StorageManager` over `BufferCache`: the cache is invisible to readers.
- **Display** (`Display`). Dirty rectangles, partial copies to VRAM, atomic commits and the event ring.
- **FAT32** (`Fat32`). Reading along cluster chains and allocating a cluster on a mirrored FAT.
- **Scheduler** (`EventQueue`, `Rotation`, `TaskRing`, `Scheduler`). `TaskRing` states every operation on the
  sequence of tasks and proves the properties of whole runs; the class in `Scheduler` works on linked
  records and refines those operations.
- **Compositor protocol** (`CompositorProtocol`, `CompositorServer`, `CompositorClient`, `CompositorSystem`,
  `CompositorSession`). Server and client as classes over value specifications, and a system of one client, the
  desktop, two bounded lossy queues, a clock and an environment, over whose sessions the safety and release
  properties are proved.

`Basics`, `Counting` and `Modular` hold the types and the few facts about counts and residues that several models
share.

## Where code and comments differ

- `userspace/sdk/runtime.cpp:27` calls the block header 16 bytes; its four fields take 24. Payloads are 8-byte
  aligned only, and the first one is never 16-byte aligned.
- `kernel/mm/pmm.cpp:86-144` sets ranges up to page 0x41000 whatever the size of the bitmap. They stay inside it
  exactly if addressable memory reaches 0x40FF8000; the model of `Init` asks for that.
- `kernel/arch/common/spinlock.h` bounds neither lock; the exact bounds are 2^32 and 2^31 threads.
- `kernel/hal/storage/buffer_cache.cpp:48` promises least-recently-used eviction; it holds exactly until the 32-bit
  access counter wraps.
- `userspace/sdk/morphic_api.h:292` takes a 21st event from the queue and drops it, a close request included;
  `userspace/apps/desktop/desktop.cpp:979` does the same with a 193rd event.
- `kernel/mm/heap.cpp:80-90` leaves the magic in a header that a merge swallows, so that `Free` takes a block freed
  twice for a live one. The exact condition under which that breaks the heap is proved.
- `kernel/mm/pmm.cpp:159` returns `i * 4096`, which is a null pointer for page 0. After `Init` page 0 is reserved, so
  that takes an earlier `FreePage` of address 0, which the source accepts.
- `kernel/fs/drivers/fat32.cpp:395` clamps with `offset + size` in 64 bits. A request that wraps is not clamped and
  is answered with bytes behind the end of the file. The byte count is returned as an `int` and wrong from 2^31 on.
- `userspace/apps/desktop/desktop.cpp:379` never times out a frame that was submitted at clock 0.
- A client can have more than two frames unacknowledged: registration and throttle check read the clock
  separately (`userspace/sdk/morphic_api.h:413` and `:339`).

## Model

| member | source | states |
|---|---|---|
| `TicketLock.ExclusiveAndOrdered` | kernel/arch/common/spinlock.h:50-72 | In every run of at most 2^32 threads no two threads hold the lock and threads have entered in exactly the order in which they drew tickets, also across wrap-around of both counters |
| `TicketLock.FirstWaitingEnters` | kernel/arch/common/spinlock.h:58-71 | In every run of at most 2^32 threads: when nobody holds the lock, exactly the waiting thread with the earliest ticket can enter |
| `TicketLock.StepKeepsInv` | kernel/arch/common/spinlock.h:58-71 | Every atomic step keeps the invariant: each outstanding turn belongs to exactly one waiting or holding thread, and tickets and counters are the 32-bit residues of turns |
| `TicketLock.TooManyThreads` | kernel/arch/common/spinlock.h:58-71 | For any n above 2^32 there is a run in which two threads hold the lock together |
| `TicketLock.ExclusionIffFewThreads` | kernel/arch/common/spinlock.h:50-72 | All runs of n threads keep mutual exclusion if and only if n <= 2^32 |
| `RWLock.StepKeepsInv` | kernel/arch/common/spinlock.h:85-134 | Every atomic step keeps: readers counts holding, re-checking and backing-off readers; writer and write_lock count writers; no writer beside anyone |
| `RWLock.RunKeepsInv` | kernel/arch/common/spinlock.h:77-134 | In every run of at most 2^31 threads a writer never holds the lock together with a reader or another writer |
| `RWLock.TooManyReaders` | kernel/arch/common/spinlock.h:96-126 | For any n above 2^31 there is a run in which the signed reader count has wrapped and a writer joins the readers |
| `RWLock.ExclusionIffFewThreads` | kernel/arch/common/spinlock.h:77-134 | All runs of n threads keep exclusion if and only if n <= 2^31 |
| `RWLock.WriterGetsIn` | kernel/arch/common/spinlock.h:85-126 | While an announced writer waits, no step adds to the load of readers it waits for, every step of a counted reader takes some off, and with none left its next look lets it in |
| `RWLock.IdleIsFresh` | kernel/arch/common/spinlock.h:77-134 | A lock that nobody uses has all its fields back at zero |
| `AudioRing.SizeDividesWord` | kernel/hal/audio/ring_buffer.h:9-9 | A power-of-two size divides 2^32, which is why overflow of the positions is harmless |
| `AudioRing.PendingExact` | kernel/hal/audio/ring_buffer.h:24-35 | The masked 32-bit difference of the wrapped positions is the exact number of pending bytes |
| `AudioRing.StepKeepsInv` | kernel/hal/audio/ring_buffer.h:37-70 | Every byte step of producer or consumer, in any interleaving, keeps the slots, the cursors and the byte history consistent |
| `AudioRing.TakenIsPrefixOfWritten` | kernel/hal/audio/ring_buffer.h:24-70 | In every interleaved run the bytes taken are a prefix of the bytes written and at most SIZE - 1 are pending |
| `AudioRing.TakeWhatFits` | kernel/hal/audio/ring_buffer.h:24-56 | In every state of every run a Write takes all that fits beside the bytes not yet retired, a Read all that is published |
| `AudioRing.Ring.Write` | kernel/hal/audio/ring_buffer.h:38-53 | Appends exactly the prefix that fits and returns its length, with wrap-around of buffer and position |
| `AudioRing.Ring.Read` | kernel/hal/audio/ring_buffer.h:56-70 | Returns and removes exactly the oldest min(len, available) bytes |
| `Tiling.LiveDisjoint` | kernel/mm/heap.cpp:39-78 | Any two live payloads of a tiled heap are apart by at least a header |
| `Tiling.LiveInside` | kernel/mm/heap.cpp:22-37 | Every live payload lies inside the heap |
| `KHeap.AllocEffect` | kernel/mm/heap.cpp:39-78 | First-fit allocation keeps the tiling, alignment and absence of adjacent free segments and adds exactly one new live payload, or changes nothing |
| `KHeap.FreeEffect` | kernel/mm/heap.cpp:92-114 | Freeing with coalescing keeps the same properties and removes exactly that payload |
| `KHeap.FreeUndoesAlloc` | kernel/mm/heap.cpp:39-114 | Freeing a block just allocated restores the segment list exactly |
| `KHeap.Accounting` | kernel/mm/heap.cpp:119-131 | Free bytes, allocated bytes and one header per segment add up to the heap |
| `KHeap.UsedMoves` | kernel/mm/heap.cpp:119-131 | The allocated bytes that GetUsed is made of grow by the rounded size of an allocation and shrink by the size of what is freed |
| `KHeap.LiveAligned` | kernel/mm/heap.cpp:42-43 | Live payloads are 16-byte aligned |
| `KHeap.SplitLinked` | kernel/mm/heap.cpp:55-72 | The header writes of a split turn a well-linked list (next and prev inverse) into the well-linked split list |
| `KHeap.MergeLinked` | kernel/mm/heap.cpp:80-90 | The header writes of a merge do the same for the merged list |
| `KHeap.Heap.Allocate` | kernel/mm/heap.cpp:39-78 | The new payload is the request rounded up to a multiple of 16, at least the request and less than 16 bytes more, aligned and disjoint from all live ones; it lies in the first free segment of just that size or of more than 32 bytes more; null exactly for size 0 or if there is no such segment |
| `KHeap.CombinedSound` | kernel/mm/heap.cpp:80-90 | On linked headers: CombineFreeSegments joins two adjacent free segments into one and leaves null, used and non-adjacent ones alone; the links stay inverse and nothing points back to a swallowed header |
| `KHeap.CurrentIffLinkedBack` | kernel/mm/heap.cpp:85-89 | Swallowed headers keep their magic; a header belongs to a current segment if and only if it is the first one or its predecessor points to it |
| `KHeap.FreedCurrent` | kernel/mm/heap.cpp:92-114 | On linked headers: freeing a current segment marks it free and merges it with both neighbours |
| `KHeap.FreedStale` | kernel/mm/heap.cpp:92-114 | Freeing a swallowed header keeps the heap sound if and only if its old successor is null, used or last |
| `KHeap.DoubleFreeBreaks` | kernel/mm/heap.cpp:92-114 | A run of four allocations and four frees, the last a repeated one, after which the heap is broken |
| `KHeap.Heap.Free` | kernel/mm/heap.cpp:92-114 | For every header: null and bad magic change nothing; a current segment is freed and merged with both neighbours; a swallowed header leaves the heap valid exactly if it is harmless |
| `KHeap.Heap.GetUsed` | kernel/mm/heap.cpp:119-131 | Equals allocated bytes plus one header for every segment after the first |
| `UserHeap.TakeEffect` | userspace/sdk/runtime.cpp:77-111 | operator new keeps the tiling of the 2 MB arena, adds exactly one live block and gives it at least the rounded request and less than 32 bytes more |
| `UserHeap.FreeEffect` | userspace/sdk/runtime.cpp:121-153 | operator delete keeps the tiling with no two adjacent free blocks and removes exactly that live block |
| `UserHeap.DeleteUndoesNew` | userspace/sdk/runtime.cpp:66-153 | delete right after new restores the blocks, and with them the free list, exactly |
| `UserHeap.MergeAllAfterFree` | userspace/sdk/runtime.cpp:47-63 | A full coalescing pass after one delete equals merging the freed block with its two neighbours |
| `UserHeap.CoalIsMergeAll` | userspace/sdk/runtime.cpp:47-63 | Coalesce on the sorted free list computes the free list of the fully merged tiling |
| `UserHeap.NodesInside` | userspace/sdk/runtime.cpp:132-149 | The free list is strictly sorted by address, without overlap, inside the arena |
| `UserHeap.NodesApart` | userspace/sdk/runtime.cpp:151-152 | No two blocks of the free list touch |
| `UserHeap.PayloadAlignment` | userspace/sdk/runtime.cpp:25-33 | Payloads are 8-byte aligned, and 16-byte aligned if and only if the blocks in front add up to 8 modulo 16 |
| `UserHeap.FirstPayloadUnaligned` | userspace/sdk/runtime.cpp:25-33 | The first payload of the arena is never 16-byte aligned: the header has 24 bytes, not the 16 of its comment |
| `UserHeap.Heap.New` | userspace/sdk/runtime.cpp:66-119 | The lowest free block with room for the request, rounded up to 16 (8 for an empty one), serves it; its payload is exactly that if 32 bytes or more are left over and the whole block otherwise; null exactly if no free block has room; disjoint from all live blocks |
| `UserHeap.LiveIffMagic` | userspace/sdk/runtime.cpp:129-130 | The magic number tells exactly whether a pointer is the payload of a live block |
| `UserHeap.Heap.Delete` | userspace/sdk/runtime.cpp:121-153 | On linked headers: exactly the payload of a live block is freed, inserted in address order and coalesced; everything else, a second delete included, changes nothing |
| `UserHeap.Heap.Coalesce` | userspace/sdk/runtime.cpp:47-63 | The in-place walk turns the list into its coalesced form and touches no live header |
| `Bitmap.SetEachAt` | kernel/utils/bitmap.h:30-65 | Setting bits one by one changes exactly the bits of the range |
| `Bitmap.RangeIsEach` | kernel/utils/bitmap.h:30-65 | A range set by partial bytes and byte fills equals setting every bit one by one |
| `Bitmap.Bitmap.Get` | kernel/utils/bitmap.h:14-18 | Reads bit index % 8, counted from the low end, of byte index / 8 |
| `Bitmap.Bitmap.Set` | kernel/utils/bitmap.h:20-28 | Changes exactly one bit |
| `Bitmap.Bitmap.SetRange` | kernel/utils/bitmap.h:31-65 | The three loops together set exactly the bits of the range, for every alignment |
| `PhysicalMemory.DriftKept` | kernel/mm/pmm.cpp:147-214 | freeRAM minus 4096 times the clear bits never changes, modulo 2^64 |
| `PhysicalMemory.NullIffNoneOrZero` | kernel/mm/pmm.cpp:150-174 | The returned address is null if and only if no page below the limit is clear or the page taken is page 0 |
| `PhysicalMemory.ZeroPageIsLost` | kernel/mm/pmm.cpp:150-217 | On every memory map that boots, FreePage of address 0 right after Init makes the next AllocPage return null, with all pages that Init left free still free |
| `PhysicalMemory.BoardLosesZeroPage` | kernel/mm/pmm.cpp:150-217 | A machine with 128 MB above the kernel on which that happens while a page is free |
| `PhysicalMemory.Pmm.AllocPage` | kernel/mm/pmm.cpp:150-174 | Takes the first clear page from the hint on, then from 0; the page was held by nobody; the result is null exactly under that condition, and unless FreePage(0) was called before only if no page is clear |
| `PhysicalMemory.Pmm.FindRun` | kernel/mm/pmm.cpp:185-195 | The skip-ahead search finds the same lowest run as the naive search, or proves there is none |
| `PhysicalMemory.Pmm.AllocContiguous` | kernel/mm/pmm.cpp:176-209 | Returns the lowest clear run at or above 256 MB and the hint, marks exactly it, and none of its pages was held |
| `PhysicalMemory.Pmm.FreePage` | kernel/mm/pmm.cpp:211-217 | Clears the page of the address, accounts for it once, and ends its allocation; null stands for page 0 |
| `PhysicalMemory.RegionFits` | kernel/mm/pmm.cpp:25-42 | Every region of the memory map lies inside the bitmap |
| `PhysicalMemory.BootInBoundsIff` | kernel/mm/pmm.cpp:86-144 | All ranges that Init sets (regions, bitmap, low memory, kernel) lie inside the bitmap if and only if addressable memory reaches 0x40FF8000 |
| `PhysicalMemory.Boot` | kernel/mm/pmm.cpp:20-144 | After Init a page is free exactly if it lies in a usable descriptor and outside the bitmap, the low 256 MB and the kernel; the search hint is 0 and no page is handed out; freeRAM is the approximate sum the code computes; the bitmap is placed as PlaceBitmap says, and boot does not fail while a usable region at or above 1 MB has room for it |
| `PhysicalMemory.FreeIs` | kernel/mm/pmm.cpp:72-144 | Usable bytes are those of descriptors of types 1, 2, 3, 4 and 7; bitmap, low 256 MB and kernel are subtracted in full if all fit, and one by one as far as they fit below 256 MB |
| `PhysicalMemory.HighestAddress` | kernel/mm/pmm.cpp:25-38 | The highest region end, at least 16 MB |
| `PhysicalMemory.PlaceBitmap` | kernel/mm/pmm.cpp:44-65 | The start of the first descriptor of a usable type at or above 0x100000 with room for the bitmap; without one the start of the first usable one with room; without that 0 |
| `SectorCache.VictimExact` | kernel/hal/storage/buffer_cache.cpp:48-63 | The lowest invalid slot above slot 0; if there is none, the first slot with the smallest access count |
| `SectorCache.TimesAreUses` | kernel/hal/storage/buffer_cache.cpp:65-98 | Over all runs the recorded times stand in the order of the last operations that used the slots, a Get that hit or a Put |
| `SectorCache.LruIffNoWrap` | kernel/hal/storage/buffer_cache.cpp:48-115 | Over all runs of Get, Put, Invalidate and FlushDevice from the initial cache: with all slots valid the victim is the slot whose last use lies furthest back if and only if fewer than 2^32 operations used a slot |
| `SectorCache.WrappedRun` | kernel/hal/storage/buffer_cache.cpp:48-98 | For every count from 2^32 on, a run that evicts a slot used after 62 others |
| `SectorCache.RunIsCoherent` | kernel/hal/storage/buffer_cache.cpp:77-98 | The caches of that run agree with a device of 64 zero sectors |
| `SectorCache.StoredUnique` | kernel/hal/storage/buffer_cache.cpp:77-98 | Storing a sector keeps (device, lba) keys unique |
| `SectorCache.StoreKeeps` | kernel/hal/storage/buffer_cache.cpp:77-98 | Storing what the device holds keeps every valid entry equal to its device sector |
| `SectorCache.DeviceIndexStable` | kernel/hal/storage/storage_manager.cpp:24-47 | Registering a device does not redirect existing names |
| `SectorCache.Storage.Get` | kernel/hal/storage/buffer_cache.cpp:65-75 | A hit is an entry for the key and delivers its bytes; counters and recency are updated; a miss changes nothing but the miss count |
| `SectorCache.PutIsFound` | kernel/hal/storage/buffer_cache.cpp:65-98 | A sector of at most 512 bytes that was put is what the next Get finds; no slot but the written one changes |
| `SectorCache.Storage.Put` | kernel/hal/storage/buffer_cache.cpp:77-98 | Replaces the entry of the key, else an empty slot, else the victim; oversized sectors and a missing cache are ignored; coherence is kept if the device holds the bytes |
| `SectorCache.Storage.Invalidate` | kernel/hal/storage/buffer_cache.cpp:100-105 | Invalidates exactly the entry of the key |
| `SectorCache.Storage.FlushDevice` | kernel/hal/storage/buffer_cache.cpp:107-115 | Invalidates exactly the entries of the device |
| `SectorCache.Storage.ReadSector` | kernel/hal/storage/storage_manager.cpp:67-82 | One sector, from the cache or the device; after success it is cached if it has at most 512 bytes |
| `SectorCache.Storage.ReadSectors` | kernel/hal/storage/storage_manager.cpp:61-86 | A successful read returns the device's sectors one after the other, whatever was cached; it fails only for a missing or unreadable device or a sector fault |
| `SectorCache.Storage.WriteSectors` | kernel/hal/storage/storage_manager.cpp:89-100 | Coherence and unique keys survive every write, also one that fails half way; exactly the cached copies of the written sectors become invalid |
| `Display.NormalizedSurvivesClamp` | kernel/hal/drm/drm.cpp:102-129 | A normalised damage rectangle passes the clamp of MarkDirty unchanged |
| `Display.MarkEffect` | kernel/hal/drm/drm.cpp:477-506 | Marking makes exactly the on-screen pixels of the rectangle dirty, or everything when all slots are taken; dirty_count stays the number of active slots |
| `Display.NoDamageEffect` | kernel/hal/drm/drm.cpp:508-516 | Clearing leaves no pixel dirty and the count exact |
| `Display.RequestedEffect` | kernel/hal/drm/drm.cpp:577-597 | What an accepted atomic request makes dirty: everything, its rectangle, or nothing new |
| `Display.Screen.MarkDirty` | kernel/hal/drm/drm.cpp:477-506 | The slot search implements that marking in place |
| `Display.Screen.Present` | kernel/hal/drm/drm.cpp:518-560 | A pixel of VRAM is right afterwards exactly if it was right or marked; if every changed pixel was marked VRAM equals the compositor buffer |
| `Display.Screen.AtomicCommit` | kernel/hal/drm/drm.cpp:562-614 | Accepted exactly for a full update, without damage, or with damage that has a pixel on the screen, else without effect; accepted, a pixel is right afterwards exactly if it was right, dirty or asked for, or if everything had to be copied; both events are queued with their flags |
| `Display.QueueEffect` | kernel/hal/drm/drm.cpp:86-100 | The event ring is a FIFO that drops its oldest event when 128 are waiting |
| `Display.PollEffect` | kernel/hal/drm/drm.cpp:345-361 | Polling takes the oldest event or reports an empty ring |
| `Fat32.EntryInSector` | kernel/fs/drivers/fat32.cpp:65-68 | A FAT entry never straddles a sector |
| `Fat32.PatchedEntries` | kernel/fs/drivers/fat32.cpp:100-102 | Writing an entry replaces its 28 bits, keeps its top four bits and every other entry of the sector |
| `Fat32.WantedIffNoWrap` | kernel/fs/drivers/fat32.cpp:394-395 | The clamp gives min(size, file size - offset) if and only if offset + size does not wrap at 2^64; otherwise all of size is wanted |
| `Fat32.ReadComplete` | kernel/fs/drivers/fat32.cpp:393-437 | When the read loop can go no further, on a well-formed file what was asked for has arrived and is the slice of the concatenated chain, unless the request wraps |
| `Fat32.EndedIsExact` | kernel/fs/drivers/fat32.cpp:393-437 | On a file whose chain ends with it, the slice is exact if and only if the request does not wrap or the file fills its last cluster |
| `Fat32.WrapRunsOn` | kernel/fs/drivers/fat32.cpp:395-437 | A wrapped request on a file shorter than its one cluster is answered with the rest of the cluster, past the file's end |
| `Fat32.ReadPastEnd` | kernel/fs/drivers/fat32.cpp:380-438 | fs_read itself delivers 15 bytes of an 8-byte file from offset 1, for a size of 2^64 - 1 |
| `Fat32.NextIs` | kernel/fs/drivers/fat32.cpp:60-83 | The entry of cluster c is the four bytes at byte 4c of the FAT, low byte first, without the top four bits; EOF outside the volume or for an unreadable sector |
| `Fat32.StreamAt` | kernel/fs/drivers/fat32.cpp:41-45 | Byte y of sector s of the k-th cluster c of a chain is byte y of the sector at LBA fatStart + numFats * sectorsPerFat + (c - 2) * sectorsPerCluster + s |
| `Fat32.ReadFile` | kernel/fs/drivers/fat32.cpp:380-438 | fs_read delivers the chain's bytes from offset on, in order, stops short only where the chain ends or a cluster cannot be read, and on a well-formed file returns min(size, file size - offset) bytes, byte y of sector s of the k-th cluster c from LBA fatStart + numFats * sectorsPerFat + (c - 2) * sectorsPerCluster + s, with the exact condition for wrapping requests; its int result is the number of bytes exactly if that is below 2^31, and -1 for a failed first cluster or 2^32 - 1 bytes |
| `Fat32.OrdinaryVolume` | kernel/fs/drivers/fat32.cpp:340-341 | With 32 reserved sectors and two FATs of 512 sectors, bytes 512 to 1023 of a file in cluster 2 are read from LBA 1057 |
| `Fat32.AllocatedEntry` | kernel/fs/drivers/fat32.cpp:85-112 | Allocating c sets its entry to end-of-chain and leaves every other entry as read before |
| `Fat32.AllocatedCopies` | kernel/fs/drivers/fat32.cpp:104-108 | Equal FAT copies stay equal |
| `Fat32.AllocatedChunk` | kernel/fs/drivers/fat32.cpp:120-124 | No other cluster's bytes change |
| `Fat32.AllocatedIsZero` | kernel/fs/drivers/fat32.cpp:134-140 | The new cluster reads as zeroes |
| `Fat32.AllocationKeepsChain` | kernel/fs/drivers/fat32.cpp:127-147 | A free cluster is on no chain in use, and every such chain keeps its clusters, order and bytes |
| `Fat32.AllocationKeepsFiles` | kernel/fs/drivers/fat32.cpp:127-147 | Well-formed files stay so, and the new one-cluster chain is in use |
| `Fat32.TinyVolume` | kernel/fs/drivers/fat32.cpp:127-147 | A volume with a free cluster beside a file in use on which all these assumptions hold |
| `Fat32.Volume.SetEntry` | kernel/fs/drivers/fat32.cpp:85-112 | The mirror loop writes the patched sector to every FAT copy and nothing else |
| `Fat32.AllocatedAt` | kernel/fs/drivers/fat32.cpp:86-147 | What taking a cluster does to each sector of the disk, by its LBA |
| `Fat32.Volume.AllocateCluster` | kernel/fs/drivers/fat32.cpp:127-147 | Takes the lowest free cluster; its entry becomes end-of-chain in every FAT copy and its data sectors become zero, each at the LBA spelled out, and no other byte of the disk changes; returns 0 without any change exactly if there is none |
| `EventQueue.Capacity` | kernel/process/scheduler.h:34-38 | Full means exactly 127 pending events, empty exactly none |
| `EventQueue.PushAppends` | kernel/process/scheduler.cpp:403-420 | A push appends at the back of the FIFO |
| `EventQueue.PopRemoves` | kernel/process/scheduler.cpp:446-452 | A pop removes the front |
| `TaskRing.BootedInv` | kernel/process/scheduler.cpp:54-101 | The state after Init satisfies the invariant |
| `TaskRing.SwitchesToFirst` | kernel/process/scheduler.cpp:301-356 | Schedule switches to the first task behind the current one that is READY, RUNNING, or SLEEPING with its wake time reached, where all tasks in between are DEAD or SLEEPING until later; the current task comes last |
| `TaskRing.ChosenIsFirst` | kernel/process/scheduler.cpp:317-353 | While the idle task can run, Schedule picks the first runnable task of the whole circle and never needs its idle fallback |
| `TaskRing.ReapExact` | kernel/process/scheduler.cpp:256-299 | Reaping removes exactly the DEAD tasks among the 64 behind the head that are neither current nor idle, and keeps all others, their contents and their order |
| `TaskRing.StepKeepsInv` | kernel/process/scheduler.cpp:109-457 | Every creation, sleep, exit, push, pop and schedule keeps one duplicate-free circle with head, current and idle task, queues within 127 events, and pushes == pops + pending in live tasks + pending when reaped |
| `TaskRing.StepTasks` | kernel/process/scheduler.cpp:109-457 | What one step can make of any single task |
| `TaskRing.RunKeepsInv` | kernel/process/scheduler.cpp:109-457 | The invariant holds in every state of every run |
| `TaskRing.DeadForever` | kernel/process/scheduler.cpp:239-356 | In every run a DEAD task is never switched to, stays DEAD until reaped, and its id never comes back |
| `TaskRing.SleepsUntilWoken` | kernel/process/scheduler.cpp:224-356 | In every run a SLEEPING task is not selected and stays asleep until a Schedule call at or after its wake time or a push that is queued; a refused push does not count |
| `TaskRing.NoDeadLeft` | kernel/process/scheduler.cpp:256-299 | With at most 64 tasks besides the head no DEAD task is left after Schedule |
| `TaskRing.Closer` | kernel/process/scheduler.cpp:317-356 | A Schedule call switches to a runnable task or strictly reduces its distance in the circle, whatever is reaped |
| `TaskRing.Fair` | kernel/process/scheduler.cpp:301-356 | With no creation, a task that stays runnable is switched to by the time Schedule was called once more often than there are tasks before it |
| `TaskRing.FairWithinCircle` | kernel/process/scheduler.cpp:301-356 | Hence within as many Schedule calls as there are tasks in the ring |
| `TaskRing.SleepEnds` | kernel/process/scheduler.cpp:301-356 | A task that is ready, or asleep until a given time at the latest, is switched to within as many Schedule calls from that time on as there are tasks, from its own state alone |
| `TaskRing.PushWakes` | kernel/process/scheduler.cpp:395-430 | A queued event goes to the back, is refused when 127 wait, and makes a sleeper ready |
| `TaskRing.EventEndsSleep` | kernel/process/scheduler.cpp:301-430 | A task an event was queued for is switched to within as many Schedule calls as there are tasks, however long it meant to sleep |
| `TaskRing.CreatesExactly` | kernel/process/scheduler.cpp:109-153 | A new task is READY, takes the next id and stands right behind the head; a failed stack allocation still uses up the id |
| `Scheduler.Insert` | kernel/process/scheduler.cpp:165-167 | Linking a record in behind the head gives the circle with that task second |
| `Scheduler.Unlink` | kernel/process/scheduler.cpp:266-267 | Unlinking gives the circle without that task |
| `Scheduler.RunQueue.constructor` | kernel/process/scheduler.cpp:54-101 | The linked state after Init |
| `Scheduler.RunQueue.CreateTask` | kernel/process/scheduler.cpp:109-222 | On linked records: refines creation, with both allocation failures |
| `Scheduler.RunQueue.Sleep` | kernel/process/scheduler.cpp:224-232 | Refines Sleep up to the yield, with the 64-bit sum of the wake time |
| `Scheduler.RunQueue.Exit` | kernel/process/scheduler.cpp:239-246 | Refines Exit up to the yield; task 0 cannot exit |
| `Scheduler.RunQueue.ReapDeadTasks` | kernel/process/scheduler.cpp:256-299 | The pointer walk with in-place unlinking refines the sweep |
| `Scheduler.RunQueue.Scan` | kernel/process/scheduler.cpp:317-333 | The search loop finds the first task that can run or comes back to the current one |
| `Scheduler.RunQueue.Schedule` | kernel/process/scheduler.cpp:301-375 | Refines choosing, switching and reaping |
| `Scheduler.RunQueue.GetTaskById` | kernel/process/scheduler.cpp:385-393 | Finds a task exactly if one with that id is in the circle |
| `Scheduler.RunQueue.PushEvent` | kernel/process/scheduler.cpp:395-437 | Refines the push: refused without a task or with a full queue, otherwise queued and the sleeper woken |
| `Scheduler.RunQueue.PopEvent` | kernel/process/scheduler.cpp:439-457 | Refines the pop and returns the oldest event |
| `CompositorProtocol.RoundTrip` | shared/compositor_protocol.h:31-53 | Encoding and decoding are inverse both ways, and exactly the user messages decode |
| `CompositorProtocol.SerialsAgreeBelowHalf` | userspace/apps/desktop/desktop.cpp:581-581 | The server sees the client's serial if and only if it lies in 1 .. 2^31 - 1 |
| `CompositorServer.StepKeepsInv` | userspace/apps/desktop/desktop.cpp:286-408 | Every message, present, cleanup and binding step keeps distinct nonzero pids, the exact active count and the accounting of commits |
| `CompositorServer.Accounting` | userspace/apps/desktop/desktop.cpp:286-408 | In every server run commits == acks + overruns + surfaces in flight + in-flight surfaces discarded by cleanup |
| `CompositorServer.CountsExactly` | userspace/apps/desktop/desktop.cpp:353-597 | Which steps count a commit, an overrun, an acknowledgement and a timeout, and how many |
| `CompositorServer.OverdueIffNoSubmitTime` | userspace/apps/desktop/desktop.cpp:367-385 | After a present step a frame in flight is over 1500 ms old if and only if the present failed, it was so before and its submit time reads as zero; after a successful one nothing is in flight |
| `CompositorServer.ZeroClockNeverTimesOut` | userspace/apps/desktop/desktop.cpp:367-385 | However many presents fail and however late, a surface with submit time zero stays as it is |
| `CompositorServer.OverdueForever` | userspace/apps/desktop/desktop.cpp:367-385 | A run that does so: the first commit, taken at clock 0, is overdue after any number of failed presents |
| `CompositorServer.InOrderIffGuarded` | userspace/apps/desktop/desktop.cpp:353-408 | A step keeps in_flight exactly when presented < submitted if and only if a commit it takes carries a serial above the last presented one |
| `CompositorServer.FlightExactIff` | userspace/apps/desktop/desktop.cpp:353-408 | The flag is exact in every state of a run if and only if every commit taken in it meets that guard |
| `CompositorServer.FlightIsExact` | userspace/apps/desktop/desktop.cpp:353-408 | In particular it is exact in every run with increasing serials |
| `CompositorServer.RepeatedSerialBreaks` | userspace/apps/desktop/desktop.cpp:574-590 | With a repeated serial it is not |
| `CompositorServer.HandledSurface` | userspace/apps/desktop/desktop.cpp:549-597 | What each message does to every field of every client's surface: HELLO, CREATE_SURFACE and COMMIT_SURFACE make, size and time their sender's surface, a commit puts its serial in flight since now, and no message touches another client's |
| `CompositorServer.HandledFlight` | userspace/apps/desktop/desktop.cpp:549-597 | Only its own commits put a client's frames in flight, and such a commit takes its serial over exactly if there is a slot for the client |
| `CompositorServer.SlotExact` | userspace/apps/desktop/desktop.cpp:305-341 | A call is served by the slot of its client, else by the first free one |
| `CompositorServer.GivenUpAfter` | userspace/apps/desktop/desktop.cpp:367-385 | Over runs: a commit taken at a time other than zero is given up by the first failed present over 1500 ms later and by no earlier one, whatever happened in between, and its client is sent exactly one TIMEOUT_RECOVERY with the serial of the frame |
| `CompositorServer.PostsExact` | userspace/apps/desktop/desktop.cpp:353-365 | A present step posts to a client exactly one acknowledgement of its last serial if its frame is acknowledged, else nothing |
| `CompositorServer.Desktop.EnsureSurface` | userspace/apps/desktop/desktop.cpp:305-336 | In place: the client's own slot, else the first free one, resized and recounted; null without a slot or pid |
| `CompositorServer.Desktop.AckSurface` | userspace/apps/desktop/desktop.cpp:353-365 | In place: acknowledges an active surface in flight, otherwise does nothing |
| `CompositorServer.Desktop.ProcessSync` | userspace/apps/desktop/desktop.cpp:367-385 | In place: acknowledges all frames in flight or the late ones, and posts the answers in slot order |
| `CompositorServer.Desktop.CleanupStale` | userspace/apps/desktop/desktop.cpp:387-408 | In place: clears exactly the surfaces without a window whose last commit is over 5000 ms old |
| `CompositorServer.ForgottenAfter` | userspace/apps/desktop/desktop.cpp:387-408 | Over runs: a surface created or committed to at a time other than zero is forgotten by a cleanup if and only if its window is gone and over 5000 ms have passed since, whatever happened in between |
| `CompositorServer.Desktop.HandleMessage` | userspace/apps/desktop/desktop.cpp:549-597 | In place: HELLO, CREATE_SURFACE, COMMIT_SURFACE and SET_FOCUS as specified; anything else is not handled |
| `CompositorServer.Desktop.PollInput` | userspace/apps/desktop/desktop.cpp:975-985 | In place: the first 192 waiting events are handled in order; one is taken without being handled if and only if more than 192 wait, and it is the 193rd |
| `CompositorClient.SyncSettles` | userspace/sdk/morphic_api.h:408-455 | Registering leaves nothing overdue and is idempotent: repeated at the same time it posts and changes nothing |
| `CompositorClient.RegistersExactly` | userspace/sdk/morphic_api.h:408-441 | Another session starts serials again, frames overdue by 1500 ms count as acknowledged, and without a compositor all is forgotten |
| `CompositorClient.AnnouncesExactly` | userspace/sdk/morphic_api.h:443-454 | HELLO and CREATE_SURFACE with the client's pid and size are posted exactly when forced, or when not yet announced, in another session or overdue, and not within 300 ms of the last HELLO |
| `CompositorSystem.AnnouncementArrives` | userspace/apps/desktop/desktop.cpp:549-580 | The two announcements give the client a surface of its size at the desktop if a slot is left |
| `CompositorClient.BurstLosesIff` | userspace/sdk/morphic_api.h:291-334 | An event is taken from the queue without being looked at if and only if more than 20 are pending and no close request is among the first 20; it is then the 21st |
| `CompositorClient.BurstExactly` | userspace/sdk/morphic_api.h:290-334 | A burst takes notice of exactly the events before the first close request, at most as many as its budget, in order |
| `CompositorClient.BurstIgnoresLost` | userspace/sdk/morphic_api.h:291-334 | The client ends up as if that event had never been sent |
| `CompositorClient.LostClose` | userspace/sdk/morphic_api.h:291-320 | A close request in that place is gone and does not close the window |
| `CompositorClient.Window.SyncRegistration` | userspace/sdk/morphic_api.h:408-455 | In place: timeout recovery, session change and announcement with its posts |
| `CompositorClient.ReceivedExactly` | userspace/sdk/morphic_api.h:294-309 | Only a FRAME_DONE with the client's pid changes anything: it raises the acknowledged serial to its own and never lowers it |
| `CompositorClient.Window.HandleEvent` | userspace/sdk/morphic_api.h:295-310 | In place: an acknowledgement raises the acknowledged serial, never lowers it; other events leave the protocol state alone |
| `CompositorClient.Window.ProcessEvents` | userspace/sdk/morphic_api.h:290-334 | The burst loop processes at most its budget, takes one more event if there is one, and closes the window exactly if a close request fits the budget |
| `CompositorClient.CommitsExactly` | userspace/sdk/morphic_api.h:457-468 | A commit inside a session takes the next 32-bit serial and the time and is posted with pid, serial and size |
| `CompositorSystem.CommitArrives` | userspace/apps/desktop/desktop.cpp:580-590 | It puts that serial in flight at the desktop, since the time at which it is handled |
| `CompositorClient.Window.NotifyCommit` | userspace/sdk/morphic_api.h:457-468 | In place: numbers the frame and posts it, or does nothing outside a session |
| `CompositorSystem.StepKeepsInv` | userspace/sdk/morphic_api.h:283-468 | Every step of client, server, clock or environment, and the loss of any queued event, keeps the joint invariant: serials on their way strictly increase above all the server has seen, acknowledgements never exceed submissions |
| `CompositorSession.SessionKeepsInv` | userspace/sdk/morphic_api.h:283-468 | The joint invariant holds in every state of every session |
| `CompositorSession.SessionSafe` | userspace/sdk/morphic_api.h:283-468 | In every state of every session the acknowledged serial never exceeds the submitted one, a frame is in flight exactly when not presented, and at most two frames are unacknowledged beyond the slow ones, those whose throttle check found the commit before over 1500 ms old |
| `CompositorSession.CommitBound` | userspace/sdk/morphic_api.h:339-359 | A commit leaves more than two frames unacknowledged if and only if two were so before and the 1500 ms deadline of the previous commit fell between the registration and the throttle check of that turn, or that commit was made at clock zero |
| `CompositorSession.ThreeOutstanding` | userspace/sdk/morphic_api.h:339-420 | Such a session exists, so two is not a bound |
| `CompositorSession.ThrottleExact` | userspace/sdk/morphic_api.h:395-406 | The throttle holds exactly while more than one frame is unacknowledged and 1500 ms have not passed |
| `CompositorSession.FrameAnswered` | userspace/apps/desktop/desktop.cpp:353-377 | A successful present answers the client's frame in flight if its queue has room |
| `CompositorSession.AckReleases` | userspace/sdk/morphic_api.h:300-303 | An acknowledgement of one of the last two frames frees the client |
| `CompositorSession.Released` | userspace/sdk/morphic_api.h:283-375 | A client that is not throttled and wants to draw commits within 24 of its own steps, whatever the others do |
| `CompositorSession.WaitsUntil` | userspace/sdk/morphic_api.h:283-375 | A client that wants to draw, throttled or not, goes on wanting to draw the same frame with the same deadline until it commits or its window is closed, whatever the others do |
| `CompositorSession.ReleasedByTimeout` | userspace/sdk/morphic_api.h:283-406 | From any state, throttled or not, a client that wants to draw commits its next frame once its last commit is over 1500 ms old and it gets 24 steps more, unless its window is closed; no acknowledgement is needed |
| `CompositorSession.ReleasedByAck` | userspace/sdk/morphic_api.h:283-406 | The same once it takes an acknowledgement of one of its last two frames |
| `CompositorSession.CloseTaken` | userspace/sdk/morphic_api.h:311-325 | A close request within the budget, or Escape, ends the main loop after this turn |
| `CompositorSession.StopsSoon` | userspace/sdk/morphic_api.h:283-375 | The client then stops within 24 of its own steps, whatever the others do |

## Left out

- Hardware effects: port I/O, MSRs, CR3 and TSS loading, interrupts, UEFI calls. A block device is a map from LBA to bytes, a blit a pixel copy, and clocks and system-call results are parameters.
- Weak memory: locks and the audio ring are modelled under sequential consistency.
- Liveness of the locks: no claim that a waiting thread is ever scheduled.
- Heap locks and concurrent callers of the allocators, the cache and the display: each call is one step.
- KHeap.Heap.Allocate: sizes of 2^64 - 47 and more, where the source's sums wrap, are excluded.
- KHeap.Heap.Free: the bytes in front of the pointer must have been a header once; payloads are not modelled, so a program that overwrites or forges a header is outside.
- UserHeap.Heap.New: sizes whose rounded total comes within 32 of 2^64 are excluded, for the same reason.
- UserHeap.Heap.Delete: the bytes in front of the pointer must have been a header once; payloads are not modelled, so a program that writes a magic number itself is outside.
- PhysicalMemory.Pmm.AllocContiguous: asks for no more pages than the limit, since `limit - pages` underflows beyond it.
- PhysicalMemory.Pmm.FreePage: takes a page inside the bitmap, since the source does not check the index.
- PhysicalMemory.Boot: memory maps that end below 0x40FF8000 are excluded, as BootInBoundsIff shows they must be, and so are maps whose region ends or usable bytes reach 2^64.
- PhysicalMemory.HighestAddress: region ends below 2^64; the source's sum wraps beyond.
- SectorCache: device names of at most 15 characters, because the cache stores no more; FAT32's direct device writes bypass the cache and are not part of its runs.
- SectorCache.Storage.Get: a hit is asked for at most 512 bytes, the size of a cache slot.
- Display.Screen.MarkDirty: rectangles whose right or lower edge leaves 32-bit range are excluded.
- Display.Screen.Present: screens of 2^32 pixels and more, where the 32-bit offsets wrap, are excluded.
- Fat32: path lookup, directories, writing and removing files, and kmalloc failures.
- Fat32.Volume.SetEntry: the FAT sector can be read and all writes succeed.
- Fat32.Volume.AllocateCluster: sector I/O and the scratch allocation succeed.
- AudioRing: `Clear`, `AdvanceRead` and the DMA accessors.
- TaskRing.Fair: assumes, like SleepEnds and EventEndsSleep, that no task is created meanwhile, as creation puts new tasks in front of waiting ones.
- TaskRing.Apply: task ids are unbounded; file descriptors, page tables and stacks of tasks are not modelled.
- TaskRing.StepKeepsInv: runs in which the idle task neither sleeps nor exits, and a task that sleeps or is dead calls neither Sleep nor Exit again.
- CompositorSession.SessionSafe: one compositor session, serials below 2^31, and no forged commits or acknowledgements; a session change resets serials without tagging messages.
- The compositor's drawing, window binding beyond the fields it writes, focus, and the list of registered clients.
- kernel/mm/user_heap.cpp, kernel/core/loader.cpp, the input stash, VFS, mixer, shell, applications and drivers: outside these models, or single-function facts.
