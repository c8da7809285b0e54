# VerveOS kernel state, modelled and proved

VerveOS is a small x86 kernel. This project models the parts of it that keep state in place, in the
form the C and assembly code has, and proves what that state guarantees over whole runs.

| part | modules |
|---|---|
| `kmalloc`/`kfree`: a free list threaded through the arena's own bytes | `Bytes`, `HeapModel` (abstract allocator and its encoding in bytes), `HeapCode` (the code), `HeapRuns` |
| Threads on one CPU: circular run queue, tokens, stacks from the heap, `cpu_switch`, zombies and reaping | `Sched` (abstract machine), `SchedRuns` (run properties), `ThreadModel` (how memory, links and registers represent a state), `ThreadCode` (the code) |
| Threads on any number of CPUs: spinlock, claim, release, coming online | `Smp` |
| Physical frames, i386 page tables, program break | `Pmm`, `PageTables`, `Brk`, `PagingCode` (the code of the last two) |
| Four-level boot tables | `Paging64` |
| Multiboot2 tag walking, and `pmm_init` fed by it | `Mboot2` (pointers of either width), `BootInfos` (well-formed and malformed infos), `BootMemory`, `BootPaging` (`pmm_init`, then the identity map) |
| Deferred ticks | `DeferRing` |
| RAM file system descriptors | `RamFs`, `VfsPaging` (its page check on the page tables) |

## How the layers fit

Each stateful component is a class whose fields are the C variables (`HeapCode.Heap`,
`ThreadCode.Kernel`, `Pmm.Allocator`, `PagingCode.Machine`, `Paging64.Tables`, `DeferRing.Scheduler`,
`RamFs.Vfs`). A method's contract ties the new state to a function of the old abstract state; the
properties are then lemmas about that function and about runs of it. The two levels differ in kind, not
in wording. For the single-CPU kernel, the abstract state has a *sequence* for the run queue, a *map*
from suspended threads to register frames, and an allocator with a list of block boundaries. The code
has a `next` index in each thread, saved stack pointers, and bytes: headers and links inside the arena,
and pushed registers inside stacks that are themselves heap payloads. `ThreadModel.Rep` connects them,
and every method of `ThreadCode.Kernel` is proved to take one step of `Sched.Step` under it. So the
theorems of `SchedRuns` (first-in first-out turns, registers restored, zombies, capacity) are theorems
about the code.

On several CPUs the model is a state machine: the lock's exchange and release, each thread that
`pick_next` looks at, and each store to a token or to `g_current` are steps of their own. What is merged
into one step is either done under the lock or in a slot that no other CPU can reach. `Smp.RunInv` holds for any interleaving.

## What the proofs found

* **Lost zombies.** `thread_trampoline` does not call `thread_reap_yield_from`. When a thread exits and
  the thread that gets the CPU is on its *first* run, nobody reaps the zombie, and the next switch
  overwrites `g_yield_from`. `SchedRuns.ZombieReaped` shows that a zombie is reclaimed exactly when the
  head of the ready queue had been suspended inside `sched_yield`; `SchedRuns.LostForever` shows that
  otherwise it stays in the ring with its 4112 bytes for the rest of every run, and
  `SchedRuns.ZombieLost` gives a run of five operations from boot that gets there. Fairness and capacity
  still hold.
* **Boot info under the bitmap.** `pmm_init` fills the bitmap before it walks the boot info again. When
  the bitmap covers the first byte of the info, the total size then reads as 0xFF..., the second walk
  rejects it and `pmm_init` fails; when info and bitmap are apart, the free set is exactly as intended
  (`BootMemory.PmmInit`, on one memory that holds both; `BootMemory.Spoiled` is a memory with a well-formed
  info in which that failure occurs).
* **Tag walking with 32-bit pointers.** The walkers add a tag's size and an entry size to a pointer
  without an overflow check. `Mboot2.SameSteps`: a walk makes the exact steps if and only if no sum on
  the way wraps. With 64-bit pointers none does, unless the info ends in the last 4 GiB of the address
  space (`Mboot2.RoomyFits`), nor for a well-formed info that ends
  at least its own length below the top of the address space (`BootInfos.EncodedFits`). On i386 a tag
  size of 0xFFFFFFF8 makes the walk go round for ever (`BootInfos.NeverEnds`), and an entry size of
  0xFFFFFFF0 makes it hand memory below the info to its callback (`BootInfos.ReadsBelow`).
* **Identity map.** On i386, `paging_identity_init` is meant to refuse `max_pfn + 1 > 131072`. For the
  last 1024 values of `max_pfn` the count wraps to 0: the call succeeds and maps nothing
  (`PagingCode.IdentityDomain`, exact in both directions).
* **A check that can fail to end.** `paging_user_range_ok` counts pages with a 32-bit page number that
  wraps after the last page. For a range that reaches the last page it answers false if any page of the
  directory is unsuitable, and otherwise never answers (`PagingCode.Machine.UserRangeOk`, the verdict
  `Diverges`; `PagingCode.Endless` is a memory of two frames with such a directory). A directory that
  keeps the boot map's entry for page 0, as the kernel's own do, does not reach that
  (`PagingCode.BootPageZero`).
* **Failed `brk`.** A call that fails halfway leaves the pages it mapped in place and keeps their frames,
  so it drains the allocator: `Brk.GrowOk` gives the exact success condition (as many frames as
  pages, and one more when the directory slot is empty) and what is left after a failure. A retry maps
  fresh frames over the earlier ones; the invariant survives it (`Brk.RunOk`).
* **`brk`'s result.** The break lies above 2^31, so `(int32_t)addr` is negative on success too; only
  -12 and -22 are failures (`Brk.SysBrkOk`).
* **Isolation has a condition.** A mapping made in a clone changes nobody else's translation if and only
  if the clone no longer shares that slot's table with `boot_pd`, or `boot_pd` has that very entry already
  (`PageTables.Private`). A slot that `boot_pd` left empty is never shared (`PageTables.Isolation`), and a
  new clone shares every slot that `boot_pd` has filled (`PageTables.CloneShares`).
* **Dropped ticks.** The 32-bit count of drops wraps when a CPU does not drain for 2^32 + 15 fifth ticks, and
  exactly then: `DeferRing.BooksBalance` gives the condition on the schedule, `DeferRing.CountsBalance` what is
  then missing (2^32 for each time round), and `DeferRing.DropsLost` the first run from boot that gets there.
* **The heap is private.** While `boot_pd` has no table over the heap, no run of `brk` calls, failed ones
  included, shows in another directory or outside the heap's pages (`Brk.RunPrivate`, `Brk.InitOwn`).

## Conventions

* Memory is one flat array of bytes, an address is an index into it, and a null pointer is 0. Bytes are
  numbers below 256; words are little-endian. Physical memory for page tables is an array of words.
* C masks, shifts and ors are written as arithmetic where that is what they mean; the bitmap's bytes are
  bit-vectors. Wrap-around is written out where the code can reach it.
* `TRAMPOLINE` stands for the address of `thread_trampoline`, and `AFTER_SWITCH` for the one return
  point of `cpu_switch` in `sched_yield`.
* A running thread is any sequence of `Work` steps, which set the registers to anything and write any
  bytes of the thread's own stack, mixed with calls of the kernel. `sched_yield` needs room for
  seven words on the caller's stack (`Room`).
* In `RamFs`, the pages that a user may read or write are sets that do not contain page 0, which the boot
  map keeps for the kernel.
* Where the pointer width matters, it is a parameter: `width` is 2^32 for the i386 build and 2^64 for the
  amd64 build.

## Model

| member | source | states |
|---|---|---|
| HeapModel.MallocOk | kernel/heap.c:37-78 | kmalloc hands out a block that nobody holds and that is big enough, leaves the place and status of every other block alone, and fails exactly when no listed block fits and the arena has no room; then nothing changes |
| HeapModel.FirstFitTaken | kernel/heap.c:50-77 | the first listed block that fits is taken off the list; without one, a block of exactly the bytes needed is carved while the 256 KiB last; else nothing changes |
| HeapModel.NeedOk | kernel/heap.c:37-48 | the bytes needed are the request and a 16-byte header, to the next multiple of 16; refused are the empty request and those that cannot fit |
| HeapModel.FreeThenMalloc | kernel/heap.c:37-102 | the block freed last is handed out first, which undoes the release |
| HeapModel.FreeOk | kernel/heap.c:80-102 | kfree of a live block releases that block and no other |
| HeapModel.BlockOf | kernel/heap.c:67-77 | the blocks tile [0, g_heap_off): each byte below the bump offset lies in exactly one |
| HeapModel.MallocRepresents | kernel/heap.c:50-77 | after the unlink or the bump, the headers and links in the arena's bytes again encode exactly the abstract tiling and free list |
| HeapModel.FreeRepresents | kernel/heap.c:80-102 | the same for pushing a freed block on the list |
| HeapModel.MallocFrame | kernel/heap.c:50-77 | kmalloc writes no byte of a live payload and none outside the arena |
| HeapModel.FreeFrame | kernel/heap.c:93-101 | kfree writes no byte of another live payload and none outside the arena |
| HeapCode.Heap.constructor | kernel/heap.c:31-35 | the empty heap is a good one |
| HeapCode.Heap.FindFit | kernel/heap.c:50-65 | the pointer walk ends at the first listed block that fits, with the link that points to it, or at the null link when none fits |
| HeapCode.Heap.Kmalloc | kernel/heap.c:37-78 | on bytes, kmalloc is the abstract allocation: same block or null, same memory; the pointer is 16-byte aligned, behind the header of a block that was free, with room for the request; a zero or oversized request changes nothing |
| HeapCode.Heap.Kfree | kernel/heap.c:80-102 | on bytes, kfree of a live pointer is the abstract release; a pointer outside the arena changes nothing |
| HeapRuns.RunKeepsHeap | kernel/heap.c:37-102 | after any run of kmalloc, kfree and owners' writes, the bytes encode the tiling and the list, and every live block holds the bytes its owner last wrote |
| Sched.BootInv | kernel/thread_amd64.c:172-238 | the state after boot satisfies the invariant |
| Sched.RunInv | kernel/thread_amd64.c:61-341 | in every reachable state the ring is a duplicate-free cycle through main_thread of exactly the slots not UNUSED, tokens are the running thread's alone, a pool slot has a stack exactly when in use, each stack is a live block of its own, and each suspended thread has a frame |
| Sched.PickOk | kernel/thread_amd64.c:112-134 | pick_next returns another claimable thread of the ring, or the current one exactly when there is none |
| Sched.MallocStack | kernel/heap.c:37-78 | on a heap of stack blocks, allocation of a stack succeeds exactly when fewer than 63 are live |
| SchedRuns.YieldRotates | kernel/thread_amd64.c:287-341 | ring, tokens and reaping together are a first-in first-out queue: a yield runs the head and puts the yielding thread, unless it exited, at the tail |
| SchedRuns.BoundedWaiting | kernel/thread_amd64.c:112-134 | with no spawns, the thread with d claimable threads before it runs after exactly d+1 enabled yields, whatever exits or is reaped meanwhile |
| SchedRuns.SpawnQueues | kernel/thread_amd64.c:100-110 | a spawned thread's turn comes right after main_thread's |
| SchedRuns.ZombieMovesOn | kernel/thread_amd64.c:270-285 | the exit loop's first sched_yield always leaves a zombie |
| SchedRuns.SwitchedBack | kernel/thread_amd64.c:287-341 | a thread that yields gets back, when next switched in after any run, exactly its callee-saved registers and stack pointer, at its own return point |
| SchedRuns.FirstSwitch | kernel/thread_amd64.c:150-164 | a spawned thread is first switched in with zeroed registers, at thread_trampoline, at the top of its own stack, with its own function |
| SchedRuns.YieldTokens | kernel/thread_amd64.c:287-341 | a yield moves the token from the old thread, unless it is a zombie, to the new one and no other; g_yield_from names the old thread until a thread suspended in sched_yield has reaped it |
| SchedRuns.ExitOnly | kernel/thread_amd64.c:270-285 | an exit makes its thread a zombie and changes nothing else; main_thread does not exit |
| SchedRuns.ZombieReaped | kernel/thread_amd64.c:76-98 | a zombie's yield leaves it unlinked, its slot UNUSED and its stack free exactly when the head of the ready queue had been suspended in sched_yield; otherwise it is lost |
| SchedRuns.LostForever | kernel/thread_amd64.c:270-285 | a lost zombie is never reaped and never runs, over any run |
| SchedRuns.ZombieLost | kernel/thread_amd64.c:270-285 | spawn, spawn, yield, exit, yield from boot loses a zombie, for good |
| SchedRuns.StacksBalance | kernel/thread_amd64.c:76-98 | over any run each stack block is freed at most once per allocation: live = live before + taken - given back |
| SchedRuns.SpawnCapacity | kernel/thread_amd64.c:245-268 | after any history, thread_spawn of a non-null function adds exactly one slot when fewer than 63 are in use and otherwise changes nothing |
| SchedRuns.PoolNeverFull | kernel/thread_amd64.c:136-144 | at most 63 of the 64 slots are ever in use |
| ThreadModel.StacksApart | kernel/thread_amd64.c:245-268 | the stacks of two threads in the ring, boot stack included, do not meet |
| ThreadModel.EnqueueLinks | kernel/thread_amd64.c:100-110 | the two stores turn the links of a cycle into those of the cycle with the thread behind main_thread |
| ThreadModel.UnlinkLinks | kernel/thread_amd64.c:61-74 | the two stores turn the links of a cycle into those of the cycle without the thread |
| ThreadModel.WorkRep | kernel/thread_amd64.c:270-276 | whatever a thread writes in its own stack spoils neither the heap nor another thread's frame |
| ThreadModel.SpawnRep | kernel/thread_amd64.c:245-268 | kmalloc, the first frame and the links together represent the abstract spawn |
| ThreadModel.ReapRep | kernel/thread_amd64.c:76-98 | unlink, clear and kfree together represent the abstract reaping |
| ThreadModel.SwitchRep | arch/x86_64/context_amd64.S:13-31 | seven words pushed on the old thread's own stack, and the saved pointer, represent its suspension; the new thread's frame is where it was |
| ThreadCode.Kernel.constructor | kernel/thread_amd64.c:172-238 | boot: an empty pool and main_thread running on the boot stack |
| ThreadCode.Kernel.AllocSlot | kernel/thread_amd64.c:136-144 | the first UNUSED slot, or none |
| ThreadCode.Kernel.Enqueue | kernel/thread_amd64.c:100-110 | from the links of a cycle to those of the cycle with the thread behind main_thread, and no other field changes |
| ThreadCode.Kernel.Unlink | kernel/thread_amd64.c:61-74 | the link walk ends, having found the predecessor of the thread in ring order; the links are then those of the cycle without it |
| ThreadCode.Kernel.PickNext | kernel/thread_amd64.c:112-134 | the link walk ends with the first claimable thread in ring order, whose token alone it sets |
| ThreadCode.Kernel.SetupInitialStack | kernel/thread_amd64.c:150-164 | the seven stores are the frame that cpu_switch pops: zero registers and thread_trampoline, and no other byte changes |
| ThreadCode.Kernel.SaveContext | arch/x86_64/context_amd64.S:14-21 | the pushes leave a frame that encodes the six registers and the return address, and nothing else changes |
| ThreadCode.Kernel.LoadContext | arch/x86_64/context_amd64.S:23-31 | the pops and the return load exactly the frame at the saved pointer |
| ThreadCode.Kernel.Spawn | kernel/thread_amd64.c:245-268 | on links, bytes and table, one abstract spawn step, failures included |
| ThreadCode.Kernel.Exit | kernel/thread_amd64.c:270-285 | the running thread becomes a zombie unless it is main_thread |
| ThreadCode.Kernel.ReapYieldFrom | kernel/thread_amd64.c:76-98 | one abstract reaping, or only g_yield_from cleared when the guards say so |
| ThreadCode.Kernel.SchedYield | kernel/thread_amd64.c:287-341 | pick, release, switch and reap on links, bytes and registers are one abstract yield step; nothing happens while preemption is disabled |
| ThreadCode.Kernel.Work | kernel/thread_amd64.c:270-276 | any computation on the thread's own stack is an abstract work step |
| Smp.EarlyInit | kernel/thread.c:166-232 | one idle thread for each CPU but the first, in the ring, allowed on its own CPU alone, token free; the pool and the arena have room for all 31 |
| Smp.RingKept | kernel/thread.c:100-110 | no step puts a thread in the circle twice, or one that is not in use |
| Smp.BootInv | kernel/thread.c:166-232 | what early init builds satisfies the invariant |
| Smp.RunInv | kernel/thread.c:239-323 | the invariant of lock, ring, tokens, affinity and current threads holds after any interleaving of any CPUs' steps, CPU 0's thread_spawn included |
| Smp.ExitTakesEffect | kernel/thread.c:271-275 | when an exit lets go of the lock, its thread, no idle or main thread, is a zombie, and nothing else has changed |
| Smp.GoneForever | kernel/thread.c:112-134 | over any run, a zombie that no CPU runs stays one and never runs again |
| Smp.ZombieStays | kernel/thread.c:271-275 | no step of any CPU revives a zombie |
| Smp.SpawnTakesEffect | kernel/thread.c:100-110 | when a spawn lets go of the lock, the circle is main_thread, the new thread, then the rest as before, and every CPU can claim the new thread |
| Smp.FreeStays | kernel/thread.c:112-134 | a thread that every CPU can claim stays so until the step in which one claims it |
| Smp.YieldAlone | kernel/thread.c:281-323 | a whole yield under the lock: the CPU goes on with the first thread after its own, in the order of the circle, that it can claim; tokens and current thread change as they should and nothing else does; without such a thread nothing changes |
| Smp.ExitAlone | kernel/thread.c:271-275 | a whole exit: only its thread's state changes |
| Smp.SpawnAlone | kernel/thread.c:239-262 | a whole spawn: the slot is runnable, free of affinity and token, and linked behind main_thread; nothing else changes |
| Smp.OnlineAlone | kernel/thread.c:361-373 | a CPU that comes online runs its idle thread and holds its token |
| Smp.LockWaits | include/verve/spinlock.h:21-43 | a CPU that finds the lock taken waits, changing nothing, and tries again once it is free |
| Smp.NoSharing | kernel/thread.c:281-323 | no thread is current on two CPUs, and each runs where its affinity allows, at every memory access |
| Smp.FreeLock | kernel/thread.c:361-373 | whenever the lock is free, a current thread's token is its CPU (except between thread_ap_online's two stores) and every other runnable thread has token -1 |
| Smp.PickComplete | kernel/thread.c:112-134 | pick_next returns the current thread only if nothing else in the ring could be claimed, and never for a zombie |
| Smp.PickEnds | kernel/thread.c:112-134 | pick_next's distance to go falls with each of its steps and no other CPU's step raises it |
| Pmm.BitSet | kernel/pmm.c:33-42 | setting a bit of a byte sets that bit and no other |
| Pmm.BitCleared | kernel/pmm.c:44-53 | clearing a bit of a byte clears that bit and no other |
| Pmm.AllocOk | kernel/pmm.c:175-187 | allocation takes the least free frame, never 0, page aligned, removes it alone from the free set, and fails exactly when no other than frame 0 is free |
| Pmm.AllocReleased | kernel/pmm.c:175-205 | freeing what was just allocated restores the whole bitmap |
| Pmm.ReleaseOk | kernel/pmm.c:189-205 | freeing adds exactly the named frame, and nothing for an unaligned, zero or out-of-range address |
| Pmm.HeldUntilFreed | kernel/pmm.c:175-205 | over any run, a frame handed out is not handed out again until it is freed |
| Pmm.Allocator.MarkUsed | kernel/pmm.c:72-86 | removes exactly the frames that overlap the range |
| Pmm.Allocator.MarkFree | kernel/pmm.c:88-102 | adds exactly the tracked frames that overlap the range |
| Pmm.Allocator.AllocFrame | kernel/pmm.c:175-187 | the scan of the bitmap is the abstract allocation |
| Pmm.Allocator.FreeFrame | kernel/pmm.c:189-205 | the bit store is the abstract release |
| PageTables.MapPageOk | arch/i386/paging.c:214-249 | a mapping changes the translation of one virtual page, in its directory and those sharing the table; it fails exactly when a table is missing and no frame is left, and then nothing at all changes |
| PageTables.MapPageInv | arch/i386/paging.c:214-249 | tables stay frames in use that are no directories, shared only where boot_pd's slot is shared |
| PageTables.NewTable | arch/i386/paging.c:228-241 | a mapping changes no directory entry but that of a missing table, which becomes present, writable and the kernel's, and names a frame that was free |
| PageTables.Isolation | arch/i386/paging.c:193-249 | under a slot boot_pd left empty, a mapping in one directory affects no other directory |
| PageTables.Private | arch/i386/paging.c:193-249 | a mapping in a clone changes no other directory's translation if and only if the slot is not shared with boot_pd or boot_pd has that entry already |
| PageTables.CloneShares | arch/i386/paging.c:193-212 | under every slot that boot_pd has filled, a mapping in a new clone is one in boot_pd as well |
| PageTables.CloneOk | arch/i386/paging.c:193-212 | a clone is a new directory that translates as boot_pd does, and no other translation changes; failure changes nothing |
| Brk.GrowOk | kernel/proc.c:66-80 | growth succeeds exactly when the frames left cover the pages and, if missing, the table; success consumes exactly those, and failure consumes all but at most one |
| Brk.SysBrkOk | kernel/proc.c:43-85 | brk moves exactly for an aligned, larger, in-range request that the frames cover; it never falls, stays aligned and in range; -12 exactly without a directory or for such a request that the frames do not cover, -22 exactly for a misaligned, smaller or out-of-range one, and the break otherwise |
| Brk.RunOk | kernel/proc.c:38-85 | over any calls, failed and repeated ones included, every page below the break has a present, writable, user leaf to a frame that no other such page and no table uses; between resets the break never falls |
| Brk.InitOk | kernel/proc.c:19-26 | the process starts in that invariant |
| Brk.ResetEmpties | kernel/proc.c:38-41 | a reset puts the break at 0x80002000, leaves the address space alone and keeps the invariant; the heap's bounds as page numbers |
| Brk.GrowPrivate | kernel/proc.c:66-80 | growth in a directory that does not share boot_pd's heap table, complete or not, changes the translation of no page but those asked for, and of no other directory |
| Brk.SysBrkPrivate | kernel/proc.c:43-85 | the same for a call, from the old break to the address |
| Brk.RunPrivate | kernel/proc.c:38-85 | the same for any calls and resets, within the heap's pages |
| Brk.InitOwn | kernel/proc.c:19-26 | a new process's directory is such a one exactly when boot_pd has no table over the heap |
| PagingCode.IdentityDomain | arch/i386/paging.c:84-127 | for which of all 32-bit max_pfn the identity map is built, refused, or empty through wrap-around |
| PagingCode.Machine.IdentityInit | arch/i386/paging.c:84-127 | it succeeds exactly on that domain, and then the walk over the tables it filled is the identity on frames 0..max_pfn and nothing else; every directory entry is empty or present, writable and the kernel's |
| PagingCode.Machine.CloneKernelPd | arch/i386/paging.c:193-212 | the copying loop is the abstract clone |
| PagingCode.Machine.MapPage | arch/i386/paging.c:214-249 | the word stores are the abstract mapping, failures included |
| PagingCode.Machine.PteFetch | arch/i386/paging.c:143-161 | the two-level read is the translation |
| PagingCode.Machine.UserRangeOk | arch/i386/paging.c:163-191 | true exactly when every byte's leaf entry is present, user and, for writes, writable, for every range that does not reach the last page; and exactly when it answers false or never answers for one that does |
| PagingCode.LeafTest | arch/i386/paging.c:178-187 | the bits that the check looks at: present, user and, for writes, writable |
| PagingCode.Endless | arch/i386/paging.c:163-191 | a memory in which every page of a directory is the user's, so that the check does not end |
| PagingCode.BootPageZero | arch/i386/paging.c:84-127 | a directory with the boot map's page 0 is not such a one |
| PagingCode.Machine.InitSingleton | kernel/proc.c:19-26 | the process's directory is a clone and the break is at its base |
| PagingCode.Machine.SysBrk | kernel/proc.c:43-85 | the loop over frames and tables is the abstract call, partial failures included |
| Paging64.Built | arch/x86_64/paging_amd64.c:30-73 | three levels with these entries translate, by the hardware's walk, exactly the first n pages of 2 MiB, each to itself |
| Paging64.Tables.IdentityInit | arch/x86_64/paging_amd64.c:30-73 | it succeeds exactly for 0 < span <= 64 GiB, and then the walk maps precisely the 2 MiB pages that the span touches, to themselves and writable at every level |
| BootInfos.WalkEncoded | kernel/mboot2.c:5-58 | for any list of tags with sizes in multiples of 8 and an end tag, anywhere in memory, the walk visits exactly the memory-map entries, in order |
| BootInfos.FindEncoded | kernel/mboot2.c:147-184 | the search of such an info finds the first tag of a type, with its payload, or none exactly when there is none |
| BootInfos.EncodedFits | kernel/mboot2.c:16-51 | on either build, such an info that ends its own length below the top of the address space is walked without a wrapping sum |
| BootInfos.NeverEnds | kernel/mboot2.c:16-24 | with 32-bit pointers, every walk of an info with tag size 0xFFFFFFF8 in its second tag goes round for ever |
| BootInfos.RunawayRejected | kernel/mboot2.c:16-24 | the exact walk rejects that info |
| BootInfos.ReadsBelow | kernel/mboot2.c:36-50 | with 32-bit pointers, an entry size of 0xFFFFFFF0 gives the callback entries from below the info, where the exact walk has none |
| Mboot2.StepWraps | kernel/mboot2.c:16-51 | a step on pointers is the exact step if and only if its sum does not wrap |
| Mboot2.SameSteps | kernel/mboot2.c:5-58 | a whole walk on pointers is the exact walk, step for step, if and only if none of its sums wraps |
| Mboot2.CodeWalks | kernel/mboot2.c:5-58 | where no sum wraps, the walk on pointers ends with the result and the entries of the recursive reading |
| Mboot2.CodeSeeks | kernel/mboot2.c:147-184 | the same for the search of a tag |
| Mboot2.RoomyFits | kernel/mboot2.c:16-51 | an info that ends 2^32 below the top of the address space has no wrapping sum, whatever its bytes |
| Mboot2.WalkMmapEntries | kernel/mboot2.c:5-58 | on any bytes whose walk makes no wrapping sum, the loops end, read in bounds, and agree with the recursive reading of the tag chain |
| Mboot2.SumUsableRam | kernel/mboot2.c:60-83 | the sum is the total of the visited entries modulo 2^64 |
| Mboot2.TotalOne | kernel/mboot2.c:64-72 | an entry of type 1 adds its length, any other nothing |
| Mboot2.TotalConcat | kernel/mboot2.c:64-72 | totals add up |
| Mboot2.TotalOfAvailable | kernel/mboot2.c:60-145 | the total is that of the regions which mb2_for_each_available hands out |
| BootInfos.SumEncoded | kernel/mboot2.c:60-83 | for an encoded info it is the sum of the lengths of its type-1 entries |
| Mboot2.Refusals | kernel/mboot2.c:5-46 | which total sizes, tag sizes, memory-map tags and entry sizes the walkers refuse, and what ends a walk well |
| Mboot2.ReadBasicMeminfo | kernel/mboot2.c:85-122 | the two fields of the first basic-meminfo tag, and failure exactly when there is none or it is short |
| Mboot2.ForEachAvailable | kernel/mboot2.c:124-145 | the callback sees exactly the available, non-empty entries, in order |
| Mboot2.FindAcpiTag | kernel/mboot2.c:147-184 | the first tag of the type, when it has a payload, which lies in the info |
| BootInfos.PayloadEncoded | kernel/mboot2.c:147-184 | for an encoded info, the bytes found are the payload of the first tag of the type |
| Mboot2.FindRsdpPayload | kernel/mboot2.c:186-217 | the new RSDP's payload bytes if there is one, else the old one's, if they fit |
| BootInfos.RsdpEncoded | kernel/mboot2.c:186-217 | for an encoded info, those bytes are the payload of the first type-15 tag, or without one the first type-14 tag's |
| BootInfos.MeminfoEncoded | kernel/mboot2.c:85-122 | for an encoded info, the two words are the first two of the payload of the first type-4 tag |
| BootMemory.PmmInit | kernel/pmm.c:124-163 | from the bytes of the boot info to the free set: when info and bitmap are apart, a frame is free exactly when a region frees it, it is not frame 0, and kernel image, info and bitmap do not reach into it; when the bitmap covers the start of the info, failure; when the info starts below the bitmap and runs into it, no frame of those three is free, on amd64 only: on i386 that placement is outside the contract |
| BootMemory.Spoiled | kernel/pmm.c:133-142 | a memory with a well-formed info that meets all that pmm_init relies on and in which the bitmap covers the start of the info |
| BootPaging.Start | kernel/main.c:89-110 | pmm_init and then the identity map of pmm_max_pfn: exactly when the two succeed, that the page tables are then sound, and that with at most 131072 frames every free frame is mapped to itself |
| BootMemory.WalkAgain | kernel/pmm.c:117-142 | the second walk, whose callbacks write the bitmap between its loads, is the first one again when info and bitmap are apart, fails on a spoiled total size, and writes the bitmap alone |
| BootMemory.Filled | kernel/pmm.c:135-139 | the fill spoils the info's total size exactly when it covers the info's first byte |
| BootMemory.Reserve | kernel/pmm.c:144-160 | exactly the frames of the kernel image, the info and the bitmap, and frame 0, leave the free set |
| BootMemory.WholeRegions | kernel/pmm.c:108-122 | regions that do not reach the top of the address space are freed whole, and all their frames are counted |
| BootMemory.LastFrame | kernel/pmm.c:129-134 | the count is that of the last frame in which a region ends, and the bitmap has just the bytes for it |
| DeferRing.PushQueues | kernel/sched.c:44-57 | the ring with its wrapping indices is a queue of at most 15; a push to a full one counts a drop instead |
| DeferRing.CountsBalance | kernel/sched.c:44-149 | over any run of fewer than 2^64 ticks, ticks/5 = drained + reported dropped + waiting + drops pending + 2^32 for each time that the count of drops wraps |
| DeferRing.BooksBalance | kernel/sched.c:44-149 | the books balance over such a run if and only if its schedule never lets 2^32 + 15 fifth ticks pass without a drain |
| DeferRing.DropsLost | kernel/sched.c:44-57 | from boot and without a drain, 2^32 fifth ticks are lost at tick 5 * (2^32 + 15) and none before |
| DeferRing.RunConserves | kernel/sched.c:74-149 | over any run of fewer than 2^32 ticks the drained ticks ascend, all distinct multiples of 5, and the count balances |
| DeferRing.DrainSettles | kernel/sched.c:95-149 | after a drain every fifth tick has been drained or reported |
| DeferRing.Scheduler.TimerTick | kernel/sched.c:34-93 | one abstract tick on the entry of the CPU with that index, entry 0 for an index out of range, and no other entry changes |
| DeferRing.FlagsAndTicks | kernel/sched.c:74-149 | every tick counts one, every fifth asks for a reschedule, and a drain empties ring and count and leaves the rest |
| DeferRing.Scheduler.DeferPushTick | kernel/sched_amd64.c:32-45 | one abstract push on this CPU's entry alone |
| DeferRing.Scheduler.ProcessDeferred | kernel/sched.c:95-149 | the loop takes out exactly the queue of the CPU with that index, oldest first, reports exactly its drops, and changes no other entry |
| DeferRing.Scheduler.ClearReschedFlag | kernel/sched.c:161-164 | the flag of the CPU with that index is cleared, and nothing else changes |
| RamFs.Strcmp | kernel/vfs_ram.c:56-64 | zero exactly for equal names; otherwise the difference at the first place where they differ |
| RamFs.FindOk | kernel/vfs_ram.c:90-100 | the first file of that name, or none exactly when no file has it |
| RamFs.Vfs.Find | kernel/vfs_ram.c:90-100 | the loop of string comparisons is that search |
| RamFs.Vfs.CopyUserPath | kernel/vfs_ram.c:66-88 | the loop is the abstract copy |
| RamFs.CopiedPath | kernel/vfs_ram.c:66-88 | what is copied are the user's bytes up to the first NUL, or 95 of them; the copy faults exactly when one of those cannot be read |
| RamFs.Vfs.UfdAlloc | kernel/vfs_ram.c:118-132 | the first free descriptor, or EMFILE |
| RamFs.RunOk | kernel/vfs_ram.c:149-248 | under any interleaving of open, read and close, the bytes read on each descriptor are a prefix of its file as long as its position |
| RamFs.Separate | kernel/vfs_ram.c:149-248 | each call changes its own descriptor alone; open takes the lowest free one; EMFILE only with all twelve in use |
| RamFs.OpenNames | kernel/vfs_ram.c:167-184 | a descriptor from 3 to 14 that reads, from its start, the first file of the name; -14 exactly for a faulting path, -2 exactly when no file has the name, -24 exactly when the name is found and all twelve are used |
| RamFs.ReadAnswers | kernel/vfs_ram.c:186-233 | the answer is the number of bytes copied and by which the position grows: the least of the length, 4096 and what is left; -9 exactly when the descriptor is not open, -14 exactly for an open one, a positive length and a bad buffer |
| RamFs.CloseEnds | kernel/vfs_ram.c:235-248 | a close ends its own descriptor and nothing else |
| RamFs.OpenThenUse | kernel/vfs_ram.c:167-248 | what has been opened by name reads that file's bytes from the start, and answers -9 after a close |
| RamFs.EndOfFile | kernel/vfs_ram.c:186-233 | a read that returns 0 for a positive length has reached the end: all of the file has been read |
| RamFs.Vfs.OpenU | kernel/vfs_ram.c:167-184 | on the table, one abstract open, faults and missing files included |
| RamFs.Vfs.ReadU | kernel/vfs_ram.c:186-233 | on the table and user memory, one abstract read: exactly the next chunk is copied, and no other user byte changes |
| RamFs.Vfs.RangeCheck | arch/i386/paging.c:163-191 | the page check ends and is true exactly when every page of the range is in the set and the range stops short of the last page |
| VfsPaging.UserRange | arch/i386/paging.c:163-191 | on the page tables of a directory whose page 0 is the kernel's, the check answers as on the set of the pages that they map for user code |
| RamFs.Vfs.CloseU | kernel/vfs_ram.c:235-248 | one abstract close |

## Left out

- BootMemory.PmmInit: when the info starts below the bitmap and runs into it, which frames are freed depends on the spoiled bytes and is not stated, only that no frame of kernel image, info or bitmap is. On i386 the contract excludes that placement outright, because the second walk's sums over spoiled bytes may wrap and it need not end; on amd64 it excludes it only in the last 4 GiB of the address space.
- BootPaging.Start: the tables' words and the bitmap's bytes are separate memories, and `heap_init` and `verve_vfs_init`, which touch neither, are not called in between.
- Sched.RunInv: one CPU, as in the amd64 build; every pool thread has affinity ANY, because no idle threads are made for one CPU.
- Smp.RunInv: no reaping, no heap and no saved stack pointers on several CPUs; the code does not serialise `g_yield_from` and the heap there. Only CPU 0 spawns, as in the kernel.
- Smp.EarlyInit: threads' stacks are only counted, not laid out in memory.
- RamFs.Vfs.ReadU: the page tables are a set of user pages without page 0; `VfsPaging.UserRange` ties it to the tables. Directories that map page 0 for user code, for which the check may not end, are left to `PagingCode.Machine.UserRangeOk`.
- DeferRing.RunConserves: the stored ticks are 32-bit ones, so their order is stated below 2^32 ticks only.
- The i386 `cpu_switch` with four registers: the same argument on smaller frames.
- `mmio_pt_for_pd`, `paging_map_identity_page`, `paging_pte_set_user`: the slot tables lie in an unaligned structure, and rounding their address does not name the same table.
- `verve_exec_flat_run`, ACPI and MADT parsing, `pmm_frame_count` and the highest-frame query: nothing harder than what is here.
- The kernel-space VFS helpers and self-test, `schedule`, `sched_checkpoint` and the resched flag's other readers: thin wrappers.
- Serial, VGA, PIC, PIT, LAPIC, I/O APIC, GDT/IDT, boot and interrupt assembly, the SMP trampoline, interrupt flags (taken as atomic sections) and `invlpg`: hardware with no state in this model.
- The thread bodies and demos: a thread is any sequence of steps on its own stack and calls of the kernel.
