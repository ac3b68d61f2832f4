# A verified model of the hooking engine

This project models the parts of the hooking engine whose correctness rests on invariants over whole runs, and proves those invariants in Dafny.

- **Memory near a target.** `Ranges`, `RangeHeap` and `RangeAllocator` model `BoundedRangeAllocator`: a first-fit allocator over a sorted vector of half-open ranges that coalesces on one side at a time, splits, leaves empty ranges behind, forgets small fragments and keeps two cached hints. `MemoryRegions` and `RegionAllocation` model how new memory is found in the process's memory map, `PodVectors` the vector underneath.
- **The lock.** `PodMutex` models the three-state futex lock as a system of N threads.
- **The hooks of one target.** `HookLists` models the temporary hooks of one function type and library - their list, its lock and its counter - and `HookChain` how static hooks and the dispatchers of any number of such lists share one thunk pointer by compare-and-exchange; `LinkedSlabs` the list as it is stored, `HookKeys` that the two agree; `ScopeExit` the end of a hook scope.
- **Installing.** `ShortJump` and `HookSites` model the jump's encoding, the analysis of the overwritten instructions and the window for their copies; `ThreadSuspension` the suspension of all other threads and the relocation of their instruction pointers; `OsMemory` the allocation of memory near a target, `Trampolines` the thunk and the copies of the overwritten instructions, `ThunkTables` the table of hooked functions, `Installer` the whole of `install` with its retries.

Code that updates state in place is a class or a method proved against a specification (`RangeAllocator`, `LinkedSlabs`, `MemoryRegions`, `RegionAllocation`, `OsMemory`, `PodVectors`, `Trampolines`, `Installer`, the loops of `ShortJump` and `HookSites`). Protocols between threads are step machines: `Next` performs one atomic step and does nothing when the step is not enabled, so that every sequence of actions is an interleaving and `Run` ranges over all of them. Ghost state (`live`, `adopted`, `forgotten`, `log`, `content`, `patches`) records what the program itself does not store.

## Where the code differs from what it promises

- **The cached hints are not transparent.** `alloc_layout_inside_bounds` clips the upper bound with the cached highest end (`abi/src/context/process.rs:320-322`), and the scan only tries ranges that start strictly below the bound (`:379`, with the early rejection at `:338`). A range whose only fitting address is its own start and the clipped bound is therefore refused although it is free: `RangeAllocator.HintsCanRefuseTheOnlyFit` gives the input, reached by one adoption, and `RangeAllocator.HintsOnlyRefuseAtTheTop` proves that this is the only case in which the hints change the answer.
- **Adopting new memory does not always help.** For the same reason the second `alloc_near` of `os_alloc_near` (`src/installer/arch.rs:177-188`) can fail right after memory was mapped for it. `OsMemory.TopRegionIsRefused` gives the input; `OsMemory.AdoptedRegionServes` proves for unaligned layouts that it fails if and only if the range holding the new region starts at the highest address tried and nothing fits before it.
- **Code behind a return can be overwritten.** `analyze` adds an instruction's length before it looks whether the instruction is padding (`src/installer/arch/x86_64/hook_site.rs:70-77`), so a non-padding instruction behind a branch counts towards the five bytes. `HookSites.CodeBehindReturnIsOverwritten` gives the input, `HookSites.OverwriteIsSafeUnlessCodeIsCounted` proves that every overwritten byte belongs to a kept instruction or to padding if and only if that does not happen.
- **Relocations are not always undone.** `undo_relocs` (`src/installer/arch/os/thread.rs:21-32`) takes the first relocation with the thread's address as destination. Two relocations share a destination where the fallback at `src/installer/arch/x86_64/hook_site.rs:213-229` answers the same address twice; then the second source is put back at the first (`ThreadSuspension.SharedDestinationIsNotUndone`). `ThreadSuspension.UndoRestoresExactlyWhen` gives the exact condition on any list, `ThreadSuspension.FailedPatchMovesNobody` what it means for a thread after a failed patch.
- **A refused spot is offered again.** After a refusal `alloc_between` advances `cur_alloc_addr` by one page, which according to its comment may still serve within the same region (`src/installer/arch/os/memory.rs:156-160`). The next pass over the same map starts from the same gap and finds the very same spot (`RegionAllocation.SameGapOffersSameSpot`); in the last gap it does so for ever (`RegionAllocation.LastGapIsRetriedForever`). `RegionAllocation.OtherPagesAreNeverTried` gives an input with eight serving pages, of which only the first is tried.
- **A hook being dropped hides live ones.** Between the decrement and the removal in `Hook::drop` (`src/hook/temp.rs:267-270`) the hook is still in the list, but its body can no longer upgrade its handle. A call that meets it does not get past it, so an older hook that is live is not run: `HookChain.DroppingHookHidesLiveOne` gives the run, `HookChain.LiveHookRunsExactlyWhen` proves that this is the only case in which a live hook is not passed.

## Model

| member | source | states |
|---|---|---|
| RangeHeap.EveryRunKeepsTheHeap | abi/src/context/process.rs:206-445 | over every run of adopting fresh memory, allocating, reclaiming and splitting live blocks: the list stays sorted with its empty ranges, no range (empty or not) meets a live block, live blocks are disjoint, adopted bytes = free + live + forgotten, and at most seven bytes are forgotten per adoption, reclaim or successful allocation |
| RangeHeap.AllocationsNeverOverlap | abi/src/context/process.rs:327-445 | after any run an allocated block consists of adopted bytes that no live block, no forgotten byte and no remaining free range shares |
| RangeHeap.ReclaimUndoesAllocate | abi/src/context/process.rs:206-259 | a non-empty block given back at once restores free, live, forgotten and adopted bytes except for the forgotten split fragment, which is shorter than MIN_RANGE_LEN |
| RangeHeap.BlockRejoins | abi/src/context/process.rs:223-244 | the block just carved always finds a neighbour to grow again, so it is never dropped for being small |
| RangeHeap.BlockRestoresList | abi/src/context/process.rs:223-244 | giving a block back restores the very list of ranges it was carved from if it was carved at the start, or at the end and no neighbour begins there; otherwise it is the upper neighbour that has grown down |
| RangeHeap.AdoptKeepsHeapOk | abi/src/context/process.rs:206-245 | adopting fresh memory or a returned live block keeps order, separation, hints and byte conservation |
| RangeHeap.TakeKeepsHeapOk | abi/src/context/process.rs:401-441 | carving a block at the start, at the end or in the middle, even an empty one, keeps the same invariant |
| RangeHeap.CutKeepsHeapOk | src/installer/arch/x86_64/hook_site.rs:144-177 | a client that splits its block may give the halves back separately |
| Ranges.InsertKeepsOrder | abi/src/context/process.rs:223-244 | inserting or growing at the partition point keeps `start <= end <= next start` |
| Ranges.InsertBytes | abi/src/context/process.rs:223-244 | the free bytes gain exactly the range, or nothing when it is forgotten |
| Ranges.InsertMergesTouching | abi/src/context/process.rs:223-244 | a range that touches a neighbour makes it grow and adds none: the upper one down if both touch, else the lower one up; one that touches nothing is inserted from eight bytes on, and otherwise forgotten |
| Ranges.CarveBytes | abi/src/context/process.rs:401-441 | free bytes split into block, forgotten fragment and what stays free, without overlap |
| Ranges.PlaceIsExact | abi/src/context/process.rs:382-420 | a range offers an address if and only if an aligned one within the bounds holds the block, and the preferred end is really at that end |
| Ranges.PlacePrefersAnEnd | abi/src/context/process.rs:401-420 | an unaligned block goes to the start of its range if it fits there, else to the end; an aligned one to the end first, then to the start; only when neither fits the range is split, at the lowest address that fits |
| Ranges.FirstFitIsExact | abi/src/context/process.rs:369-399 | the scan finds the first range that has a fit and starts below the upper bound; None means there is none |
| RangeAllocator.AllocNearIsExact | abi/src/context/process.rs:295-342 | for non-empty layouts: a block found is aligned, inside one free range, at an offset allowed by the bounds as unbounded integers despite saturation; a refusal means that no range starting strictly below the rounded upper bound holds such a block |
| RangeAllocator.HintsOnlyRefuseAtTheTop | abi/src/context/process.rs:320-342 | the cached hints change the plain scan's answer exactly when the range it would use starts at the clipped, rounded bound |
| RangeAllocator.HintsCanRefuseTheOnlyFit | abi/src/context/process.rs:320-342 | an allocator after one adoption in which the hints refuse the one block the plain scan would hand out |
| RangeAllocator.BoundedRangeAllocator.AdoptRange | abi/src/context/process.rs:206-245 | the class refines `AdoptHeap`, growing a touched neighbour where it does, and keeps its invariant |
| RangeAllocator.BoundedRangeAllocator.Reclaim | abi/src/context/process.rs:250-259 | giving a live block back is adopting it, so that it grows its neighbour again, and it is no longer live |
| RangeAllocator.BoundedRangeAllocator.FindRange | abi/src/context/process.rs:368-399 | the probing loop answers the first fit of the specification with the bounds it computed |
| RangeAllocator.BoundedRangeAllocator.CarveFrom | abi/src/context/process.rs:401-441 | the in-place update is `Carve` at the placement of the specification |
| RangeAllocator.BoundedRangeAllocator.AllocLayoutBetween | abi/src/context/process.rs:327-445 | new state and answer are those of the specification, whose exactness is proved |
| RangeAllocator.BoundedRangeAllocator.AllocNear | abi/src/context/process.rs:267-325 | the same for the offset bounds around an address |
| PodMutex.EveryInterleavingIsSafe | abi/src/sync/pod.rs:54-110 | for any number of threads and any interleaving: at most one holder, the word is UNLOCKED exactly when there is none, and whenever a thread sleeps the word is CONTENDED or another contender or waker is on its way |
| PodMutex.NextKeepsMutualExclusion | abi/src/sync/pod.rs:54-110 | every single step keeps mutual exclusion |
| PodMutex.NextKeepsWakeups | abi/src/sync/pod.rs:54-110 | every single step, spurious returns and wake-ups included, keeps the no-lost-wakeup invariant |
| PodMutex.StuckIffIdle | abi/src/sync/pod.rs:54-110 | a step of progress is enabled exactly if some thread has not left the lock yet |
| PodMutex.UncontendedLock | abi/src/sync/pod.rs:54-110 | in every reachable state a free lock that is taken at once reads LOCKED, and unlocking it leads back to that state, waking nobody |
| PodMutex.ContendersLeaveAsHolders | abi/src/sync/pod.rs:54-110 | a contender stops contending only by taking the free lock, and a holder leaves only by unlocking, which wakes exactly if the word is CONTENDED |
| PodMutex.LockDrains | abi/src/sync/pod.rs:54-110 | without new calls and spurious returns every run is bounded and can only end with every contender served |
| HookChain.CallIsComposition | src/hook/temp.rs:111-189 | in every reachable state with any number of lists, outside the locked moment between a push and its count, a call to the target means: static hooks and, where a dispatcher was exchanged in, the temporary hooks of its list, newest first, up to one whose handle is being dropped, around the trampoline; without a hook being dropped these are all hooks of the list |
| HookChain.LiveHookRunsExactlyWhen | src/hook/temp.rs:218-258 | a live hook is among those a call of its dispatcher passes if and only if no hook in front of it is being dropped; the counter's fast path never hides one |
| HookChain.DroppingHookHidesLiveOne | src/hook/temp.rs:265-271 | a run after which a call meets only the newer hook, whose drop has begun, and not the older one, which is live |
| HookChain.InstalledHooksStay | abi/src/fn_ptr.rs:69-82 | a hook whose exchange succeeded is in the chain for ever, and its original is exactly the pointer it replaced, the dispatcher's included |
| HookChain.StaticExchange | abi/src/fn_ptr.rs:69-82 | in every reachable state a static hook that has loaded a pointer is put in front by its exchange exactly if that is still the current one and the failure is not spurious; then calls run it first, with the old pointer as its original; otherwise it has loaded the current pointer |
| HookChain.StaticHookIsInstalled | src/hook/leak.rs:80-109 | from every reachable state a new static hook is in front and ready after four undisturbed steps |
| HookChain.DispatcherExchange | src/hook/temp.rs:141-189 | the same for the exchange of a dispatcher, which puts the temporary hooks of its list in front |
| HookChain.DispatcherIsInstalled | src/hook/temp.rs:141-189 | from every reachable state a claimed dispatcher is in front and published, with the pointer it replaced as its original and its list's, after four undisturbed steps |
| HookChain.TempHookBecomesLive | src/hook/temp.rs:111-138 | once the dispatcher is published, a temporary hook is live after five undisturbed steps: it is counted, first in the list, holds the dispatcher's original, and is the first hook calls of the dispatcher meet, in front of those they met so far |
| HookChain.DroppedHookIsGone | src/hook/temp.rs:265-271 | a live hook is out of the list and out of the count after three undisturbed steps of its drop; all others stay in order |
| HookChain.FastPathSkipsOnlyDropped | src/hook/temp.rs:218-235 | a live hook that reads a counter of zero or less skips only hooks already being dropped |
| HookChain.FastPathAgreesWithLookup | src/hook/temp.rs:218-258 | if the next hook is not being dropped, counter and list lookup give the same answer |
| HookChain.CounterCountsLiveHandles | abi/src/context/library.rs:57-83 | in every interleaving each list's counter, which starts at -1, is the number of its counted handles whose drop has not begun, less one, and every live hook is listed |
| HookChain.NextKeepsChain | src/hook/leak.rs:80-109 | every step, lost exchanges included, keeps the chain of originals intact |
| HookKeys.SlabLooksUpTheList | src/hook/temp.rs:237-258 | different listed hooks have different slab keys, and `first`, `get` and `get_next` under them are head, element and successor of the list |
| HookKeys.PushHook | src/hook/temp.rs:117-137 | pushing a hook under any vacant, possibly reused key is the push of the protocol step; all other keys stay |
| HookKeys.RemoveHook | src/hook/temp.rs:265-271 | removing the key stored in the handle is the removal of the protocol step; all other keys stay |
| LinkedSlabs.LinkedSlab.PushFront | abi/src/linked_slab.rs:75-90 | the new key is put in front of the sequence of keys and of items; all links stay mutual inverses |
| LinkedSlabs.LinkedSlab.Remove | abi/src/linked_slab.rs:92-109 | removes exactly the given key from any position and answers its item; an absent key changes nothing |
| LinkedSlabs.LinkedSlab.Iter | abi/src/linked_slab.rs:111-118 | the walk terminates and yields every item once, in order |
| LinkedSlabs.LinkedSlab.GettersFollowTheSequence | abi/src/linked_slab.rs:41-73 | `first` is the head, `get` the key's own item, `get_next` the successor's, and None off the list |
| LinkedSlabs.WithoutKeepsOthers | abi/src/linked_slab.rs:92-109 | removing a key keeps all others and their successors, bridging only the gap |
| ScopeExit.NoBodyOutlivesTheScope | src/hook/scoped.rs:46-79 | once the scope has returned, no scoped hook body runs, none can ever start, and a surviving handle's call goes to the original |
| ScopeExit.CallRunsBodyWhileHeld | src/hook/scoped.rs:136-179 | in every reachable state a call of a hook that the scope or another call still holds runs its body, any other goes to the original; while the scope is open it holds all its hooks |
| ScopeExit.ParkedMainWillBeWoken | src/hook/scoped.rs:136-179 | while the main thread is parked, a hook nobody holds has its unpark coming or the token set, any other has a call that has yet to let go |
| ScopeExit.ScopeExitCompletes | src/hook/scoped.rs:62-78 | without new calls and spurious wakeups the exit takes a bounded number of steps and is never stuck before it has returned |
| ThreadSuspension.CountIsExact | src/installer/arch/os/linux.rs:436-477 | the suspend count is always the number of listed threads not yet accounted for, and no thread is accounted for twice |
| ThreadSuspension.SuspendedUntilResumed | src/installer/arch/os/linux.rs:613-628 | after the collection every thread with a valid id is inside the handler and stays there until it is resumed |
| ThreadSuspension.ResumesAtRelocatedAddress | src/installer/arch/os/linux.rs:522-544 | in every run, the step that resumes a thread leaves its instruction pointer at the relocated address of where it stood, or at the moved-back address if the relocations were undone |
| ThreadSuspension.EntryDecidesExit | src/installer/arch/os/linux.rs:613-628 | from the step in which a thread enters the handler to the one that resumes it, in any run, its instruction pointer does not change, and what it resumes with is determined by it, the relocations and whether they were undone |
| ThreadSuspension.UntrackedForACause | src/installer/arch/os/linux.rs:436-477 | a thread is taken off the list only if its signal could not be sent or it is dead; a signal sent is queued for it, and handling it puts the thread into the handler where it stood |
| ThreadSuspension.FailedPatchMovesNobody | src/installer/arch/os/thread.rs:19-47 | after a failed patch a thread resumes with the instruction pointer it was interrupted with if and only if its address comes back; with distinct sources and destinations, if and only if it is a source or no destination |
| ThreadSuspension.ExchangeDecides | src/installer/arch/x86_64/hook_site.rs:242-257 | in every run, whichever thread leaves the handler after the exchange made under suspension, its instruction pointer is that of its copy if the exchange succeeded, and the moved-back one if it failed |
| ThreadSuspension.QueuedSignalsAreNeverStray | src/installer/arch/os/linux.rs:613-628 | a live thread's queued signal always meets the suspension it was sent for |
| ThreadSuspension.SpinLoopHasACause | src/installer/arch/os/linux.rs:436-477 | as long as the count is not zero, some listed thread can still enter the handler or has died and will be probed |
| ThreadSuspension.SuspensionCompletes | src/installer/arch/os/linux.rs:436-477 | whatever the threads do, the steps of the protocol other than the spin itself are bounded, and until every tracked thread has gone on one of them is enabled after at most two passes of the spin |
| ThreadSuspension.PrefilterIsTransparent | src/installer/arch/os/linux.rs:400-434 | the minimum-maximum test never changes where an address goes |
| ThreadSuspension.UndoRestoresExactlyWhen | src/installer/arch/os/thread.rs:21-32 | for any list of relocations, undoing restores an address if and only if no relocation before its own shares its destination, or it is neither source nor destination |
| ThreadSuspension.SharedDestinationIsNotUndone | src/installer/arch/os/thread.rs:21-32 | two relocations to one destination: the thread at the second source is put back at the first |
| ThreadSuspension.UndoInvertsRelocation | src/installer/arch/os/thread.rs:21-32 | with distinct sources and distinct destinations it restores an address if and only if it is a source or no destination |
| ShortJump.LeRoundTrips | src/installer/arch/x86_64.rs:283-302 | the conversions of i32 are inverse to each other, and little-endian |
| ShortJump.ShortEncodingRange | src/installer/arch/x86_64.rs:283-302 | the loop's interval holds exactly the displacements whose bytes beyond the first instruction are the site's own |
| ShortJump.ShortRangeIsExact | src/installer/arch/x86_64.rs:283-302 | the same for all site bytes and all instruction lengths, as an if-and-only-if |
| ShortJump.LongInstructionAllowsAll | src/installer/arch/x86_64.rs:266-267 | from five bytes on the interval is the full range of a rel32 jump |
| ShortJump.ShortJumpPatchesOneInstruction | src/installer/arch/x86_64.rs:272-302 | for a thunk at an allowed offset, encoding does not panic, the bytes are a jump (0xe9 and the displacement from behind it) that lands on the thunk, and the exchanged word changes only bytes of the first instruction |
| ShortJump.AllocatedThunkIsReachable | src/installer/arch/x86_64.rs:209-240 | hence the same for whatever block the allocator answers |
| ShortJump.Detour | src/installer/arch/x86_64/hook_site.rs:260-273 | patches if and only if the eight bytes at the target are still the analyzed ones; nothing but the first five of them changes |
| HookSites.Analyze | src/installer/arch/x86_64/hook_site.rs:44-120 | what is kept is uniquely determined, the recorded bounds are the extremes of the recorded addresses, and acceptance, rejection and decoding failure are characterised |
| HookSites.ScanInsns | src/installer/arch/x86_64/hook_site.rs:60-93 | the loop computes the kept prefix and covers the jump exactly if the instructions reach it |
| HookSites.FallThroughKeepsShortestPrefix | src/installer/arch/x86_64/hook_site.rs:60-120 | where control falls through, the kept instructions are the shortest prefix of at least five bytes and hold no branch |
| HookSites.OverwriteIsSafeUnlessCodeIsCounted | src/installer/arch/x86_64/hook_site.rs:70-77 | each of the five overwritten bytes belongs to a kept instruction or to valid padding, if and only if no code behind a branch and its padding was counted |
| HookSites.CodeBehindReturnIsOverwritten | src/installer/arch/x86_64/hook_site.rs:70-77 | a concrete accepted decoding of 19 bytes whose jump overwrites four bytes of an instruction behind a return |
| HookSites.WindowKeepsReach | src/installer/arch/x86_64/hook_site.rs:122-142 | for every buffer in the window, every instruction pointer in it and every recorded address, the difference fits in an i32, midpoint rounding included |
| HookSites.AllocatedBufferKeepsReach | src/installer/arch/x86_64/hook_site.rs:122-142 | hence the same for whatever buffer the allocator answers |
| MemoryRegions.SearchRecordingEnd | src/installer/arch/os/linux.rs:288-301 | the halving search's side effect ends as the highest region end not above the start |
| MemoryRegions.TilesAreGapless | src/installer/arch/os/linux.rs:303-352 | the tiles ascend without a gap up to at least the highest address |
| MemoryRegions.MappedTilesAreTheRegions | src/installer/arch/os/linux.rs:303-352 | the mapped tiles are the regions, each exactly once, in order |
| MemoryRegions.UnmappedTilesAreFree | src/installer/arch/os/linux.rs:303-352 | every other tile meets no region |
| MemoryRegions.RegionIter.Next | src/installer/arch/os/linux.rs:303-352 | each call yields the head of the remaining tiling |
| MemoryRegions.IterTilesAddressSpace | src/installer/arch/os/linux.rs:274-352 | over any sorted, disjoint map the iterator's tiles form such a tiling from the start address on |
| RegionAllocation.FirstSpotIsExact | src/installer/arch/os/memory.rs:116-176 | one pass finds a spot if and only if unmapped memory holds whole pages with room for the request, and the spot is such a room |
| RegionAllocation.FirstRoomIsLowest | src/installer/arch/os/memory.rs:116-176 | the spot found is the lowest there is, and ends no later than any other |
| RegionAllocation.GrantedIfThereIsRoom | src/installer/arch/os/memory.rs:116-176 | if the kernel grants what is asked for, memory is mapped exactly if unmapped whole pages anywhere have room for the request |
| RegionAllocation.WalkPass | src/installer/arch/os/memory.rs:130-176 | the loop over the tiles answers that spot |
| RegionAllocation.AllocBetween | src/installer/arch/os/memory.rs:116-176 | the reply is that of the search restarted one step behind each refused stop; a region returned is page-aligned, unmapped in the map of its pass and holds the requested bytes at an admissible address |
| RegionAllocation.SameGapOffersSameSpot | src/installer/arch/os/memory.rs:135-160 | from any two addresses with the same regions behind them the search finds the same spot |
| RegionAllocation.LastGapIsRetriedForever | src/installer/arch/os/memory.rs:135-160 | behind all regions, on an unchanged map, every restart meets the refused spot again, however many there are |
| RegionAllocation.OtherPagesAreNeverTried | src/installer/arch/os/memory.rs:135-160 | an empty map and a request that eight pages could serve, of which only the first is ever tried |
| OsMemory.OsAllocNear | src/installer/arch.rs:170-192 | a block returned is new, aligned and at an allowed offset; memory is mapped only after a refusal and serves the request; the second try then finds a block if and only if some range below the top has room for it, and for unaligned layouts always, except exactly when the new memory is only found at the highest address; on failure the live blocks are as before |
| OsMemory.BlockExactlyWhen | src/installer/arch.rs:170-192 | there is a block exactly if a range below the top has room for it, or has it after the kernel mapped memory near the target |
| OsMemory.AdoptedRegionServes | src/installer/arch.rs:170-192 | after adopting a region that serves the request, an unaligned allocation succeeds if and only if not the range holding it starts at the highest address tried with nothing fitting before |
| OsMemory.TopRegionIsRefused | src/installer/arch.rs:170-192 | a page mapped for exactly its first address serves the request and is adopted, and the allocation is still refused |
| OsMemory.Kernel.Map | src/installer/arch/os/memory.rs:78-114 | the region found by the search is new memory, large enough to be kept, and serves the request |
| OsMemory.RequestAsksForTheBounds | src/installer/arch/os/memory.rs:78-114 | the request covers exactly the addresses in user memory whose offset from the target is allowed, saturation included |
| OsMemory.FreePageIsMapped | src/installer/arch/os/memory.rs:78-114 | if unmapped pages hold the block at any allowed address, however far from the lowest, and the kernel grants what is asked for, unmapped memory that serves the bounds is handed out |
| Trampolines.Relocate | src/installer/arch/x86_64/hook_site.rs:122-177 | keeps exactly the bytes of the encoded copies in a buffer inside the window and gives the rest back; the relocations are those of the kept instructions; on failure everything goes back |
| Trampolines.KeptInsnMovesToItsCopy | src/installer/arch/x86_64/hook_site.rs:189-236 | the relocations move the address of each kept instruction but the first to its copy and no other address |
| Trampolines.Build | src/installer/arch/x86_64.rs:209-240 | succeeds exactly as the plan says whose conditions `CanBuildExactlyWhen` gives, and then adds exactly thunk and trampoline, with the copies of the kept instructions in it, and a jump that leads to the thunk and whose bytes beyond the instruction are the site's; on failure the live blocks are as before |
| Trampolines.CanBuildExactlyWhen | src/installer/arch/x86_64.rs:209-240 | thunk and trampoline can be built exactly if allocator or kernel have room for the thunk within reach of the jump and then for a buffer in the window, and the copies can be encoded there in 1024 bytes; the thunk is reported missing exactly if there is no room for it and the kernel did not fail |
| Trampolines.ReclaimChain | src/installer/arch/x86_64.rs:242-247 | takes exactly these two blocks out of the live ones |
| Installer.InstallFast | src/installer/arch/x86_64.rs:153-183 | leads to an exchange, to the slow way or to a failure exactly as memory, kernel and encoder decide: a thunk missing within the reach of an instruction shorter than a jump calls for the slow way; the entry is exchanged if and only if the attempt hooks; then the code at the target is a jump (0xe9) to the thunk and nothing behind the first instruction has changed; it is to be repeated only if other bytes were found; every attempt that does not hook leaves the live blocks alone |
| Installer.InstallSlow | src/installer/arch/x86_64.rs:185-207 | the same for the full jump, and failing otherwise only if the threads cannot be suspended; every thread that leaves the handler after the exchange goes on at its copy if the exchange succeeded, and with the relocation undone if it failed |
| Installer.NobodyResumesInThePatch | src/installer/arch/x86_64/hook_site.rs:242-257 | after a successful exchange, the step that resumes a thread leaves its instruction pointer at the copy if it stood at a kept instruction but the first, and where it was otherwise |
| Installer.Code.Exchange | src/installer/arch/x86_64/hook_site.rs:260-273 | the one place that patches an entry: the log of patches grows by the target if and only if the word was exchanged |
| ThunkTables.InsertAddsEntry | abi/src/context/process.rs:174-185 | inserting at the slot keeps the table strictly sorted and adds just that entry to the finite map |
| ThunkTables.SearchFindsSlot | abi/src/context/process.rs:155-169 | the binary search decides membership in the map and otherwise answers the slot to insert at |
| Installer.ProcessContext.GetThunk | abi/src/context/process.rs:155-169 | answers the registered thunk or the slot |
| Installer.ProcessContext.InsertThunk | abi/src/context/process.rs:174-185 | the map gains exactly the target, and every registered thunk is a live block of its own |
| Installer.ProcessContext.Install | src/installer/arch/x86_64.rs:80-151 | a hooked target keeps its thunk and nothing changes; otherwise the slot survives all retries, success exchanges the entry exactly once, leaves a jump (0xe9) to the thunk in the code and the copies of the analyzed instructions in the trampoline, and adds two live blocks and one table entry; failure changes nothing and has its cause in what the deciding attempt found; if nobody writes to the site, the target is hooked unless there is a cause before the first attempt; an attempt repeats only after others wrote to the site; threads suspended in any attempt go on as its exchange decided; no target is ever patched twice |
| Installer.NoCauseExactlyWhen | src/installer/arch/x86_64.rs:80-207 | an attempt has no cause to fail exactly if the site is accessible, can be decoded and the kept instructions (or padding) cover the jump, and either all can be built in reach of the short jump, or the first instruction is shorter than five bytes, only room for the thunk is missing, all can be built with the full range and the other threads can be suspended |
| PodVectors.GrowthLeavesRoom | abi/src/alloc/vec.rs:90-120 | wherever the kernel maps the memory, the grown capacity is at least half as much again and one more, after alignment loss, and lies inside the mapping |
| PodVectors.PodVec.RawPtrAssign | abi/src/alloc/vec.rs:101-120 | the contents survive, the old mapping is handed back |
| PodVectors.PodVec.Insert | abi/src/alloc/vec.rs:38-60 | the contents are the old ones with the value in between, whether the buffer grew or not |
| Rounding.RoundDownIsGreatest | abi/src/context/process.rs:333-334 | masking yields the greatest multiple not above the address |
| Rounding.RoundUpIsLeast | abi/src/context/process.rs:333-334 | rounding up yields the least multiple not below it |
| Searching.PartitionPoint | abi/src/context/process.rs:223 | the halving search answers the length of the prefix on which the predicate holds |

## Left out

- Kernel calls (`mmap`, `mprotect`, signals, reading `/proc`) are parameters. Assumed of their answers: memory handed out is reported as mapped from then on; a thread that has died cannot be signalled, and the probe with signal number 0 is refused exactly for a dead thread (the suspend count would be wrong if a live thread's probe failed). No thread is spawned and no thread id reused during a suspension.
- Instruction decoding and the block encoder are parameters, applied to the bytes read and to the kept instructions: an instruction is its length and the facts the analysis asks for, an encoding its length and the address of each copy, or a failure. That the copies do what the originals did is the encoder's. The `u32::MAX` branch of `encode_at` (`src/installer/arch/x86_64/hook_site.rs:213-229`) depends on decoder behaviour; the addresses it computes are among the arbitrary ones.
- Weak memory: atomic accesses are sequentially consistent steps.
- RegionAllocation.AllocBetween: the number of restarts is bounded by the number of passes given; the source restarts as often as the kernel refuses a spot.
- Installer.ProcessContext.Install: the attempts are given as a finite sequence, of which all may have to be repeated (the result `StillTrying`). Others write to the site's bytes only, and only between reading and exchanging them.
- Installer.InstallSlow: the course of the suspension up to the exchange and after it is given with the attempt; one that has not collected the threads counts as a failure to suspend.
- OsMemory.Kernel.Map: a search that has used up its passes answers that nothing is free.
- HookChain.CallIsComposition: gives a call the meaning of one state; a call during which hooks are pushed or dropped may pass through several. The write lock is taken as an atomic reader-writer lock, so a call never reads a list between a push and its count. What hook bodies do, and what a body does once its handle is being dropped, is arbitrary. The map of lists (`abi/src/context/library.rs:63-73`) is only that each key has one list.
- ScopeExit.NoBodyOutlivesTheScope: says that hook bodies have finished, not that the closure values have been dropped.
- ScopeExit.ScopeExitCompletes: liveness is a bound on the steps of runs without new calls plus the absence of dead ends, not a statement about a fair scheduler; the same holds for PodMutex.LockDrains.
- RangeAllocator.BoundedRangeAllocator.AllocLayoutBetween: addresses lie in the lower half of the address space (`isize::MAX`) and never at 0; rounding the lower bound beyond the address width is the outcome `Overflowed`, where the source panics or wraps.
- PodVectors.PodVec.Insert: the byte sizes are unbounded integers; a capacity whose byte size overflows the address width is not modelled. The range list and the thunk table are sequences in their own modules rather than instances of this class.
- Panics inside `source`, calls to the original from inside `source`, dropping a scope during a panic.
- Slab keys, `partition_point`, `binary_search_by_key` and sorting are library behaviour; the two searches are modelled in the standard library's halving form because one of them has a side effect the result depends on.
- `PodSpinMutex`, process and library context setup, the `custom` feature, JIT allocation, the Windows back end, ABI constants, `Debug` implementations and installer wrappers: easy or hardware detail.
