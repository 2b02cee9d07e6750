# A Dafny model of a hobby x86-64 kernel's memory and bring-up core

This project models the core of a small Rust x86-64 kernel and proves properties of the model.
The core has three parts:

- **the allocator stack:**
  - two frame allocators over the bootloader's memory map;
  - a bump page allocator that takes a frame and maps it page by page;
  - two revisions of a fixed-size-block heap with nine size classes and a large-allocation side table;
  - the prototype slab pieces (bitmap words, runs, bins).
- **the data layouts and register sequences that start the application processors (APs):**
  - the INIT and Start-Up IPIs;
  - the trampoline page's control block;
  - the per-AP stacks;
  - the real-mode-to-protected-mode stub.
- **the address and register arithmetic around ACPI, the local APIC, the I/O APIC and the HPET timer.**

Each source file becomes one Dafny module:

| module | file |
|---|---|
| `FrameAllocator` | `frame_allocator.dfy` |
| `PageAllocator` | `page_allocator.dfy` |
| `SizeClass`, `KernelHeap` | `size_class.dfy`, `kernel_heap.dfy` |
| `AllocInfo` | `alloc_info.dfy` |
| `SrcHeap` | `src_heap.dfy` |
| `KernelInterrupts` | `kernel_interrupts.dfy` |
| `KernelAcpi` | `kernel_acpi.dfy` |
| `SrcInterrupts` | `src_interrupts.dfy` |
| `Timer` | `timer.dfy` |
| `Multicore` | `multicore.dfy` |
| `Trampoline` | `trampoline.dfy` |
| `ApProtected` | `ap_protected.dfy` |
| `Metadata` | `metadata.dfy` |
| `SlabRun` | `run.dfy` |
| `SlabBin` | `bin.dfy` |

Three modules are shared:

- `Common` holds the page size, `Option`/`Result`, the `Outcome` type that turns a Rust panic into a value, and the page rounding helpers.
- `Paging` stands in for the `x86_64` crate's mapper: a map from page to frame.
- `Mmio` is a register file that also records the order of its writes.

## How the model is built

- **State that the Rust code updates in place is a Dafny class.** Examples are `BitmapFrameAllocator`, `PageAllocator`, the heap's list arrays, the 512-slot `LargeAllocTable`, the local APIC and I/O APIC register files, the trampoline page, and the AP's registers.
- **Each method is proved against a pure specification function.** For example, `ensures (State(), r) == AllocSpec(old(State()), numPages)`.
- **The properties are lemmas about those functions.** They cover lowest-free-first allocation, index/frame inverses, round trips, "nothing else changes", and first-fit.
- **Panics, `expect` failures, `todo!` and Rust's debug-build arithmetic overflow checks (where the code relies on them) become `Outcome.Panic` values,** never preconditions.

## Behaviours of the code that the model reproduces as they are

- **The bump page allocator:**
  - it advances its cursor by the whole request on every page, so `AllocCursor` proves a cursor step of n·n·4096;
  - it keeps the pages it already mapped when a later page fails (`AllocFailureKeepsProgress`).
- **The free-list counter** counts only `dealloc` pushes. Refills and `init` do not touch it (`InitCarvesWithoutCounting`, `AllocRefills`).
- **Large frees in the kernel heap:**
  - they never clear the slot in `LARGE_ALLOCS`, so a second free of the same pointer frees the pages again and panics (`LargeDoubleFreePanics`);
  - in the older heap, the second free panics on the missing map entry.
- **`init_stack_top`** stores `AP_STACKS + 8` (the size of a pointer), not the end of `AP_STACKS` (`StackTopIsNotTheEnd`). With that value, the trampoline's stack for every AP except the one with APIC ID 0 lies below the array (`StackOutsideArray`).
- **The trampoline increments the lower-case symbol `apprunning`, not the Rust static `APPRUNNING`** (`LowerCaseSymbols`).
- **The trampoline as assembled stops at its protected-mode jump.** The jump loads the null selector and faults, so `apprunning` is never incremented (`ApInit` run on `STUB_AS_WRITTEN`; see Findings). The same method runs the corrected stub to the jump to `ap_startup`.
- **`validate_rsdp` cannot return false for the OEM id.** `oem_id()` already returns a `&str`, and the `acpi` crate's accessor unwraps `str::from_utf8`, so non-UTF-8 OEM bytes panic inside the accessor (`ValidateRsdpOemPanics`).
- **In the older `src/` heap, an allocation that takes pages never returns.** `fallback_alloc` inserts into the `BTreeMap` `LARGE_ALLOCS` while `alloc` holds the lock of `ALLOCATOR`. The empty map's first insert allocates a node through `ALLOCATOR`, which spins on that same lock (`FallbackAsWritten`). The map therefore stays empty, and every large `dealloc` panics (`LargeAllocsStayEmpty`).
- **MAPPER holding no page table panics with "Failed to lock MAPPER".** In `map_physical` this comes after the virtual range is allocated; in `unmap_physical`, before anything changes.
- **The `kernel/` `map_physical` is idempotent** on pages already mapped to the right frame (`MapPhysicalIdempotent`). The `kernel_acpi` copy panics on the second call (`SecondMapPanics`).
- **In the older `src/` interrupts code, MAPPER and the page allocator could share a page table.** `map_physical` would then find its freshly allocated pages already mapped and panic (`SharedMapperPanics`).
- **The LVT timer value `vector | 0x20000` sets bits 17–18 to 01, which is periodic mode.** It does not set the mask bit its comment names; bit 16 stays clear (`LvtTimerFields`).

## Model

| member | source | states |
|---|---|---|
| Common.AlignDown | src/interrupts.rs:125 | `addr & !0xFFF` is page aligned, at most the address, and less than a page below it |
| Common.AlignUp | src/memory.rs:156 | rounding up to a page is aligned, at least the address, and less than a page above it |
| Common.PagesFor | src/interrupts.rs:128 | `(n + 4095) / 4096` pages cover n bytes and one page fewer would not |
| Common.Max | kernel/src/allocator/fixed_size_block.rs:225 | `size.max(align)` bounds both and is one of them |
| Paging.PageTable.Translate | kernel/src/interrupts.rs:187 | `translate_page` finds a frame exactly when the page is mapped, and returns that frame |
| Paging.PageTable.MapTo | kernel/src/allocator/page_allocator.rs:65-66 | `map_to` fails with PageAlreadyMapped, leaving the table, exactly when the page is mapped; otherwise it adds page→frame |
| Paging.PageTable.Unmap | kernel/src/allocator/page_allocator.rs:87 | `unmap` fails when the page is unmapped; otherwise it removes the page and returns its frame |
| Mmio.RegisterFile.Write | kernel/src/interrupts.rs:345 | a volatile write changes that one slot and is appended to the write log |
| FrameAllocator.RegionFramesFacts | src/memory.rs:107-110 | the frames of one region step by 4096, are increasing and aligned, and lie in [align_down(start), end) |
| FrameAllocator.UsableFramesInUsableRegions | src/memory.rs:104-111 | every frame `usable_frames` yields lies in some region marked Usable |
| FrameAllocator.UsableFramesIncreasing | src/memory.rs:104-111 | for a sorted map of disjoint regions, the usable frames are strictly increasing and start at or above the first region |
| FrameAllocator.RegionFramesAligned | src/memory.rs:108-110 | every usable frame is 4 KiB aligned |
| FrameAllocator.BootInfoNeverReuses | src/memory.rs:115-119 | the k1-th usable frame is below the k2-th when k1 < k2, so counting `next` upward never returns a frame twice |
| FrameAllocator.BootInfoFrameAllocator.Init | src/memory.rs:96-101 | the allocator starts at `next = 0` over the given map |
| FrameAllocator.BootInfoFrameAllocator.AllocateFrame | src/memory.rs:115-119 | returns the `next`-th usable frame (aligned), or None past the end, and increments `next` in both cases |
| FrameAllocator.FrameAsIndex | src/memory.rs:182-194 | None exactly below base or at/after base + 4096·count; otherwise the index whose frame contains the address |
| FrameAllocator.IndexFrameRoundTrip | src/memory.rs:182-199 | `frame_as_index(index_as_frame(i)) == Some(i)` for every i < frame_count |
| FrameAllocator.FirstFree | src/memory.rs:210 | the search finds the lowest false bit from a position, or None when every later bit is true |
| FrameAllocator.AllocateLowestFree | src/memory.rs:203-217 | `allocate_frame` returns the frame of the lowest free bit and sets only that bit; it returns None, changing nothing, exactly when no bit is free |
| FrameAllocator.AllocateMarksOne | src/memory.rs:210-212 | the returned frame is aligned, was free before, is used after, and every other bit is unchanged |
| FrameAllocator.AllocateThenDeallocate | src/memory.rs:203-229 | freeing the frame just allocated restores the bitmap exactly |
| FrameAllocator.DeallocateClearsOne | src/memory.rs:221-229 | `deallocate_frame` clears exactly that frame's bit; an out-of-range frame is the `todo!` failure |
| FrameAllocator.MarksFrameIffOverlaps | src/memory.rs:166-172 | the marking loop frees a frame exactly when it overlaps the usable region, partly covered edge frames included |
| FrameAllocator.UsableWithinExtremes | src/memory.rs:145-152 | every usable region lies between the computed minimum start and maximum end |
| FrameAllocator.BitmapFrameAllocator.FromParts | src/memory.rs:175-179 | the allocator holds exactly the base, count and bitmap it is built from |
| FrameAllocator.BitmapFrameAllocator.AllocateFrame | src/memory.rs:203-217 | the in-place allocation matches the lowest-free specification |
| FrameAllocator.BitmapFrameAllocator.DeallocateFrame | src/memory.rs:221-229 | the in-place free matches the specification, and leaves the bitmap alone on the `todo!` path |
| FrameAllocator.UsableExtremes | src/memory.rs:142-152 | the first loop computes the lowest usable start and the highest usable end |
| FrameAllocator.MarkRegionFree | src/memory.rs:162-173 | after one region's loop, a bit is used exactly when it was used before and the region does not touch its frame |
| FrameAllocator.InitBitmapFrameAllocator | src/memory.rs:136-180 | base is the rounded-down lowest usable start; count covers up to the rounded-up highest end; bit i is free exactly when frame i overlaps a usable region; with no usable region (or an inverted one) the subtraction underflows |
| PageAllocator.PageAtIs | kernel/src/allocator/page_allocator.rs:58-59 | page i of a request is align_down(start) + 4096·i |
| PageAllocator.PageAtInjective | kernel/src/allocator/page_allocator.rs:58-59 | distinct loop indices give distinct pages |
| PageAllocator.AslrStart | kernel/src/allocator/page_allocator.rs:80 | the ASLR start is KERNEL_HEAP_START + rng mod KERNEL_HEAP_SIZE, inside the heap window |
| PageAllocator.AllocFrom | kernel/src/allocator/page_allocator.rs:57-71 | the per-page loop keeps the frame bitmap well formed with the same base and count |
| PageAllocator.AllocSpec | kernel/src/allocator/page_allocator.rs:45-73 | `alloc` keeps the frame bitmap well formed with the same base and count |
| PageAllocator.DeallocFrom | kernel/src/allocator/page_allocator.rs:84-94 | the unmap-and-free loop keeps the frame bitmap well formed with the same base and count |
| PageAllocator.DeallocSpec | kernel/src/allocator/page_allocator.rs:83-95 | `dealloc` keeps the frame bitmap well formed with the same base and count |
| PageAllocator.AllocFromCursor | kernel/src/allocator/page_allocator.rs:57-72 | if k pages get mapped, the cursor grows by k·n·4096; the result is Ok(start) exactly when all n pages are mapped; no used frame is freed |
| PageAllocator.AllocFromTable | kernel/src/allocator/page_allocator.rs:57-71 | the table gains exactly the pages mapped, which were unmapped before, and every existing entry is kept |
| PageAllocator.AllocFromKeys | kernel/src/allocator/page_allocator.rs:57-71 | the keys added are exactly the mapped pages, disjoint from the old keys |
| PageAllocator.AllocFromKeeps | kernel/src/allocator/page_allocator.rs:57-71 | every existing mapping survives unchanged |
| PageAllocator.AllocFromFresh | kernel/src/allocator/page_allocator.rs:60-66 | every frame mapped was free before and is used after |
| PageAllocator.AllocFromDistinct | kernel/src/allocator/page_allocator.rs:60-63 | the frames mapped to the new pages are pairwise distinct |
| PageAllocator.AllocFromBitmap | kernel/src/allocator/page_allocator.rs:60-63 | on success, a frame is used after exactly when it was used before or was mapped by this call |
| PageAllocator.DeallocFromTable | kernel/src/allocator/page_allocator.rs:84-94 | when all pages are mapped to frames of the allocator, `dealloc` returns Ok and removes exactly those pages; the cursor is untouched |
| PageAllocator.DeallocFromBitmap | kernel/src/allocator/page_allocator.rs:84-94 | `dealloc` frees exactly the frames the pages were mapped to |
| PageAllocator.AllocOutsideWindow | kernel/src/allocator/page_allocator.rs:50-53 | when cursor + n·4096 exceeds end_virt, `alloc` returns FrameAllocationFailed and changes nothing |
| PageAllocator.AllocSucceeds | kernel/src/allocator/page_allocator.rs:45-73 | on success: the result is the old cursor; the cursor grows by n·n·4096; exactly pages 0..n are added, mapped to n distinct, previously free, now used frames; nothing else changes |
| PageAllocator.AllocFailureKeepsProgress | kernel/src/allocator/page_allocator.rs:57-71 | on failure after k < n pages, those k pages stay mapped, their frames stay used, and the cursor keeps its k steps (no rollback) |
| PageAllocator.AllocCursor | kernel/src/allocator/page_allocator.rs:57-72 | a successful n-page alloc returns the old cursor and advances it by n·n·4096 |
| PageAllocator.SuccessiveAllocsDisjoint | kernel/src/allocator/page_allocator.rs:55-72 | for n ≥ 1, the next successful alloc starts at or after the end of the previous range |
| PageAllocator.AllocThenDealloc | kernel/src/allocator/page_allocator.rs:45-95 | freeing a fresh allocation restores the table and the frame bitmap; only the cursor stays advanced |
| PageAllocator.DeallocUndoes | kernel/src/allocator/page_allocator.rs:83-95 | freeing pages that were added on top of a state, mapped to frames free in that state, gives back that state's table and bitmap |
| PageAllocator.PageAllocator.New | kernel/src/allocator/page_allocator.rs:36-43 | `current_virt = start_virt`, `end_virt = end`, with the given mapper and frame allocator |
| PageAllocator.PageAllocator.Alloc | kernel/src/allocator/page_allocator.rs:45-73 | the in-place loop matches the specification of `alloc` |
| PageAllocator.PageAllocator.InitStartAslr | kernel/src/allocator/page_allocator.rs:75-81 | the cursor is set to the ASLR start computed from the random value |
| PageAllocator.PageAllocator.Dealloc | kernel/src/allocator/page_allocator.rs:83-95 | the in-place loop matches the specification of `dealloc` |
| PageAllocator.InitPageAllocator | kernel/src/allocator/page_allocator.rs:98-106 | the global allocator covers [KERNEL_HEAP_START, KERNEL_HEAP_END) |
| AllocInfo.FirstEmpty | kernel/src/allocator/alloc_info.rs:23-24 | finds the lowest None slot from a position, or None when every later slot is used |
| AllocInfo.InsertFillsLowestEmpty | kernel/src/allocator/alloc_info.rs:21-30 | insertion fails (the panic) exactly when no slot is None; otherwise it writes (addr, info) into the lowest None slot and changes no other slot |
| AllocInfo.InsertKeepsRecords | kernel/src/allocator/alloc_info.rs:23-28 | existing entries survive insertion, with no check for a duplicate address |
| AllocInfo.LargeAllocTable.constructor | kernel/src/allocator/alloc_info.rs:18 | 512 slots, all None |
| AllocInfo.LargeAllocTable.Insert | kernel/src/allocator/alloc_info.rs:21-30 | the in-place scan matches the insertion specification; on failure the array is unchanged |
| SizeClass.PositionFrom | kernel/src/allocator/fixed_size_block.rs:226 | `position` finds the first block size ≥ the requirement, or None when none is |
| SizeClass.ListIndex | kernel/src/allocator/fixed_size_block.rs:224-227 | None exactly when max(size, align) > 2048; otherwise the smallest class that fits |
| SizeClass.BlockSizesDividePage | kernel/src/allocator/fixed_size_block.rs:19 | every block size is between 8 and 2048, divides 4096, and gives at least two blocks per page |
| SizeClass.CarvedAt | kernel/src/allocator/fixed_size_block.rs:105-112 | pushing blocks lo..hi leaves the list headed by the last block; entry k is p + (hi−1−k)·b |
| SizeClass.CarvedBlocks | kernel/src/allocator/fixed_size_block.rs:105-112 | the carved blocks lie in [p + lo·b, p + hi·b), strictly decrease (so are distinct), and exclude p when lo ≥ 1 |
| SizeClass.EmptyLists | kernel/src/allocator/fixed_size_block.rs:32-38 | `new` has every head None and every counter 0 |
| SizeClass.PopTakesHead | kernel/src/allocator/fixed_size_block.rs:139-142 | popping returns the head, promotes its successor, and changes no counter and no other class |
| SizeClass.PushFreeRule | kernel/src/allocator/fixed_size_block.rs:182-200 | below 4096 the block becomes the head and the counter goes up by one; at 4096 the block is leaked and nothing changes; other classes are untouched |
| SizeClass.PushThenPop | kernel/src/allocator/fixed_size_block.rs:182-193 | popping right after a push returns the pushed block and the old list, with the counter still raised |
| SizeClass.PushFreeKeepsCap | kernel/src/allocator/fixed_size_block.rs:182-193 | when every counter is at most 4096, a push keeps them all at most 4096 |
| KernelHeap.LargeDeallocFrom | kernel/src/allocator/fixed_size_block.rs:204-219 | the slot scan never changes the free lists or the `LARGE_ALLOCS` slots |
| KernelHeap.InitCarvesWithoutCounting | kernel/src/allocator/fixed_size_block.rs:40-65 | `init` pushes 512 eight-byte blocks start+8k (the last one on top) onto class 0, changes no counter, and does nothing when the page request fails |
| KernelHeap.AllocPopsHead | kernel/src/allocator/fixed_size_block.rs:135-143 | on a non-empty class, `alloc` returns the head; only that class's list changes |
| KernelHeap.AllocRefills | kernel/src/allocator/fixed_size_block.rs:84-115 | on an empty class: the new page P goes to the caller; P + k·b for k = 1..4096/b−1 are pushed; they are distinct, inside the page, and none is P; counters are untouched |
| KernelHeap.CarvedPage | kernel/src/allocator/fixed_size_block.rs:97-112 | the carving of one page for a class is 4096/b − 1 distinct blocks inside the page, not P itself |
| KernelHeap.AllocNullWithoutPage | kernel/src/allocator/fixed_size_block.rs:84-95 | without a page allocator or a page, a small `alloc` returns null and changes no list |
| KernelHeap.AllocLarge | kernel/src/allocator/fixed_size_block.rs:67-82 | a request with no class takes ceil(max/4096) pages; it records (addr, pages) in the lowest free slot on success; it returns null and records nothing on failure; it panics when the table is full |
| KernelHeap.DeallocSmall | kernel/src/allocator/fixed_size_block.rs:180-201 | a small `dealloc` is the push-or-leak rule on its class |
| KernelHeap.LargeDeallocKeepsRecords | kernel/src/allocator/fixed_size_block.rs:204-219 | the scan never clears a slot, and with no matching slot it does nothing |
| KernelHeap.LargeDeallocSingleRecord | kernel/src/allocator/fixed_size_block.rs:204-219 | with one matching slot, it frees exactly that record's pages, and an unmap error is the "dealloc failed" panic |
| KernelHeap.DeallocUnmapsAll | kernel/src/allocator/page_allocator.rs:84-94 | `dealloc` only removes mappings, and on success none of the freed pages is still mapped |
| KernelHeap.LargeDoubleFreePanics | kernel/src/allocator/fixed_size_block.rs:204-219 | freeing the same large pointer twice panics with "dealloc failed" |
| KernelHeap.FixedSizeBlockAllocator.New | kernel/src/allocator/fixed_size_block.rs:32-38 | fresh arrays holding the empty lists |
| KernelHeap.FixedSizeBlockAllocator.PushCarved | kernel/src/allocator/fixed_size_block.rs:105-112 | the carving loop prepends exactly the carved blocks to one class's list in place |
| KernelHeap.FixedSizeBlockAllocator.Init | kernel/src/allocator/fixed_size_block.rs:40-65 | in-place `init` matches its specification |
| KernelHeap.FixedSizeBlockAllocator.RefillFreeList | kernel/src/allocator/fixed_size_block.rs:84-115 | in-place refill matches its specification |
| KernelHeap.FixedSizeBlockAllocator.FallbackAlloc | kernel/src/allocator/fixed_size_block.rs:67-82 | in-place fallback matches its specification |
| KernelHeap.FixedSizeBlockAllocator.Alloc | kernel/src/allocator/fixed_size_block.rs:135-155 | in-place `alloc` matches its specification |
| KernelHeap.FixedSizeBlockAllocator.Dealloc | kernel/src/allocator/fixed_size_block.rs:176-221 | in-place `dealloc`, including the slot scan, matches its specification |
| SrcHeap.AllocPopsHead | src/allocator/fixed_size_block.rs:112-116 | on a non-empty class, `alloc` returns the head; only that class's list changes |
| SrcHeap.FallbackAsWritten | src/allocator/fixed_size_block.rs:76-85 | `fallback_alloc` never returns exactly when the page allocation succeeds while `LARGE_ALLOCS` is empty: the insert allocates its first node through the locked `ALLOCATOR`; the pages stay mapped and nothing is recorded; otherwise it ends as the corrected fallback does |
| SrcHeap.LargeAllocsStayEmpty | src/allocator/fixed_size_block.rs:67-201 | from the empty `LARGE_ALLOCS`, no `alloc` or `dealloc` adds an entry; an `alloc` that needs pages returns null or never returns, never a block; every large `dealloc` panics on the missing entry |
| SrcHeap.FallbackRecords | src/allocator/fixed_size_block.rs:67-88 | for the corrected fallback, whose insert does not allocate: ceil(max/4096) pages are requested; on success the map gains exactly addr→pages; on failure null and the map is unchanged |
| SrcHeap.AllocEmptyClassTakesPage | src/allocator/fixed_size_block.rs:117-128 | an empty class does no carving: it is `fallback_alloc` with layout (b, b), one whole page, and the lists are unchanged |
| SrcHeap.DeallocSmall | src/allocator/fixed_size_block.rs:164-185 | a small `dealloc` is the push-or-leak rule on its class |
| SrcHeap.DeallocLarge | src/allocator/fixed_size_block.rs:186-201 | a large `dealloc` panics when the pointer is not in the map; otherwise it removes the entry and frees exactly its pages |
| SrcHeap.LargeDoubleFreePanics | src/allocator/fixed_size_block.rs:190-192 | a second free of the same large pointer panics on the missing entry |
| SrcHeap.LargeAllocThenFree | src/allocator/fixed_size_block.rs:67-201 | with the corrected fallback, freeing a fresh large allocation restores the map, the page table and the frames; only the cursor stays advanced |
| SrcHeap.LargeAllocMap.constructor | src/allocator/alloc_info.rs:14-17 | the map starts empty |
| SrcHeap.FixedSizeBlockAllocator.New | src/allocator/fixed_size_block.rs:32-38 | fresh arrays holding the empty lists |
| SrcHeap.FixedSizeBlockAllocator.Init | src/allocator/fixed_size_block.rs:40-65 | in-place `init` matches the same carving specification as the kernel revision |
| SrcHeap.FixedSizeBlockAllocator.FallbackAlloc | src/allocator/fixed_size_block.rs:67-88 | the in-place fallback matches its as-written specification, including the hang on the first insert |
| SrcHeap.FixedSizeBlockAllocator.Alloc | src/allocator/fixed_size_block.rs:108-139 | in-place `alloc` matches its as-written specification: a pop, or the fallback with its hang |
| SrcHeap.FixedSizeBlockAllocator.Dealloc | src/allocator/fixed_size_block.rs:160-202 | in-place `dealloc` matches its specification |
| KernelInterrupts.MapPhysicalRegion | kernel/src/interrupts.rs:133-158 | the mapping keeps the address and size; the pointer is PHYSICAL_MEMORY_OFFSET + address; mapped size is the in-page offset plus size |
| KernelInterrupts.MapPhysicalRegionCovers | kernel/src/interrupts.rs:139-144 | every byte of the region lies in the aligned mapped window and translates back to its physical address |
| KernelInterrupts.MapApicRegisters | kernel/src/interrupts.rs:300-307 | the APIC pointer is PHYSICAL_MEMORY_OFFSET + apic_base |
| KernelInterrupts.MapApicRegistersExample | kernel/src/interrupts.rs:296-298 | 0xfee00000 is already aligned, as the doc example asserts |
| KernelInterrupts.ApicSlots | kernel/src/interrupts.rs:349-357 | offset 8 is slot 2 (the doc example); the named registers are distinct u32 slots inside the APIC page |
| KernelInterrupts.ReadApicReg | kernel/src/interrupts.rs:323-326 | reads slot reg_offset/4 |
| KernelInterrupts.WriteApicReg | kernel/src/interrupts.rs:342-347 | writes slot reg_offset/4 and nothing else |
| KernelInterrupts.LvtTimerFields | kernel/src/interrupts.rs:363 | the LVT value carries the vector, leaves the mask bit clear, selects periodic mode, and has no other bit |
| KernelInterrupts.SvrFields | kernel/src/interrupts.rs:372-373 | the SVR value has spurious vector 0xFF and the software-enable bit 8 |
| KernelInterrupts.InitApicTimer | kernel/src/interrupts.rs:359-368 | writes divide 0x3, then the LVT value, then initial count 20,000,000, in that order |
| KernelInterrupts.EnableLocalApic | kernel/src/interrupts.rs:370-381 | writes SVR then TPR = 0, and reads the ID as the register's top byte |
| KernelInterrupts.IoApic.Write | kernel/src/interrupts.rs:396-398 | a write to IOREGSEL selects a register; a write to IOWIN stores into the selected register |
| KernelInterrupts.IoapicWrite | kernel/src/interrupts.rs:393-400 | selects then writes: the index goes to IOREGSEL before the value goes to IOWIN |
| KernelInterrupts.RedirectionLowFields | kernel/src/interrupts.rs:438-464 | low dword has the vector in bits 0–7, fixed delivery, bit 13 set exactly for Level, bit 15 set exactly for ActiveLow, bit 16 (mask) clear, no other bit |
| KernelInterrupts.RedirectionHighFields | kernel/src/interrupts.rs:467 | high dword has the destination in bits 24–31 and nothing below |
| KernelInterrupts.RedirectionIndex | kernel/src/interrupts.rs:426 | `0x10 + 2*gsi` is the register index, and it overflows u32 (panic) exactly when gsi > 0x7FFF_FFF7 |
| KernelInterrupts.RedirectionIndexFields | kernel/src/interrupts.rs:426-427 | the low index is even, at least 0x10, leaves room for the high index, and recovers gsi |
| KernelInterrupts.RedirectionPairsDisjoint | kernel/src/interrupts.rs:426-427 | two GSIs never share a redirection register |
| KernelInterrupts.WriteRedirection | kernel/src/interrupts.rs:426-471 | writes low index, low dword, high index, high dword in that order, or panics on index overflow without writing |
| KernelInterrupts.SetIoapicRedirect | kernel/src/interrupts.rs:412-475 | maps the I/O APIC page and then performs the redirection writes; each panic path writes nothing |
| KernelInterrupts.WrappingSumIsTotal | kernel/src/interrupts.rs:271 | the `wrapping_add` fold is the byte total mod 256 |
| KernelInterrupts.Utf8CharLength | kernel/src/interrupts.rs:255 | a decoded UTF-8 character takes between one byte and the remaining bytes |
| KernelInterrupts.AsciiIsUtf8 | kernel/src/interrupts.rs:255 | an ASCII OEM id is valid UTF-8 |
| KernelInterrupts.ValidateRsdp | kernel/src/interrupts.rs:240-282 | false when the signature is not "RSD PTR "; with the signature, non-UTF-8 OEM bytes panic in the `oem_id()` accessor; otherwise true exactly when the covered bytes (20 for revision 0, else the length field) sum to 0 mod 256 |
| KernelInterrupts.ValidateRsdpOemPanics | kernel/src/interrupts.rs:254-258 | an RSDP with the right signature and checksum and the byte 0xFF in its OEM id panics instead of returning false; with an ASCII OEM id it is accepted |
| KernelInterrupts.KPageIs | kernel/src/interrupts.rs:173-178 | page i is KERNEL_HEAP_START + align_down(phys) + 4096·i, frame i is align_down(phys) + 4096·i |
| KernelInterrupts.KPageInjective | kernel/src/interrupts.rs:174-175 | distinct indices give distinct pages |
| KernelInterrupts.MapPagesFromResult | kernel/src/interrupts.rs:172-226 | the loop returns virt_base exactly when no page is mapped to a different frame, and then every page maps to its frame; otherwise it panics |
| KernelInterrupts.MapPagesFromFrame | kernel/src/interrupts.rs:172-226 | the loop keeps every existing mapping and adds only pages of the request |
| KernelInterrupts.MapPagesAllPresent | kernel/src/interrupts.rs:187-195 | when every page is already mapped to its frame, the loop skips them all and changes nothing |
| KernelInterrupts.MapPhysicalIdempotent | kernel/src/interrupts.rs:166-235 | `map_physical` maps page i to phys+4096·i, keeps other mappings, and a second identical call returns the same and changes nothing |
| KernelInterrupts.MapPhysical | kernel/src/interrupts.rs:166-235 | the in-place loop matches the specification, and panics when the page allocator is uninitialised |
| KernelAcpi.MapPhysicalRegion | kernel/src/kernel_acpi.rs:18-41 | the mapping keeps address and size, pointer = offset + address, mapped size = in-page offset + size |
| KernelAcpi.MapPhysicalRegionLayout | kernel/src/kernel_acpi.rs:24-28 | the page base is aligned and ≤ the address, the in-page offset < 4096, and the pointer is offset + base + in-page offset |
| KernelAcpi.AgreesWithInterruptsHandler | kernel/src/kernel_acpi.rs:24-28 | with the fixed offset, this handler computes the same mapping as the one in kernel/src/interrupts.rs |
| KernelAcpi.UnmapPhysicalRegion | kernel/src/kernel_acpi.rs:44-46 | unmapping changes nothing |
| KernelAcpi.MapPagesFromResult | kernel/src/kernel_acpi.rs:55-77 | the loop succeeds exactly when no page of the request is mapped, then maps each page to its frame and keeps the rest; otherwise "map_to failed" |
| KernelAcpi.SecondMapPanics | kernel/src/kernel_acpi.rs:62-73 | a second identical `map_physical` panics here, where the interrupts.rs version returns |
| KernelAcpi.MapPhysical | kernel/src/kernel_acpi.rs:49-80 | the in-place loop matches the specification, and panics when the page allocator is uninitialised |
| SrcInterrupts.InterruptVectors | src/interrupts.rs:49-67 | Timer = 32, Keyboard = 33, PIC_2_OFFSET = 40; both vectors are on the first PIC and distinct |
| SrcInterrupts.RegionMapping | src/interrupts.rs:120-141 | the pointer is virt_base + in-page offset and mapped size is offset + size |
| SrcInterrupts.RegionPagesCover | src/interrupts.rs:125-128 | num_pages pages from the page base cover the region, and one fewer would not |
| SrcInterrupts.UnmapBaseInverts | src/interrupts.rs:143-152 | the unmap side recovers the virt_base the map side allocated |
| SrcInterrupts.UnmapPagesAsWrittenOvercounts | src/interrupts.rs:146-149 | as written, the unmap count is never too small and exceeds the mapped count for 0x1F00/0x100; it agrees for aligned regions |
| SrcInterrupts.UnmapPagesMatches | src/interrupts.rs:146-149 | the corrected count equals the mapped count for every region |
| SrcInterrupts.MapRangeFromResult | src/interrupts.rs:168-188 | the loop succeeds exactly when no page is mapped, then maps virt_base+4096·i to align_down(phys)+4096·i and keeps the rest; otherwise "map_to failed" |
| SrcInterrupts.UnmapRangeFrom | src/interrupts.rs:196-204 | the unmap loop keeps FRAME_ALLOCATOR's bitmap well formed with the same geometry |
| SrcInterrupts.UnmapRangeFromResult | src/interrupts.rs:196-204 | if the loop finishes, every page was mapped and exactly those pages are gone |
| SrcInterrupts.MapThenUnmapRestores | src/interrupts.rs:159-207 | unmapping what was just mapped gives back the page table |
| SrcInterrupts.SharedMapperPanics | src/interrupts.rs:159-188 | if MAPPER is the page allocator's own table, `map_physical` panics because the fresh pages are already mapped |
| SrcInterrupts.AllocateKernelPages | src/interrupts.rs:217-225 | `alloc` on the page allocator, with "alloc failed" or "not initialized" as panics |
| SrcInterrupts.MapPhysical | src/interrupts.rs:159-190 | takes a fresh range from the page allocator (panic when it is missing or full); panics "Failed to lock MAPPER" when MAPPER holds no table, with the range already taken; otherwise maps the range page by page through MAPPER (whether or not MAPPER is that allocator's table) |
| SrcInterrupts.MapPhysicalRegion | src/interrupts.rs:120-141 | maps num_pages pages from the page base and returns the region's mapping; the allocator and MAPPER panics of `map_physical` pass through |
| SrcInterrupts.FreeKernelPages | src/interrupts.rs:209-215 | `dealloc` on the page allocator, with its error as the "Failed to deallocate kernel pages" panic |
| SrcInterrupts.UnmapPhysical | src/interrupts.rs:191-207 | panics "Failed to lock MAPPER" before any change when MAPPER holds no table; otherwise unmaps each page, frees its frame, then frees the virtual range |
| SrcInterrupts.UnmapPhysicalRegion | src/interrupts.rs:142-156 | as written: unmaps ceil((in-page offset + mapped_length)/4096) pages from the recovered virt_base, with `unmap_physical`'s panics |
| SrcInterrupts.UnmapPhysicalRegionCorrected | src/interrupts.rs:142-156 | the same with the corrected count ceil(mapped_length/4096), the pages the map side mapped |
| SrcInterrupts.UnmapRegionAsWrittenPanics | src/interrupts.rs:146-155 | mapping 0x1F00/0x100 and unmapping it as written panics when the next page is not mapped; with the corrected count the table comes back as it was |
| Timer.MainCounterSlot | kernel/src/timer.rs:15 | the main counter is u64 slot 30, byte offset 0xF0 |
| Timer.ClockTickFallback | kernel/src/init/hpet.rs:34-39 | the fallback is the capabilities register's upper 32 bits |
| Timer.TickUnit | kernel/src/timer.rs:8-13 | a nonzero argument is used as is; 0 is replaced by the fallback; the panic happens exactly when both are 0 |
| Timer.DelayFs | kernel/src/timer.rs:19 | ms·10^12, with the multiplication overflow as a panic exactly when it exceeds u64 |
| Timer.DelayFsLimit | kernel/src/timer.rs:19 | 18,446,744 ms is the largest delay that does not overflow |
| Timer.Target | kernel/src/timer.rs:22 | start + ticks wraps modulo 2^64, and a wrapped target is below start |
| Timer.FirstReached | kernel/src/timer.rs:25-27 | the spin ends at the first read ≥ target |
| Timer.DelayMs | kernel/src/timer.rs:7-28 | the in-place computation and spin match the delay specification |
| Timer.TicksCoverDelay | kernel/src/timer.rs:21 | integer division gives ticks·unit ≤ fs < (ticks+1)·unit |
| Timer.ElapsedCoversDelay | kernel/src/timer.rs:19-27 | without wrap, the delay returns only once the counter has advanced by fs/unit ticks, covering the delay to within one tick |
| Timer.WrappedTargetReturnsAtOnce | kernel/src/timer.rs:22-27 | when the target wraps, the first read at or after start ends the wait |
| Timer.DelayOutcomes | kernel/src/timer.rs:7-28 | the delay panics exactly when the tick unit is still 0 or ms·10^12 overflows; a 0 ms delay returns at the first read |
| Trampoline.LeRoundTrip | kernel/src/smp/trampoline.rs:36 | decoding the little-endian bytes of a value below 256^width gives the value back |
| Trampoline.Store | kernel/src/smp/trampoline.rs:36 | an unaligned store puts the value's bytes at [offset, offset+width) and keeps every other byte |
| Trampoline.FieldsDisjoint | kernel/src/smp/trampoline.rs:1-8 | the five fields at 0, 8, 16, 24, 32 with widths 8, 8, 8, 8, 4 do not overlap and end at 36 |
| Trampoline.StoreRead | kernel/src/smp/trampoline.rs:36-52 | reading back a stored field gives the stored value |
| Trampoline.ApStacksDisjoint | kernel/src/smp/trampoline.rs:87-96 | two successful calls return tops of distinct, non-overlapping 32 KiB stacks inside AP_STACKS |
| Trampoline.PatchFields | kernel/src/smp/trampoline.rs:29-54 | after patching: CR3 (8 bytes at 0), `ap_startup` at 8, the stack top at 16, 0 at 24, a 4-byte 0 at 32, and no other byte changes; on the stack panic the tail from 16 is untouched |
| Trampoline.HeadFields | kernel/src/smp/trampoline.rs:31-41 | the CR3 and entry fields read back and the bytes from 16 on are unchanged |
| Trampoline.TailFields | kernel/src/smp/trampoline.rs:43-52 | the stack, GS and commword fields read back and the first two fields and the page after 36 are unchanged |
| Trampoline.WaitReady | kernel/src/smp/trampoline.rs:57-67 | `wait_for_ap` returns true exactly when some read of the commword is 1 before the timeout |
| Trampoline.WaitTimedOut | kernel/src/smp/trampoline.rs:57-67 | it returns false exactly when the timeout elapses with no such read |
| Trampoline.TrampolinePage.WriteLe | kernel/src/smp/trampoline.rs:36 | the in-place byte writes perform the store |
| Trampoline.TrampolinePage.LoadApTrampoline | kernel/src/smp/trampoline.rs:22-26 | bytes [0, len) become the binary and the rest of the page is kept |
| Trampoline.AllocateApStack | kernel/src/smp/trampoline.rs:87-96 | the counter goes up by one even on failure; an index ≥ 4 panics; otherwise the result is AP_STACKS[index] + 32768 |
| Trampoline.PatchTrampoline | kernel/src/smp/trampoline.rs:29-54 | the in-place patch matches the patch specification |
| Trampoline.WaitForAp | kernel/src/smp/trampoline.rs:57-67 | the polling loop matches the wait specification |
| Multicore.IcrHighReserved | kernel/src/init/multicore.rs:38-39 | the ICR-high write keeps the register's low 24 bits |
| Multicore.IcrHighDestination | kernel/src/init/multicore.rs:39 | the ICR-high write puts the APIC ID's low byte in bits 24–31 |
| Multicore.IcrHighRetarget | kernel/src/init/multicore.rs:58-60 | retargeting twice is retargeting once to the last ID |
| Multicore.SipiIcrLow | kernel/src/init/multicore.rs:65 | `vector \| 0x4600` has the vector in bits 0–7, Start-Up delivery mode 110, level assert, edge trigger |
| Multicore.InitIcrLowFields | kernel/src/init/multicore.rs:43 | 0x4500 has INIT delivery mode 101, level assert, edge trigger, vector 0 |
| Multicore.ApWritesShape | kernel/src/init/multicore.rs:11-26 | one waiting AP gets ESR, ICR-high, INIT, then twice ESR, ICR-high, SIPI(8): nine writes in that order |
| Multicore.SmpWritesShape | kernel/src/init/multicore.rs:3-29 | `init_smp` writes nine registers for each waiting AP in order and nothing for the others |
| Multicore.SendInitIpi | kernel/src/init/multicore.rs:32-47 | writes 0 to ESR, the retargeted ICR-high, then 0x4500 to ICR-low |
| Multicore.SendStartupIpi | kernel/src/init/multicore.rs:51-68 | writes 0 to ESR, the retargeted ICR-high, then vector \| 0x4600 to ICR-low |
| Multicore.SendStartupIpis | kernel/src/init/multicore.rs:19-24 | the `0..2` loop sends exactly two SIPIs |
| Multicore.StartProcessor | kernel/src/init/multicore.rs:12-25 | one AP: INIT then two SIPIs, other registers untouched |
| Multicore.InitSmp | kernel/src/init/multicore.rs:3-29 | the loop's writes are the concatenation over waiting APs, and registers other than ESR and ICR are untouched |
| Multicore.StackTopValue | kernel/src/init/multicore.rs:110-115 | STACK_TOP = AP_STACKS + 8 mod 2^32 |
| Multicore.StackTopIsNotTheEnd | kernel/src/init/multicore.rs:101-115 | that value is not the end of AP_STACKS, contrary to the comment |
| Multicore.SmpStatics.constructor | kernel/src/init/multicore.rs:88-108 | given a 16-byte aligned AP_STACKS, STACK_TOP, BSPDONE, APPRUNNING and the stack index start at 0 |
| Multicore.SmpStatics.InitStackTop | kernel/src/init/multicore.rs:110-115 | stores that value |
| ApProtected.Decode | kernel/src/ap_protected.rs:42-46 | the fields of a descriptor pair are in range |
| ApProtected.DescriptorRoundTrip | kernel/src/ap_protected.rs:42-46 | encoding a descriptor and decoding it gives it back |
| ApProtected.GdtEntries | kernel/src/ap_protected.rs:41-52 | null; code base 0 limit 0xFFFFF access 0x9A flags 0xC; data access 0x92 flags 0x8; system access 0x89 limit 0xF0068 flags 0xC; GDTR limit 31 = 8·4 − 1 |
| ApProtected.PmJumpAsWritten | kernel/src/ap_protected.rs:62-64 | decoded in 16-bit code, the protected-mode jump goes to 0:0x8060, and selector 0 is no code segment (the real-mode jump 0:0x8040 is fine) |
| ApProtected.PmJumpCorrected | kernel/src/ap_protected.rs:62-64 | with an operand-size prefix the jump is 0x8:0x8060 into a 32-bit code segment |
| ApProtected.PmJumpOutcome | kernel/src/ap_protected.rs:62-68 | with PE set, a runnable stub's jump either faults or lands at 0x8:0x8060 in 32-bit code |
| ApProtected.StubsRun | kernel/src/ap_protected.rs:41-64 | the stub as assembled faults at the protected-mode jump; the prefixed jump does not, with either data descriptor |
| ApProtected.PushedEspBound | kernel/src/ap_protected.rs:79 | a push keeps ESP below 2^32 on a 16-bit or a 32-bit stack |
| ApProtected.StackPushAsWritten | kernel/src/ap_protected.rs:45 | with the data descriptor as assembled (B clear) the push writes below 64 KiB whatever STACK_TOP is; STACK_TOP 0x10_0000, ID 0 gives ESP 0x10_FFFC and the write at 0xFFFC |
| ApProtected.StackPushCorrected | kernel/src/ap_protected.rs:45 | with flags 0xC (B set), the only change to the table, ESP drops by exactly 4 from the per-core stack pointer and the ID is written at the new ESP |
| ApProtected.ApCore.constructor | kernel/src/ap_protected.rs:31-34 | given a CR0 with PE clear, the AP starts in real mode at CS 0x0800, IP 0 (the SIPI vector page) running the given stub bytes, with the given control registers and an empty stack |
| ApProtected.ApCore.Cli | kernel/src/ap_protected.rs:35 | interrupts off |
| ApProtected.ApCore.Cld | kernel/src/ap_protected.rs:36 | direction flag clear |
| ApProtected.ApCore.JmpFar | kernel/src/ap_protected.rs:37-39 | in real mode loads CS:EIP; with PE set, faults leaving CS:EIP unchanged unless the selector names a code segment, else loads CS:EIP and the descriptor's code size |
| ApProtected.ApCore.XorAxAx | kernel/src/ap_protected.rs:56 | clears AX only |
| ApProtected.ApCore.MovAxImm | kernel/src/ap_protected.rs:69 | sets AX only |
| ApProtected.ApCore.MovEaxImm | kernel/src/ap_protected.rs:72 | sets EAX |
| ApProtected.ApCore.MovDsAx | kernel/src/ap_protected.rs:57 | DS := AX |
| ApProtected.ApCore.MovSsAx | kernel/src/ap_protected.rs:71 | SS := AX |
| ApProtected.ApCore.Lgdt | kernel/src/ap_protected.rs:58 | GDTR := (31, 0x8010) |
| ApProtected.ApCore.MovEaxCr0 | kernel/src/ap_protected.rs:59 | EAX := CR0 |
| ApProtected.ApCore.OrEaxOne | kernel/src/ap_protected.rs:60 | sets bit 0 of EAX and keeps the others |
| ApProtected.ApCore.MovCr0Eax | kernel/src/ap_protected.rs:61 | CR0 := EAX |
| ApProtected.ApCore.Cpuid | kernel/src/ap_protected.rs:73 | EAX and EBX take the leaf's values |
| ApProtected.ApCore.ShrEbx | kernel/src/ap_protected.rs:74 | EBX shifted right |
| ApProtected.ApCore.ShlEbx | kernel/src/ap_protected.rs:76 | EBX shifted left, truncated to 32 bits |
| ApProtected.ApCore.MovEdiEbx | kernel/src/ap_protected.rs:75 | EDI := EBX |
| ApProtected.ApCore.MovEspFrom | kernel/src/ap_protected.rs:77 | ESP := the 32-bit value of STACK_TOP |
| ApProtected.ApCore.SubEspEbx | kernel/src/ap_protected.rs:78 | ESP := ESP − EBX mod 2^32 |
| ApProtected.ApCore.PushEdi | kernel/src/ap_protected.rs:79 | with SS's B flag set ESP drops by 4 mod 2^32; with it clear only SP drops by 4 mod 2^16 and ESP[31:16] is kept; EDI is recorded with the linear address written (segment base + ESP or SP) |
| ApProtected.ApCore.SpinWhileZero | kernel/src/ap_protected.rs:81-84 | the loop on `bspdone` passes exactly when some read of the flag byte is nonzero |
| ApProtected.ApCore.LockIncByte | kernel/src/ap_protected.rs:85 | one byte increment wrapping at 256, nothing else in memory changes |
| ApProtected.ApCore.JmpFarTo | kernel/src/ap_protected.rs:86-88 | a far jump to the symbol's 32-bit address with the given selector, faulting as `JmpFar` does |
| ApProtected.ApCore.EnterProtectedMode | kernel/src/ap_protected.rs:34-64 | from real mode: interrupts off, DF clear, DS 0, GDTR loaded, CR0 = old + PE; then the stub's own jump bytes decide: a fault with CS:EIP still at the last jump target 0:0x8040, or 32-bit protected mode at 0x8:0x8060 |
| ApProtected.ApCore.LoadGdtAndSetPe | kernel/src/ap_protected.rs:56-61 | DS 0, GDTR (31, 0x8010), CR0 = old + PE |
| ApProtected.ApCore.LoadDataSegments | kernel/src/ap_protected.rs:68-71 | DS = SS = 16 |
| ApProtected.ApCore.ReadApicId | kernel/src/ap_protected.rs:72-75 | EBX = EDI = CPUID.1:EBX[31:24] |
| ApProtected.ApCore.ScaleApicId | kernel/src/ap_protected.rs:76 | EBX = ID·0x8000 (no truncation for an 8-bit ID) |
| ApProtected.ApCore.PushStack | kernel/src/ap_protected.rs:77-79 | ESP starts at STACK_TOP − ID·0x8000 mod 2^32 and the push moves it by 4 on ESP or on SP as SS's B flag says; the ID is recorded with the address written |
| ApProtected.ApCore.SetUpStack | kernel/src/ap_protected.rs:68-79 | DS = SS = 16, and the APIC ID pushed at the per-core stack pointer with selector 16's stack size and base |
| ApProtected.ApCore.ApInit | kernel/src/ap_protected.rs:34-88 | the stub on its own bytes: interrupts off, GDTR loaded, PE set, CR3/CR4/EFER never written; when the protected-mode jump faults (as assembled) the core stops there, CS:EIP still at the last jump target 0:0x8040, with stack, ESP, SS and memory unchanged and `apprunning` not incremented; otherwise 32-bit protected mode, segments 16, the ID pushed on a 16- or 32-bit stack as the table says, the spin, then one increment of `apprunning` and the jump to `ap_startup` |
| ApProtected.ApCore.RunProtected | kernel/src/ap_protected.rs:68-88 | from 0x8:0x8060 in 32-bit mode: segments, stack and push, the spin, then the increment and the jump to `ap_startup`, or still at 0x8060 with memory unchanged |
| ApProtected.LowerCaseSymbols | kernel/src/ap_protected.rs:81-85 | the increment of `apprunning` leaves the Rust statics APPRUNNING and BSPDONE as they were |
| ApProtected.StackOutsideArray | kernel/src/ap_protected.rs:77-78 | with STACK_TOP = AP_STACKS + 8, APIC ID 0 gets AP_STACKS + 8 and every other ID a stack below AP_STACKS |
| Metadata.BitPosInjective | src/allocators/metadata.rs:2 | two indices of the same word have different bit positions |
| Metadata.WordInRange | src/allocators/metadata.rs:2-3 | word index/64 exists exactly when index < 64·len |
| Metadata.MaskTestBit | src/allocators/metadata.rs:13 | the mask test reads bit index%64 |
| Metadata.WithBitSame | src/allocators/metadata.rs:3 | OR-ing the mask sets the bit |
| Metadata.WithBitOther | src/allocators/metadata.rs:3 | OR-ing the mask keeps every other bit |
| Metadata.WithBitTwice | src/allocators/metadata.rs:3 | OR-ing twice is OR-ing once |
| Metadata.WithoutBitSame | src/allocators/metadata.rs:8 | AND-ing the inverted mask clears the bit |
| Metadata.WithoutBitOther | src/allocators/metadata.rs:8 | AND-ing the inverted mask keeps every other bit |
| Metadata.WithoutBitTwice | src/allocators/metadata.rs:8 | AND-ing twice is AND-ing once |
| Metadata.IsBitSet | src/allocators/metadata.rs:11-14 | panics exactly when index ≥ 64·len |
| Metadata.IsBitSetBits | src/allocators/metadata.rs:11-14 | in range, `is_bit_set` reads bit `index` of the bit string |
| Metadata.SetBitWords | src/allocators/metadata.rs:1-4 | `set_bit` keeps the slice length |
| Metadata.ClearBitWords | src/allocators/metadata.rs:6-9 | `clear_bit` keeps the slice length |
| Metadata.SetBitBits | src/allocators/metadata.rs:1-4 | `set_bit` turns on exactly bit `index` of the bit string |
| Metadata.ClearBitBits | src/allocators/metadata.rs:6-9 | `clear_bit` turns off exactly bit `index` of the bit string |
| Metadata.SetThenTest | src/allocators/metadata.rs:1-14 | after `set_bit(i)`, `is_bit_set(i)` is true and every other index reads as before |
| Metadata.SetTwice | src/allocators/metadata.rs:1-4 | `set_bit` is idempotent |
| Metadata.ClearThenTest | src/allocators/metadata.rs:6-14 | after `clear_bit(i)`, `is_bit_set(i)` is false and every other index reads as before |
| Metadata.ClearTwice | src/allocators/metadata.rs:6-9 | `clear_bit` is idempotent |
| Metadata.SetBit | src/allocators/metadata.rs:1-4 | in place: the word update, or the bounds panic with the slice unchanged |
| Metadata.ClearBit | src/allocators/metadata.rs:6-9 | in place: the word update, or the bounds panic with the slice unchanged |
| SlabRun.New | src/allocators/run.rs:15-23 | `new` keeps start, size and count and has a four-word bitmap |
| SlabRun.NewAllFree | src/allocators/run.rs:15-23 | all 256 bits read free, free_count = num_objects, and the run is consistent exactly when it has at most 256 objects |
| SlabRun.Tracked | src/allocators/run.rs:9 | the bitmap tracks min(num_objects, 256) slots |
| SlabRun.SlotIndex | src/allocators/run.rs:36 | (ptr − start)/object_size is a slot of the run whose range contains ptr |
| SlabRun.ContainsIffInSlot | src/allocators/run.rs:43-48 | `contains(ptr)` holds exactly when ptr lies in some slot i < num_objects |
| SlabRun.InSlotInRun | src/allocators/run.rs:43-48 | a pointer inside a slot is contained in the run |
| SlabRun.SlotRoundTrip | src/allocators/run.rs:25-40 | the documented index of slot i's address is i |
| SlabRun.IndexRoundTrip | src/allocators/run.rs:36 | a contained pointer is its slot's address exactly when it is on a slot boundary |
| SlabRun.FirstFree | src/allocators/run.rs:27 | the search finds the lowest free slot, or None when none is free |
| SlabRun.Dealloc | src/allocators/run.rs:34-40 | the documented dealloc panics exactly when the slot is beyond the 256-bit bitmap |
| SlabRun.AllocTakesLowestFreeSlot | src/allocators/run.rs:25-32 | for every run: the corrected alloc returns the address of the lowest free slot below num_objects (and 256), inside the run, marks only that bit, and lowers free_count by one unless it is 0; with no free slot it returns None and changes nothing; on a consistent run the count always drops, stays consistent, and is 0 exactly when None |
| SlabRun.FirstFreeIs | src/allocators/run.rs:27 | the search returns exactly the lowest set bit |
| SlabRun.AllocThenDealloc | src/allocators/run.rs:25-40 | for every run, dealloc of the pointer the corrected alloc just returned restores the run, exactly when its count was not 0 (always for a consistent run) |
| SlabRun.AllocAsDocumentedDrifts | src/allocators/run.rs:25-40 | following the comments literally (any free bit of free_bitmap, no count change), while a slot of the run is free, alloc then dealloc leaves free_count one too high |
| SlabRun.AllocAsDocumentedLeavesRun | src/allocators/run.rs:20-29 | following the comments literally, once the run's own slots are taken, a free bit past num_objects is handed out at an address outside the run, where the corrected alloc returns None |
| SlabRun.AllocAsDocumentedExample | src/allocators/run.rs:20-29 | 128 slots of 32 bytes, all taken: the literal alloc returns start + 4096, outside the run |
| SlabRun.DeallocKeepsConsistent | src/allocators/run.rs:34-40 | dealloc keeps the run consistent exactly when the slot was in use, so a double free breaks it |
| SlabBin.ChunkManager.AllocateChunk | src/allocators/chunk.rs:19-24 | each request consumes the next scripted answer, None once they run out |
| SlabBin.TryRuns | src/allocators/bin.rs:31-37 | the scan returns the first run, in order, that yields a slot, or None when every run refuses |
| SlabBin.Bin.constructor | src/allocators/bin.rs:14-19 | object_size stored, no runs, and `object_size()` returns it |
| SlabBin.Bin.AddRun | src/allocators/bin.rs:46-65 | the in-place `add_run` matches its specification |
| SlabBin.Bin.Alloc | src/allocators/bin.rs:25-44 | the in-place scan, add and retry match the specification |
| SlabBin.FirstFitWins | src/allocators/bin.rs:31-37 | when run i is the first to yield, `alloc` returns its slot, updates only run i, and adds no run |
| SlabBin.AllocAppendsOnly | src/allocators/bin.rs:25-44 | runs are only appended, only after every run refused and a chunk came back; when every run refuses and no chunk comes back, `alloc` returns None and `runs` is unchanged |
| SlabBin.OversizedObjectsExhaustChunks | src/allocators/bin.rs:40-43 | with object_size > 4096 every new run is empty, so `alloc` adds a run per chunk until the chunks run out, then returns None |
| SlabBin.AddRunGeometry | src/allocators/bin.rs:46-65 | the new run starts at the chunk, holds 4096/object_size objects that fit in the chunk, and wastes less than one object |
| SlabBin.PageRunFitsBitmap | src/allocators/bin.rs:56 | a one-page run fits the 256-bit bitmap exactly when object_size ≥ 16 |

## Left out

- **Console and serial output:** `println!` and `serial_println!` are not modelled.
- **Locking:**
  - spin `Mutex`/`RwLock` guards, `lazy_static` and the `Locked` wrapper are not modelled;
  - every operation runs as one sequential actor;
  - the one lock the model does capture is the `src/` heap re-entering its own `ALLOCATOR` lock, as a `Hangs` outcome;
  - the atomic `fetch_add` of `AP_STACK_INDEX` is an ordinary increment;
  - visibility of `BSPDONE` and `APPRUNNING` across cores is not modelled.
- **The hardware page table** is a map from page to frame:
  - intermediate page-table frames are never allocated;
  - TLB flushes are not modelled;
  - `map_to` can therefore fail only with PageAlreadyMapped, so the `map_to` error branch of `map_physical` in kernel/src/interrupts.rs is unreachable in the model.
- **Machine words:** addresses, sizes and counters are unbounded naturals, so `usize` overflow of sums such as `current_virt + bytes_needed` is not modelled. The overflows the code's behaviour depends on are written out:
  - `ms * 10^12`;
  - `0x10 + 2*gsi`;
  - `wrapping_add`;
  - the 32-bit registers of the trampoline.
- **Inputs from outside:** CR3, the address of `ap_startup`, CPUID, `_rdrand64_step`, the HPET registers and the bytes of the trampoline binary are parameters.
- **Spin loops** (the HPET counter, the commword, `bspdone`) take a finite sequence of reads; running out is a "still spinning" outcome.
- **Timing in `init_smp`:** the `delay_ms`/`delay_us` calls are not modelled.
- **Undefined AP stack symbols:** `NUM_AP_STACKS` and `AP_STACK_INDEX` are not defined in kernel/src/init/multicore.rs. They are taken as 4 and starting at 0.
- **Frame allocator for the kernel page allocator:** the kernel crate's own `memory::BitmapFrameAllocator` is not part of this model; the one in src/memory.rs stands in for it.
- **`ap_startup`'s endless `pause` loop** and `_ioapic_read` (unused) are not modelled.
- **Slab stubs:**
  - `Run::alloc`, `Run::dealloc` and `ChunkManager::allocate_chunk` are `unimplemented!()`;
  - the model follows their doc comments;
  - `allocate_chunk` is a scripted sequence of answers;
  - `deallocate_chunk` is not modelled.
- SlabBin.Bin.Alloc: `Run::alloc` is a parameter function. The `Run` header that `add_run` writes at the chunk start is the run value appended to `runs`; the memory it occupies is not modelled.
- SrcHeap.FallbackSpec: a `BTreeMap` insert is taken to allocate only when the map is empty. Node splits in a fuller map are not modelled; `LARGE_ALLOCS` never gets past empty (`LargeAllocsStayEmpty`).
- **The `src/` page allocator:** src/allocator/fixed_size_block.rs:7 and src/interrupts.rs:4 import `PAGE_ALLOCATOR` from src/allocator/page_allocator.rs, which does not define it and whose `PageAllocator` has no `alloc` or `dealloc`. `SrcHeap` and `SrcInterrupts` use the kernel `PageAllocator` as a `PageAllocator?` that is null while uninitialised.
- **Intrusive free-list nodes** are not modelled as memory; a free list is the sequence of its block addresses.
- SrcInterrupts.UnmapPhysical: MAPPER and FRAME_ALLOCATOR are required to be separate from the page allocator's own table and frame allocator. The source does not show how those globals are defined.
- SrcInterrupts.UnmapPhysicalRegion:
  - it has the same separation requirement as UnmapPhysical;
  - it requires the region's pointer to be at least its in-page offset, which always holds for regions built by `map_physical_region`;
  - the `usize` underflow otherwise is not modelled.
- SrcInterrupts.UnmapPhysicalRegionCorrected: the same two requirements as UnmapPhysicalRegion.
- KernelInterrupts.ValidateRsdp: the length field must not exceed the bytes supplied, because the source reads whatever memory follows the structure. The accessor's panic message is the `unwrap` prefix only; the `Utf8Error` details are not modelled.
- ApProtected.ApCore.ApInit: runs the stubs whose protected-mode jump lands on `_L8060`, either in no code segment or in selector 8, with selector 8 a 32-bit code segment (`Runnable`). The stub as assembled and the corrected stub both qualify (`StubsRun`).
- **Processor faults in the trampoline:** a fault is a final `Faulted` mode. The exception delivery that follows (with a real-mode IDTR, most likely a triple fault) is not modelled. Loading SS with a descriptor that is not a writable data segment would also fault; that check is not modelled, and both tables hold such a segment at selector 16.

## Findings

| source | as written | input that shows it | evidently intended | confidence | as-written member | corrected member |
|---|---|---|---|---|---|---|
| kernel/src/ap_protected.rs:62-64 | `.byte 0xEA; .long _L8060; .word 0x8` is executed while CS is still the 16-bit real-mode segment, so the CPU reads a 16-bit offset and takes the upper half of the `.long` as the selector; loading the null selector faults, so the AP never reaches `_L8060` | the stub itself: the bytes EA 60 80 00 00 08 00 decode in 16-bit code as `jmp 0x0000:0x8060`, a null selector | `jmp 0x8:_L8060` into the 32-bit code segment, which needs an operand-size prefix (0x66) | high, not executed | ApProtected.PmJumpAsWritten | ApProtected.PmJumpCorrected |
| kernel/src/ap_protected.rs:45 | the data descriptor loaded into SS has flags 0x8, B clear, so `push edi` uses SP: it moves only the low 16 bits of ESP and writes below 64 KiB | STACK_TOP 0x10_0000, APIC ID 0: ESP ends at 0x10_FFFC and the ID is written at 0xFFFC, not at 0xF_FFFC | flags 0xC, a 32-bit stack like the code segment, so the push writes at STACK_TOP − ID·0x8000 − 4 | high, not executed | ApProtected.StackPushAsWritten | ApProtected.StackPushCorrected |
| src/interrupts.rs:146-149 | `unmap_physical_region` adds the in-page offset to `mapped_length`, which already includes it | physical_start 0x1F00, size 0x100: one page is mapped, two are unmapped, and the second unmap panics "unmap failed" when the next page is not mapped, or frees a neighbour's page when it is | unmap `ceil(mapped_length/4096)` pages, the count the map side used | high, not executed | SrcInterrupts.UnmapRegionAsWrittenPanics | SrcInterrupts.UnmapPagesMatches |
| src/allocator/fixed_size_block.rs:81-82 | `fallback_alloc` inserts into the `BTreeMap` `LARGE_ALLOCS` while `alloc` (:109) holds the lock of `ALLOCATOR`, the global allocator; the empty map allocates its first node through `ALLOCATOR.alloc`, which spins on that lock for ever | any request over 2048 bytes, or any class other than the first while its list is empty, once the page allocator succeeds: the pages are mapped and the call never returns | record the allocation without allocating under the lock, as the kernel revision's fixed 512-slot table does | high, not executed | SrcHeap.FallbackAsWritten | SrcHeap.LargeAllocThenFree |
| src/allocators/run.rs:25-40 | the documented `alloc` marks the bit allocated but never decrements `free_count`, while the documented `dealloc` increments it | a fresh run with one object: alloc then dealloc leaves free_count = 2 for one object | `alloc` also decrements `free_count`, so that alloc then dealloc restores the run | medium, not executed | SlabRun.AllocAsDocumentedDrifts | SlabRun.AllocThenDealloc |
| src/allocators/run.rs:20-27 | `new` marks all 256 bits free whatever `num_objects` is, and the documented `alloc` finds "a free bit in free_bitmap", so it can pick a bit past the run's last slot | object_size 32, 128 objects (one page), slots 0..127 taken: bit 128 is free and alloc returns start + 4096, outside the run | the search stops at `num_objects` and alloc returns None when the run is full | medium, not executed | SlabRun.AllocAsDocumentedLeavesRun | SlabRun.AllocTakesLowestFreeSlot |
