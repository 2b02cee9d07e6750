/**
 * The ACPI mapping helpers and interrupt numbering of src/interrupts.rs.
 *
 * Here `map_physical_region` really maps: it takes a fresh virtual range from the page
 * allocator (`allocate_kernel_pages`), then maps each page of it to the next frame of the
 * region through the MAPPER page table. `unmap_physical_region` recomputes the page count,
 * unmaps each page, hands each unmapped frame to FRAME_ALLOCATOR, and gives the virtual
 * range back to the page allocator (`free_kernel_pages`).
 *
 * MAPPER and FRAME_ALLOCATOR are globals of src/memory.rs whose definitions are not part
 * of this model; they are parameters, a page table and a bitmap frame allocator. The page
 * allocator is the kernel's (the one in src/allocator/page_allocator.rs has no `alloc`).
 */
module SrcInterrupts {
  import opened Common
  import opened Paging
  import FA = FrameAllocator
  import PA = PageAllocator
  import KI = KernelInterrupts

  // ---------------------------------------------------------------- interrupt numbers

  const PIC_1_OFFSET: bv8 := 32
  const PIC_2_OFFSET: bv8 := PIC_1_OFFSET + 8

  /** The interrupt lines the kernel handles, numbered from the primary PIC's offset. */
  datatype InterruptIndex = Timer | Keyboard

  /** `as_u8`: `Timer` is PIC_1_OFFSET and `Keyboard` the next value. */
  function AsU8(i: InterruptIndex): bv8
  {
    match i
    case Timer => PIC_1_OFFSET
    case Keyboard => PIC_1_OFFSET + 1
  }

  /**
   * The timer arrives as vector 32 and the keyboard as 33 (IRQ 0 and 1 of the primary PIC);
   * the secondary PIC starts at 40, so both lie in the primary PIC's eight vectors, above
   * the 32 CPU exception vectors.
   */
  lemma InterruptVectors()
    ensures AsU8(Timer) == 32 && AsU8(Keyboard) == 33 && PIC_2_OFFSET == 40
    ensures forall i: InterruptIndex :: PIC_1_OFFSET <= AsU8(i) < PIC_2_OFFSET
    ensures AsU8(Timer) != AsU8(Keyboard)
  {
  }

  // ---------------------------------------------------------------- region arithmetic

  /** The pages `map_physical_region` maps: every page touched by the region. */
  function RegionPages(physicalAddress: nat, size: nat): nat
  {
    PagesFor(physicalAddress % PAGE_SIZE + size)
  }

  /** The mapping `map_physical_region` returns once the region's pages are mapped at `virtBase`. */
  function RegionMapping(physicalAddress: nat, size: nat, virtBase: nat): (m: KI.PhysicalMapping)
    ensures m.physicalStart == physicalAddress && m.regionLength == size
    ensures m.virtualStart == virtBase + physicalAddress % PAGE_SIZE
    ensures m.mappedLength == physicalAddress % PAGE_SIZE + size
  {
    var physBasePage := AlignDown(physicalAddress);
    var offsetAsPage := physicalAddress - physBasePage;
    var mappedSize := offsetAsPage + size;
    KI.PhysicalMapping(physicalAddress, virtBase + offsetAsPage, size, mappedSize)
  }

  /** The mapped pages hold the whole region and no page more: the last page still holds part of it. */
  lemma RegionPagesCover(physicalAddress: nat, size: nat)
    ensures var n := RegionPages(physicalAddress, size);
      var base := AlignDown(physicalAddress);
      physicalAddress + size <= base + n * PAGE_SIZE
      && (n == 0 || base + (n - 1) * PAGE_SIZE < physicalAddress + size)
  {
  }

  /** `unmap_physical_region`'s start of the virtual range: the pointer minus the offset in the page. */
  function UnmapBase(m: KI.PhysicalMapping): int
  {
    var physBasePage := AlignDown(m.physicalStart);
    var offsetAsPage := m.physicalStart - physBasePage;
    m.virtualStart - offsetAsPage
  }

  /** The unmap side finds the virtual range the map side allocated. */
  lemma UnmapBaseInverts(physicalAddress: nat, size: nat, virtBase: nat)
    ensures UnmapBase(RegionMapping(physicalAddress, size, virtBase)) == virtBase
  {
  }

  /**
   * `unmap_physical_region`'s page count as written: the offset in the page is added to
   * `mapped_length`, which already includes it.
   */
  function UnmapPagesAsWritten(m: KI.PhysicalMapping): nat
  {
    var physBasePage := AlignDown(m.physicalStart);
    var offsetAsPage := m.physicalStart - physBasePage;
    var mappedSize := offsetAsPage + m.mappedLength;
    PagesFor(mappedSize)
  }

  /** The page count the unmap side needs: the pages spanned by `mapped_length`. */
  function UnmapPages(m: KI.PhysicalMapping): nat
  {
    PagesFor(m.mappedLength)
  }

  /**
   * As written, a region at 0x1F00 of 0x100 bytes is mapped with one page and unmapped
   * with two; in general the count is never too small and is too large only for regions
   * that do not start on a page boundary.
   */
  lemma UnmapPagesAsWrittenOvercounts(virtBase: nat)
    ensures RegionPages(0x1F00, 0x100) == 1
    ensures UnmapPagesAsWritten(RegionMapping(0x1F00, 0x100, virtBase)) == 2
    ensures forall a: nat, s: nat :: UnmapPagesAsWritten(RegionMapping(a, s, virtBase)) >= RegionPages(a, s)
    ensures forall a: nat, s: nat :: a % PAGE_SIZE == 0 ==>
              UnmapPagesAsWritten(RegionMapping(a, s, virtBase)) == RegionPages(a, s)
  {
  }

  /** The corrected count releases exactly the pages that were mapped. */
  lemma UnmapPagesMatches(physicalAddress: nat, size: nat, virtBase: nat)
    ensures UnmapPages(RegionMapping(physicalAddress, size, virtBase)) == RegionPages(physicalAddress, size)
  {
  }

  // ---------------------------------------------------------------- the page loops

  const NOT_INITIALIZED: string := "PAGE_ALLOCATOR not initialized"
  /** The `expect` on MAPPER's `Option` when it holds no page table. */
  const MAPPER_LOCK_FAILED: string := "Failed to lock MAPPER"
  const ALLOC_FAILED: string := "alloc failed"
  const MAP_TO_FAILED: string := "map_to failed"
  const UNMAP_FAILED: string := "unmap failed"
  const DEALLOC_FAILED: string := "Failed to deallocate kernel pages"
  const NOT_IMPLEMENTED: string := "not yet implemented"

  /** The loop of `map_physical` from page `i`: page virtBase + i * 4096 to frame phys + i * 4096, any error panics. */
  function MapRangeFrom(t: map<nat, nat>, virtBase: nat, phys: nat, n: nat, i: nat): (map<nat, nat>, Outcome<()>)
    decreases n - i
  {
    if i >= n then (t, Return(()))
    else
      var page := PA.PageAt(virtBase, i);
      if page in t then (t, Panic(MAP_TO_FAILED))
      else MapRangeFrom(t[page := PA.PageAt(phys, i)], virtBase, phys, n, i + 1)
  }

  /**
   * The loop succeeds exactly when none of the remaining pages is mapped yet; it then maps
   * page j to frame phys + j * 4096 (rounded down to a frame) and adds nothing else.
   */
  lemma {:induction false} MapRangeFromResult(t: map<nat, nat>, virtBase: nat, phys: nat, n: nat, i: nat)
    requires i <= n
    ensures var (t', r) := MapRangeFrom(t, virtBase, phys, n, i);
      (r.Return? <==> forall j :: i <= j < n ==> PA.PageAt(virtBase, j) !in t)
      && (r.Return? ==> t'.Keys == t.Keys + PA.PagesOf(virtBase, i, n)
                        && (forall p :: p in t ==> t'[p] == t[p])
                        && forall j :: i <= j < n ==> PA.PageAt(virtBase, j) in t' && t'[PA.PageAt(virtBase, j)] == AlignDown(phys) + j * PAGE_SIZE)
      && (r.Panic? ==> r.reason == MAP_TO_FAILED)
    decreases n - i
  {
    if i < n && PA.PageAt(virtBase, i) !in t {
      var t1 := t[PA.PageAt(virtBase, i) := PA.PageAt(phys, i)];
      MapRangeFromResult(t1, virtBase, phys, n, i + 1);
      PA.PageAtIs(phys, i);
      forall j | i + 1 <= j < n ensures (PA.PageAt(virtBase, j) in t1 <==> PA.PageAt(virtBase, j) in t) {
        PA.PageAtInjective(virtBase, i, j);
      }
    }
  }

  /** The loop of `unmap_physical` from page `i`: unmap, then give the frame back to FRAME_ALLOCATOR. */
  function UnmapRangeFrom(f: FA.Frames, t: map<nat, nat>, base: nat, n: nat, i: nat): (r: (FA.Frames, map<nat, nat>, Outcome<()>))
    requires f.Valid()
    ensures r.0.Valid() && r.0.base == f.base && r.0.count == f.count
    decreases n - i
  {
    if i >= n then (f, t, Return(()))
    else
      var page := PA.PageAt(base, i);
      if page !in t then (f, t, Panic(UNMAP_FAILED))
      else
        match FA.DeallocateSpec(f, t[page])
        case None => (f, t - {page}, Panic(NOT_IMPLEMENTED))
        case Some(f') => UnmapRangeFrom(f', t - {page}, base, n, i + 1)
  }

  /** When the loop finishes, it has removed exactly the range's pages, which were all mapped. */
  lemma {:induction false} UnmapRangeFromResult(f: FA.Frames, t: map<nat, nat>, base: nat, n: nat, i: nat)
    requires f.Valid() && i <= n
    ensures var (f', t', r) := UnmapRangeFrom(f, t, base, n, i);
      r.Return? ==> (forall j :: i <= j < n ==> PA.PageAt(base, j) in t)
                    && t' == t - PA.PagesOf(base, i, n)
    decreases n - i
  {
    if i < n {
      var page := PA.PageAt(base, i);
      if page in t && FA.DeallocateSpec(f, t[page]).Some? {
        var t1 := t - {page};
        UnmapRangeFromResult(FA.DeallocateSpec(f, t[page]).value, t1, base, n, i + 1);
        if UnmapRangeFrom(f, t, base, n, i).2.Return? {
          forall j | i + 1 <= j < n ensures PA.PageAt(base, j) in t {
            PA.PageAtInjective(base, i, j);
          }
          assert t1 - PA.PagesOf(base, i + 1, n) == t - PA.PagesOf(base, i, n);
        }
      }
    }
  }

  /**
   * Unmapping a range that was just mapped into a table leaves the table as it was before
   * the mapping, provided every frame goes back to FRAME_ALLOCATOR without a panic.
   */
  lemma MapThenUnmapRestores(f: FA.Frames, t: map<nat, nat>, virtBase: nat, phys: nat, n: nat)
    requires f.Valid()
    requires MapRangeFrom(t, virtBase, phys, n, 0).1.Return?
    requires UnmapRangeFrom(f, MapRangeFrom(t, virtBase, phys, n, 0).0, virtBase, n, 0).2.Return?
    ensures UnmapRangeFrom(f, MapRangeFrom(t, virtBase, phys, n, 0).0, virtBase, n, 0).1 == t
  {
    var t1 := MapRangeFrom(t, virtBase, phys, n, 0).0;
    MapRangeFromResult(t, virtBase, phys, n, 0);
    UnmapRangeFromResult(f, t1, virtBase, n, 0);
    PagesOfAre(virtBase, 0, n);
    assert t.Keys !! PA.PagesOf(virtBase, 0, n);
    assert t1 - PA.PagesOf(virtBase, 0, n) == t;
  }

  /**
   * As written, unmapping the region 0x1F00..0x2000 right after mapping it panics when the
   * page after its one mapped page is not mapped: the loop reaches a second page. With
   * the corrected count the same unmap gives the table back as it was, unless returning
   * the frame to FRAME_ALLOCATOR panics.
   */
  lemma UnmapRegionAsWrittenPanics(f: FA.Frames, t: map<nat, nat>, virtBase: nat)
    requires f.Valid()
    requires PA.PageAt(virtBase, 0) !in t && PA.PageAt(virtBase, 1) !in t
    ensures var region := RegionMapping(0x1F00, 0x100, virtBase);
      var t1 := MapRangeFrom(t, virtBase, AlignDown(0x1F00), RegionPages(0x1F00, 0x100), 0).0;
      UnmapBase(region) == virtBase
      && UnmapRangeFrom(f, t1, virtBase, UnmapPagesAsWritten(region), 0).2.Panic?
      && (UnmapRangeFrom(f, t1, virtBase, UnmapPages(region), 0).2.Return? ==>
            UnmapRangeFrom(f, t1, virtBase, UnmapPages(region), 0).1 == t)
  {
    var region := RegionMapping(0x1F00, 0x100, virtBase);
    UnmapPagesAsWrittenOvercounts(virtBase);
    UnmapPagesMatches(0x1F00, 0x100, virtBase);
    var t1 := MapRangeFrom(t, virtBase, AlignDown(0x1F00), 1, 0).0;
    assert t1 == t[PA.PageAt(virtBase, 0) := PA.PageAt(AlignDown(0x1F00), 0)];
    PA.PageAtInjective(virtBase, 0, 1);
    assert PA.PageAt(virtBase, 1) !in t1 - {PA.PageAt(virtBase, 0)};
    if UnmapRangeFrom(f, t1, virtBase, 1, 0).2.Return? {
      MapThenUnmapRestores(f, t, virtBase, AlignDown(0x1F00), 1);
    }
  }

  lemma {:induction false} PagesOfAre(start: nat, lo: nat, hi: nat)
    ensures forall p :: p in PA.PagesOf(start, lo, hi) <==> exists j :: lo <= j < hi && p == PA.PageAt(start, j)
    decreases hi - lo
  {
    if lo < hi {
      PagesOfAre(start, lo + 1, hi);
    }
  }

  /**
   * If MAPPER were the page allocator's own table, `map_physical` of a non-empty range
   * would always panic: `alloc` has already mapped the first page of the fresh range.
   */
  lemma SharedMapperPanics(s: PA.PAState, phys: nat, n: nat)
    requires s.frames.Valid() && n > 0
    requires PA.AllocSpec(s, n).1.Ok?
    ensures MapRangeFrom(PA.AllocSpec(s, n).0.table, PA.AllocSpec(s, n).1.value, phys, n, 0).1 == Panic(MAP_TO_FAILED)
  {
    PA.AllocSucceeds(s, n);
    assert PA.PageAt(s.cursor, 0) in PA.PagesOf(s.cursor, 0, n);
  }

  // ---------------------------------------------------------------- the operations

  /** `allocate_kernel_pages`: a fresh virtual range from the page allocator; any error panics. */
  method AllocateKernelPages(pa: PA.PageAllocator?, numPages: nat) returns (r: Outcome<nat>)
    requires pa != null ==> pa.Valid()
    modifies if pa == null then {} else {pa, pa.frameAllocator, pa.mapper}
    ensures pa == null ==> r == Panic(NOT_INITIALIZED)
    ensures pa != null ==> pa.Valid()
    ensures pa != null ==>
      var (s', a) := PA.AllocSpec(old(pa.State()), numPages);
      pa.State() == s' && r == (if a.Ok? then Return(a.value) else Panic(ALLOC_FAILED))
  {
    if pa == null {
      return Panic(NOT_INITIALIZED);
    }
    var page := pa.Alloc(numPages);
    if page.Err? {
      return Panic(ALLOC_FAILED);
    }
    r := Return(page.value);
  }

  /**
   * `map_physical`: allocate the range, then take MAPPER (`null` when it holds no table,
   * a panic once the range is allocated) and map the range page by page through it.
   * MAPPER may or may not be the page allocator's own table; both cases are stated.
   */
  method MapPhysical(pa: PA.PageAllocator?, mapper: PageTable?, phys: nat, numPages: nat) returns (r: Outcome<nat>)
    requires pa != null ==> pa.Valid()
    modifies if pa == null then {} else {pa, pa.frameAllocator, pa.mapper}, mapper
    ensures pa == null ==> r == Panic(NOT_INITIALIZED) && (mapper != null ==> mapper.entries == old(mapper.entries))
    ensures pa != null ==> pa.Valid()
    ensures pa != null ==>
      var (s1, a) := PA.AllocSpec(old(pa.State()), numPages);
      if a.Err? then
        r == Panic(ALLOC_FAILED) && pa.State() == s1
        && (mapper != null && mapper != pa.mapper ==> mapper.entries == old(mapper.entries))
      else if mapper == null then
        r == Panic(MAPPER_LOCK_FAILED) && pa.State() == s1
      else
        var t0 := if mapper == pa.mapper then s1.table else old(mapper.entries);
        var (t', m) := MapRangeFrom(t0, a.value, phys, numPages, 0);
        mapper.entries == t'
        && r == (if m.Return? then Return(a.value) else Panic(MAP_TO_FAILED))
        && pa.State() == (if mapper == pa.mapper then s1.(table := t') else s1)
  {
    var virt := AllocateKernelPages(pa, numPages);
    if virt.Panic? {
      return Panic(virt.reason);
    }
    var virtBase := virt.value;
    if mapper == null {
      return Panic(MAPPER_LOCK_FAILED);
    }
    ghost var s1 := pa.State();
    var i := 0;
    while i < numPages
      invariant 0 <= i <= numPages && pa.Valid()
      invariant pa.frameAllocator.State() == s1.frames && pa.currentVirt == s1.cursor && pa.endVirt == s1.end
      invariant mapper != pa.mapper ==> pa.mapper.entries == s1.table
      invariant MapRangeFrom(mapper.entries, virtBase, phys, numPages, i)
                == MapRangeFrom(if mapper == pa.mapper then s1.table else old(mapper.entries), virtBase, phys, numPages, 0)
    {
      var offset := i * PAGE_SIZE;
      var page := AlignDown(virtBase + offset);
      var frame := AlignDown(phys + offset);
      var err := mapper.MapTo(page, frame);
      if err.Some? {
        return Panic(MAP_TO_FAILED);
      }
      i := i + 1;
    }
    r := Return(virtBase);
  }

  /** `map_physical_region`: map the pages spanned by the region, then point into the first one. */
  method MapPhysicalRegion(pa: PA.PageAllocator?, mapper: PageTable?, physicalAddress: nat, size: nat)
      returns (r: Outcome<KI.PhysicalMapping>)
    requires pa != null ==> pa.Valid()
    modifies if pa == null then {} else {pa, pa.frameAllocator, pa.mapper}, mapper
    ensures pa == null ==> r == Panic(NOT_INITIALIZED)
    ensures pa != null ==> pa.Valid()
    ensures pa != null ==>
      var (s1, a) := PA.AllocSpec(old(pa.State()), RegionPages(physicalAddress, size));
      if a.Err? then r == Panic(ALLOC_FAILED)
      else if mapper == null then r == Panic(MAPPER_LOCK_FAILED)
      else
        var t0 := if mapper == pa.mapper then s1.table else old(mapper.entries);
        var (t', m) := MapRangeFrom(t0, a.value, AlignDown(physicalAddress), RegionPages(physicalAddress, size), 0);
        mapper.entries == t'
        && r == (if m.Return? then Return(RegionMapping(physicalAddress, size, a.value)) else Panic(MAP_TO_FAILED))
  {
    var physBasePage := AlignDown(physicalAddress);
    var offsetAsPage := physicalAddress - physBasePage;
    var mappedSize := offsetAsPage + size;
    var numPages := PagesFor(mappedSize);
    var virtBase := MapPhysical(pa, mapper, physBasePage, numPages);
    if virtBase.Panic? {
      return Panic(virtBase.reason);
    }
    r := Return(KI.PhysicalMapping(physicalAddress, virtBase.value + offsetAsPage, size, mappedSize));
  }

  /** `free_kernel_pages`: give the range back to the page allocator; an error panics. */
  method FreeKernelPages(pa: PA.PageAllocator?, base: nat, numPages: nat) returns (r: Outcome<()>)
    requires pa != null ==> pa.Valid()
    modifies if pa == null then {} else {pa.frameAllocator, pa.mapper}
    ensures pa == null ==> r == Panic(NOT_INITIALIZED)
    ensures pa != null ==> pa.Valid()
    ensures pa != null ==>
      var (s', d) := PA.DeallocSpec(old(pa.State()), base, numPages);
      pa.State() == s'
      && r == (if d.Panic? then Panic(d.reason) else if d.value.Err? then Panic(DEALLOC_FAILED) else Return(()))
  {
    if pa == null {
      return Panic(NOT_INITIALIZED);
    }
    var d := pa.Dealloc(base, numPages);
    if d.Panic? {
      return Panic(d.reason);
    }
    if d.value.Err? {
      return Panic(DEALLOC_FAILED);
    }
    r := Return(());
  }

  /**
   * `unmap_physical`: take MAPPER (`null` when it holds no table: a panic before anything
   * changes), unmap each page through it and return its frame to FRAME_ALLOCATOR, then
   * free the virtual range. MAPPER and FRAME_ALLOCATOR are taken to be separate from the
   * page allocator's own table and frame allocator.
   */
  method UnmapPhysical(pa: PA.PageAllocator?, mapper: PageTable?, frames: FA.BitmapFrameAllocator, base: nat, numPages: nat)
      returns (r: Outcome<()>)
    requires frames.Valid() && (pa != null ==> pa.Valid())
    requires pa != null ==> mapper != pa.mapper && frames != pa.frameAllocator
    modifies mapper, frames, if pa == null then {} else {pa.frameAllocator, pa.mapper}
    ensures frames.Valid()
    ensures mapper == null ==>
      r == Panic(MAPPER_LOCK_FAILED) && frames.State() == old(frames.State()) && (pa != null ==> pa.State() == old(pa.State()))
    ensures mapper != null ==>
      var (f', t', u) := UnmapRangeFrom(old(frames.State()), old(mapper.entries), base, numPages, 0);
      frames.State() == f' && mapper.entries == t'
      && (u.Panic? ==> r == u && (pa != null ==> pa.State() == old(pa.State())))
      && (u.Return? && pa == null ==> r == Panic(NOT_INITIALIZED))
      && (u.Return? && pa != null ==>
            var (s', d) := PA.DeallocSpec(old(pa.State()), base, numPages);
            pa.State() == s'
            && r == (if d.Panic? then Panic(d.reason) else if d.value.Err? then Panic(DEALLOC_FAILED) else Return(())))
  {
    if mapper == null {
      return Panic(MAPPER_LOCK_FAILED);
    }
    var i := 0;
    while i < numPages
      invariant 0 <= i <= numPages && frames.Valid()
      invariant UnmapRangeFrom(frames.State(), mapper.entries, base, numPages, i)
                == UnmapRangeFrom(old(frames.State()), old(mapper.entries), base, numPages, 0)
      invariant pa != null ==> pa.State() == old(pa.State()) && pa.Valid()
    {
      var va := base + i * PAGE_SIZE;
      var unmapped := mapper.Unmap(AlignDown(va));
      if unmapped.Err? {
        return Panic(UNMAP_FAILED);
      }
      var ok := frames.DeallocateFrame(unmapped.value);
      if !ok {
        return Panic(NOT_IMPLEMENTED);
      }
      i := i + 1;
    }
    r := FreeKernelPages(pa, base, numPages);
  }

  /**
   * `unmap_physical_region` as written: the virtual range starts at the pointer less the
   * in-page offset, and its page count adds that offset to `mapped_length` a second time
   * (`UnmapPagesAsWritten`).
   */
  method UnmapPhysicalRegion(pa: PA.PageAllocator?, mapper: PageTable?, frames: FA.BitmapFrameAllocator, region: KI.PhysicalMapping)
      returns (r: Outcome<()>)
    requires frames.Valid() && (pa != null ==> pa.Valid())
    requires pa != null ==> mapper != pa.mapper && frames != pa.frameAllocator
    requires region.virtualStart >= region.physicalStart % PAGE_SIZE
    modifies mapper, frames, if pa == null then {} else {pa.frameAllocator, pa.mapper}
    ensures frames.Valid()
    ensures mapper == null ==>
      r == Panic(MAPPER_LOCK_FAILED) && frames.State() == old(frames.State()) && (pa != null ==> pa.State() == old(pa.State()))
    ensures mapper != null ==>
      var (f', t', u) := UnmapRangeFrom(old(frames.State()), old(mapper.entries), UnmapBase(region), UnmapPagesAsWritten(region), 0);
      frames.State() == f' && mapper.entries == t'
      && (u.Panic? ==> r == u && (pa != null ==> pa.State() == old(pa.State())))
      && (u.Return? && pa == null ==> r == Panic(NOT_INITIALIZED))
      && (u.Return? && pa != null ==>
            var (s', d) := PA.DeallocSpec(old(pa.State()), UnmapBase(region), UnmapPagesAsWritten(region));
            pa.State() == s'
            && r == (if d.Panic? then Panic(d.reason) else if d.value.Err? then Panic(DEALLOC_FAILED) else Return(())))
  {
    var physBasePage := AlignDown(region.physicalStart);
    var offsetAsPage := region.physicalStart - physBasePage;
    var mappedSize := offsetAsPage + region.mappedLength;
    var numPages := PagesFor(mappedSize);
    var virtBase := region.virtualStart - offsetAsPage;
    r := UnmapPhysical(pa, mapper, frames, virtBase, numPages);
  }

  /** `unmap_physical_region` with the corrected page count, `PagesFor(mapped_length)`: the pages that were mapped. */
  method UnmapPhysicalRegionCorrected(pa: PA.PageAllocator?, mapper: PageTable?, frames: FA.BitmapFrameAllocator, region: KI.PhysicalMapping)
      returns (r: Outcome<()>)
    requires frames.Valid() && (pa != null ==> pa.Valid())
    requires pa != null ==> mapper != pa.mapper && frames != pa.frameAllocator
    requires region.virtualStart >= region.physicalStart % PAGE_SIZE
    modifies mapper, frames, if pa == null then {} else {pa.frameAllocator, pa.mapper}
    ensures frames.Valid()
    ensures mapper == null ==>
      r == Panic(MAPPER_LOCK_FAILED) && frames.State() == old(frames.State()) && (pa != null ==> pa.State() == old(pa.State()))
    ensures mapper != null ==>
      var (f', t', u) := UnmapRangeFrom(old(frames.State()), old(mapper.entries), UnmapBase(region), UnmapPages(region), 0);
      frames.State() == f' && mapper.entries == t'
      && (u.Panic? ==> r == u && (pa != null ==> pa.State() == old(pa.State())))
      && (u.Return? && pa == null ==> r == Panic(NOT_INITIALIZED))
      && (u.Return? && pa != null ==>
            var (s', d) := PA.DeallocSpec(old(pa.State()), UnmapBase(region), UnmapPages(region));
            pa.State() == s'
            && r == (if d.Panic? then Panic(d.reason) else if d.value.Err? then Panic(DEALLOC_FAILED) else Return(())))
  {
    var physBasePage := AlignDown(region.physicalStart);
    var offsetAsPage := region.physicalStart - physBasePage;
    var numPages := PagesFor(region.mappedLength);
    var virtBase := region.virtualStart - offsetAsPage;
    r := UnmapPhysical(pa, mapper, frames, virtBase, numPages);
  }
}
