/**
 * The ACPI handler of kernel/src/kernel_acpi.rs. Tables are reached through the
 * bootloader's complete physical-memory mapping, whose offset is only known at run time
 * (it is a parameter here); unmapping is a no-op because that mapping is permanent.
 * Its `map_physical` maps a range into the kernel heap window and, unlike the one in
 * kernel/src/interrupts.rs, panics on any page that is already mapped.
 */
module KernelAcpi {
  import opened Common
  import Paging
  import PA = PageAllocator
  import KI = KernelInterrupts

  /** `map_physical_region` with the bootloader's physical-memory offset. */
  function MapPhysicalRegion(physicalMemoryOffset: nat, physicalAddress: nat, size: nat): (m: KI.PhysicalMapping)
    ensures m.physicalStart == physicalAddress && m.regionLength == size
    ensures m.virtualStart == physicalMemoryOffset + physicalAddress
    ensures m.mappedLength == physicalAddress % PAGE_SIZE + size
  {
    var physBasePage := AlignDown(physicalAddress);
    var offsetInPage := physicalAddress - physBasePage;
    var mappedSize := offsetInPage + size;
    var virtBase := physicalMemoryOffset + physBasePage;
    KI.PhysicalMapping(physicalAddress, virtBase + offsetInPage, size, mappedSize)
  }

  /**
   * Whatever the offset, the page base is aligned and at most the address, the offset in
   * the page is below 4096, and the pointer is the page's virtual base plus that offset.
   */
  lemma MapPhysicalRegionLayout(physicalMemoryOffset: nat, physicalAddress: nat, size: nat)
    ensures var m := MapPhysicalRegion(physicalMemoryOffset, physicalAddress, size);
      var base := AlignDown(physicalAddress);
      base % PAGE_SIZE == 0 && base <= physicalAddress && physicalAddress - base < PAGE_SIZE
      && m.mappedLength == (physicalAddress - base) + size
      && m.virtualStart == (physicalMemoryOffset + base) + (physicalAddress - base)
  {
  }

  /** With the offset the kernel also uses, the handler agrees with the one in kernel/src/interrupts.rs. */
  lemma AgreesWithInterruptsHandler(physicalAddress: nat, size: nat)
    ensures MapPhysicalRegion(KI.PHYSICAL_MEMORY_OFFSET, physicalAddress, size) == KI.MapPhysicalRegion(physicalAddress, size)
  {
  }

  /** `unmap_physical_region`: the mapper is left as it was. */
  method UnmapPhysicalRegion(mapper: Paging.PageTable, region: KI.PhysicalMapping)
    ensures mapper.entries == old(mapper.entries)
  {
  }

  const MAP_TO_FAILED: string := "map_to failed"

  /** The loop of this `map_physical` from page `i` on: every `map_to` error panics. */
  function MapPagesFrom(t: map<nat, nat>, phys: nat, n: nat, i: nat): (map<nat, nat>, Outcome<nat>)
    decreases n - i
  {
    if i >= n then (t, Return(PA.KERNEL_HEAP_START + phys))
    else if KI.KPage(phys, i) in t then (t, Panic(MAP_TO_FAILED))
    else MapPagesFrom(t[KI.KPage(phys, i) := KI.KFrame(phys, i)], phys, n, i + 1)
  }

  function MapPhysicalSpec(t: map<nat, nat>, phys: nat, n: nat): (map<nat, nat>, Outcome<nat>)
  {
    MapPagesFrom(t, phys, n, 0)
  }

  /**
   * The loop succeeds exactly when none of the remaining pages is mapped yet, whatever it
   * is mapped to; it then maps each to its frame and keeps the earlier mappings.
   */
  lemma {:induction false} MapPagesFromResult(t: map<nat, nat>, phys: nat, n: nat, i: nat)
    ensures var (t', r) := MapPagesFrom(t, phys, n, i);
      (r.Return? <==> forall j :: i <= j < n ==> KI.KPage(phys, j) !in t)
      && (r.Return? ==> r.value == PA.KERNEL_HEAP_START + phys
                        && (forall j :: i <= j < n ==> KI.KPage(phys, j) in t' && t'[KI.KPage(phys, j)] == KI.KFrame(phys, j))
                        && (forall p :: p in t ==> p in t' && t'[p] == t[p]))
      && (r.Panic? ==> r.reason == MAP_TO_FAILED)
    decreases n - i
  {
    if i < n && KI.KPage(phys, i) !in t {
      var t1 := t[KI.KPage(phys, i) := KI.KFrame(phys, i)];
      MapPagesFromResult(t1, phys, n, i + 1);
      forall j | i + 1 <= j < n ensures (KI.KPage(phys, j) in t1 <==> KI.KPage(phys, j) in t) {
        KI.KPageInjective(phys, i, j);
      }
    }
  }

  /**
   * Mapping the same non-empty range twice panics the second time, where the version in
   * kernel/src/interrupts.rs skips the pages and succeeds.
   */
  lemma SecondMapPanics(t: map<nat, nat>, phys: nat, n: nat)
    requires n > 0
    requires MapPhysicalSpec(t, phys, n).1.Return?
    ensures MapPhysicalSpec(MapPhysicalSpec(t, phys, n).0, phys, n).1 == Panic(MAP_TO_FAILED)
    ensures KI.MapPhysicalSpec(MapPhysicalSpec(t, phys, n).0, phys, n).1.Return?
  {
    var t' := MapPhysicalSpec(t, phys, n).0;
    MapPagesFromResult(t, phys, n, 0);
    MapPagesFromResult(t', phys, n, 0);
    KI.MapPagesFromResult(t', phys, n, 0);
  }

  /** `map_physical`: the page loop over the page allocator's mapper. */
  method MapPhysical(pa: PA.PageAllocator?, phys: nat, numPages: nat) returns (r: Outcome<nat>)
    requires pa != null ==> pa.Valid()
    modifies if pa == null then {} else {pa.mapper}
    ensures pa == null ==> r == Panic(KI.UNINITIALIZED)
    ensures pa != null ==> (pa.mapper.entries, r) == MapPhysicalSpec(old(pa.mapper.entries), phys, numPages)
  {
    if pa == null {
      return Panic(KI.UNINITIALIZED);
    }
    var virtBase: nat := PA.KERNEL_HEAP_START + phys;
    var i := 0;
    while i < numPages
      invariant 0 <= i <= numPages
      invariant MapPagesFrom(pa.mapper.entries, phys, numPages, i) == MapPhysicalSpec(old(pa.mapper.entries), phys, numPages)
    {
      var physAddr := phys + i * PAGE_SIZE;
      var virtAddr := virtBase + i * PAGE_SIZE;
      var err := pa.mapper.MapTo(AlignDown(virtAddr), AlignDown(physAddr));
      if err.Some? {
        return Panic(MAP_TO_FAILED);
      }
      i := i + 1;
    }
    r := Return(virtBase);
  }
}
