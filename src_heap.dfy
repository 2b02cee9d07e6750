/**
 * The earlier revision of the fixed-size-block heap (src/allocator/fixed_size_block.rs).
 *
 * It shares the nine size classes, the free-list rules and `init` with the kernel revision,
 * but an empty class is not refilled by carving: the block is one whole page taken
 * through `fallback_alloc` with layout (b, b) and recorded like any large allocation.
 * Large allocations live in the `LARGE_ALLOCS` map (address to page count), and a large
 * `dealloc` removes its entry, panicking when there is none.
 *
 * `LARGE_ALLOCS` is a `BTreeMap`, and `fallback_alloc` inserts into it while `alloc` still
 * holds the lock of `ALLOCATOR`, the global allocator the map itself allocates through.
 * The first insert into the empty map allocates a leaf, that nested `alloc` waits for the
 * same spin lock, and the call never returns (`Hangs`). `FallbackSpec` and `AllocSpec`
 * model this; `FallbackSpecCorrected` and `AllocSpecCorrected` record the allocation
 * without allocating, as the kernel revision's fixed table does.
 *
 * The page allocator is the kernel `PageAllocator`; `PAGE_ALLOCATOR` is a `PageAllocator?`
 * that is null while uninitialised.
 */
module SrcHeap {
  import opened Common
  import opened SizeClass
  import opened AllocInfo
  import PA = PageAllocator
  import KernelHeap

  const NOT_IN_MAP := "ERROR: Attempted to free an allocation that was not found in the map!"

  /** Everything `alloc` and `dealloc` read or change. */
  datatype SState = SState(lists: Lists, large: map<nat, AllocationInfo>, pages: Option<PA.PAState>)
  {
    ghost predicate Valid()
    {
      lists.Valid() && (pages.Some? ==> pages.value.frames.Valid())
    }
  }

  /** How a call into the allocator ends: it returns a value, or it waits on a spin lock for ever. */
  datatype Call<T> = Returns(value: T) | Hangs

  /**
   * Whether `map.insert` allocates a node: an empty `BTreeMap` has no root, so its first
   * insert allocates a leaf. Node splits in a fuller map are not modelled; the map never
   * gets past empty (LargeAllocsStayEmpty).
   */
  predicate InsertAllocates(large: map<nat, AllocationInfo>)
  {
    large == map[]
  }

  /**
   * `fallback_alloc` as written: whole pages; a successful page allocation then either
   * hangs in the insert's nested `alloc` or records the entry for the address.
   */
  function FallbackSpec(st: SState, size: nat, align: nat): (SState, Call<Option<nat>>)
    requires st.Valid()
  {
    var numPages := PagesFor(Max(size, align));
    if st.pages.None? then (st, Returns(None))
    else
      var (pages', r) := PA.AllocSpec(st.pages.value, numPages);
      if r.Err? then (st.(pages := Some(pages')), Returns(None))
      else if InsertAllocates(st.large) then (st.(pages := Some(pages')), Hangs)
      else (st.(pages := Some(pages'), large := st.large[r.value := AllocationInfo(numPages)]), Returns(Some(r.value)))
  }

  /** `fallback_alloc` with an insert that does not allocate: the map gains (or overwrites) the entry. */
  function FallbackSpecCorrected(st: SState, size: nat, align: nat): (SState, Option<nat>)
    requires st.Valid()
  {
    var numPages := PagesFor(Max(size, align));
    if st.pages.None? then (st, None)
    else
      var (pages', r) := PA.AllocSpec(st.pages.value, numPages);
      if r.Err? then (st.(pages := Some(pages')), None)
      else (st.(pages := Some(pages'), large := st.large[r.value := AllocationInfo(numPages)]), Some(r.value))
  }

  /** `GlobalAlloc::alloc` as written; `Returns(None)` is the null pointer. */
  function AllocSpec(st: SState, size: nat, align: nat): (SState, Call<Option<nat>>)
    requires st.Valid()
  {
    match ListIndex(size, align)
    case None => FallbackSpec(st, size, align)
    case Some(i) =>
      if st.lists.heads[i] != [] then
        var (lists', ptr) := Pop(st.lists, i);
        (st.(lists := lists'), Returns(Some(ptr)))
      else FallbackSpec(st, BLOCK_SIZES[i], BLOCK_SIZES[i])
  }

  /** `GlobalAlloc::alloc` over the corrected fallback; None is the null pointer. */
  function AllocSpecCorrected(st: SState, size: nat, align: nat): (SState, Option<nat>)
    requires st.Valid()
  {
    match ListIndex(size, align)
    case None => FallbackSpecCorrected(st, size, align)
    case Some(i) =>
      if st.lists.heads[i] != [] then
        var (lists', ptr) := Pop(st.lists, i);
        (st.(lists := lists'), Some(ptr))
      else FallbackSpecCorrected(st, BLOCK_SIZES[i], BLOCK_SIZES[i])
  }

  /** `GlobalAlloc::dealloc`. */
  function DeallocSpec(st: SState, ptr: nat, size: nat, align: nat): (SState, Outcome<()>)
    requires st.Valid()
  {
    match ListIndex(size, align)
    case Some(i) => (st.(lists := PushFree(st.lists, i, ptr)), Return(()))
    case None =>
      if ptr !in st.large then (st, Panic(NOT_IN_MAP))
      else
        var st1 := st.(large := st.large - {ptr});
        if st.pages.None? then (st1, Return(()))
        else
          var (pages', res) := PA.DeallocSpec(st.pages.value, ptr, st.large[ptr].numPages);
          var st2 := st1.(pages := Some(pages'));
          match res
          case Panic(reason) => (st2, Panic(reason))
          case Return(Err(_)) => (st2, Panic("dealloc failed"))
          case Return(Ok(_)) => (st2, Return(()))
  }

  // ---------------------------------------------------------------- properties

  /** On a non-empty class `alloc` pops the head; nothing else changes. */
  lemma AllocPopsHead(st: SState, size: nat, align: nat)
    requires st.Valid()
    requires ListIndex(size, align).Some? && st.lists.heads[ListIndex(size, align).value] != []
    ensures var i := ListIndex(size, align).value;
      var (st', r) := AllocSpec(st, size, align);
      r == Returns(Some(st.lists.heads[i][0]))
      && st'.lists.heads[i] == st.lists.heads[i][1..]
      && st'.lists.lengths == st.lists.lengths
      && (forall j :: 0 <= j < CLASS_COUNT && j != i ==> st'.lists.heads[j] == st.lists.heads[j])
      && st'.large == st.large && st'.pages == st.pages
  {
  }

  /**
   * The corrected fallback asks for ceil(max(size, align) / 4096) pages. On success the
   * block is the range's start and the map sends it to that page count; otherwise the
   * result is null and the map is unchanged. The free lists never change.
   */
  lemma FallbackRecords(st: SState, size: nat, align: nat)
    requires st.Valid()
    ensures var numPages := PagesFor(Max(size, align));
      var (st', r) := FallbackSpecCorrected(st, size, align);
      st'.lists == st.lists
      && (st.pages.None? ==> r.None? && st' == st)
      && (st.pages.Some? ==>
            var (pages', pr) := PA.AllocSpec(st.pages.value, numPages);
            st'.pages == Some(pages')
            && (pr.Err? ==> r.None? && st'.large == st.large)
            && (pr.Ok? ==> r == Some(pr.value) && st'.large.Keys == st.large.Keys + {pr.value}
                           && st'.large[pr.value] == AllocationInfo(numPages)
                           && forall a :: a in st.large && a != pr.value ==> st'.large[a] == st.large[a]))
  {
  }

  /**
   * `fallback_alloc` as written hangs exactly when the page allocation succeeds and the
   * map is empty; the hung call has already mapped the pages but recorded nothing.
   * Otherwise it ends as the corrected fallback does.
   */
  lemma FallbackAsWritten(st: SState, size: nat, align: nat)
    requires st.Valid()
    ensures var (w, wr) := FallbackSpec(st, size, align);
      var (c, cr) := FallbackSpecCorrected(st, size, align);
      (wr == Hangs <==> cr.Some? && st.large == map[])
      && (wr == Hangs ==> w == c.(large := st.large))
      && (wr != Hangs ==> w == c && wr == Returns(cr))
  {
  }

  /**
   * `LARGE_ALLOCS` starts empty and stays empty: no `alloc` records anything, and every
   * large `dealloc` panics. So an `alloc` that needs pages (a large request, or a class
   * whose list is empty) returns null when the page allocator fails and otherwise never
   * returns; it never hands out a block.
   */
  lemma LargeAllocsStayEmpty(st: SState, size: nat, align: nat, ptr: nat)
    requires st.Valid() && st.large == map[]
    ensures var (st', r) := AllocSpec(st, size, align);
      var b := if ListIndex(size, align).None? then Max(size, align) else BLOCK_SIZES[ListIndex(size, align).value];
      st'.Valid() && st'.large == map[]
      && (ListIndex(size, align).None? || st.lists.heads[ListIndex(size, align).value] == [] ==>
            st'.lists == st.lists
            && (r == Hangs || r == Returns(None))
            && (r == Hangs <==> st.pages.Some? && PA.AllocSpec(st.pages.value, PagesFor(b)).1.Ok?))
    ensures var (st', r) := DeallocSpec(st, ptr, size, align);
      st'.Valid() && st'.large == map[]
      && (ListIndex(size, align).None? ==> st' == st && r == Panic(NOT_IN_MAP))
  {
    var (st', r) := AllocSpec(st, size, align);
    if ListIndex(size, align).Some? && st.lists.heads[ListIndex(size, align).value] == [] {
      var b := BLOCK_SIZES[ListIndex(size, align).value];
      assert Max(b, b) == b;
    }
  }

  /**
   * On an empty class no page is carved: the block is a whole page, recorded in the map
   * with one page, exactly as a large allocation of b bytes would be.
   */
  lemma AllocEmptyClassTakesPage(st: SState, size: nat, align: nat)
    requires st.Valid()
    requires ListIndex(size, align).Some? && st.lists.heads[ListIndex(size, align).value] == []
    ensures var b := BLOCK_SIZES[ListIndex(size, align).value];
      AllocSpec(st, size, align) == FallbackSpec(st, b, b)
      && PagesFor(Max(b, b)) == 1
      && AllocSpec(st, size, align).0.lists == st.lists
  {
    var i := ListIndex(size, align).value;
    BlockSizesDividePage(i);
  }

  /** A small `dealloc` is the capped push of the free-list rule; the map and the pages are untouched. */
  lemma DeallocSmall(st: SState, ptr: nat, size: nat, align: nat)
    requires st.Valid() && ListIndex(size, align).Some?
    ensures var (st', r) := DeallocSpec(st, ptr, size, align);
      r == Return(()) && st'.lists == PushFree(st.lists, ListIndex(size, align).value, ptr)
      && st'.large == st.large && st'.pages == st.pages
  {
  }

  /**
   * A large `dealloc` panics, changing nothing, when the map has no entry for `ptr`.
   * Otherwise it removes exactly that entry and releases exactly its page count; a page
   * allocator error becomes a panic.
   */
  lemma DeallocLarge(st: SState, ptr: nat, size: nat, align: nat)
    requires st.Valid() && ListIndex(size, align).None?
    ensures var (st', r) := DeallocSpec(st, ptr, size, align);
      st'.lists == st.lists
      && (ptr !in st.large ==> st' == st && r == Panic(NOT_IN_MAP))
      && (ptr in st.large ==>
            st'.large == st.large - {ptr}
            && (st.pages.None? ==> st'.pages == st.pages && r == Return(()))
            && (st.pages.Some? ==>
                  var (pages', res) := PA.DeallocSpec(st.pages.value, ptr, st.large[ptr].numPages);
                  st'.pages == Some(pages')
                  && (r == Return(()) <==> res.Return? && res.value.Ok?)))
  {
  }

  /** Freeing the same large block twice panics on the second call, whatever the first did. */
  lemma LargeDoubleFreePanics(st: SState, ptr: nat, size: nat, align: nat)
    requires st.Valid() && ListIndex(size, align).None?
    ensures var st1 := DeallocSpec(st, ptr, size, align).0;
      st1.Valid() && DeallocSpec(st1, ptr, size, align).1 == Panic(NOT_IN_MAP)
  {
  }

  /**
   * With the corrected fallback, a large allocation freed straight away leaves the free
   * lists, the map (when the address was not yet a key), the page table and the frames as
   * they were; only the page allocator's cursor has moved.
   */
  lemma LargeAllocThenFree(st: SState, size: nat, align: nat)
    requires st.Valid() && ListIndex(size, align).None? && st.pages.Some?
    requires FallbackSpecCorrected(st, size, align).1.Some?
    requires FallbackSpecCorrected(st, size, align).1.value !in st.large
    ensures var (st1, r) := AllocSpecCorrected(st, size, align);
      st1.Valid()
      && DeallocSpec(st1, r.value, size, align)
         == (st.(pages := Some(st.pages.value.(cursor := st1.pages.value.cursor))), Return(()))
  {
    var numPages := PagesFor(Max(size, align));
    var (st1, r) := AllocSpecCorrected(st, size, align);
    PA.AllocThenDealloc(st.pages.value, numPages);
    assert st1.large - {r.value} == st.large;
  }

  // ---------------------------------------------------------------- the allocator object

  /** The `LARGE_ALLOCS` map. */
  class LargeAllocMap {
    var entries: map<nat, AllocationInfo>

    constructor ()
      ensures entries == map[]
    {
      entries := map[];
    }
  }

  class FixedSizeBlockAllocator {
    const listHeads: array<seq<nat>>
    const listLengths: array<nat>

    ghost predicate Valid()
      reads this
    {
      listHeads.Length == CLASS_COUNT && listLengths.Length == CLASS_COUNT
    }

    function FreeLists(): Lists
      reads this, listHeads, listLengths
    {
      Lists(listHeads[..], listLengths[..])
    }

    /** `FixedSizeBlockAllocator::new`. */
    constructor New()
      ensures Valid() && fresh(listHeads) && fresh(listLengths)
      ensures FreeLists() == EmptyLists()
    {
      listHeads := new seq<nat>[CLASS_COUNT](_ => []);
      listLengths := new nat[CLASS_COUNT](_ => 0);
    }

    /** `init`: the same carving of one page into 512 eight-byte blocks as the kernel revision. */
    method Init(pa: PA.PageAllocator)
      requires Valid() && pa.Valid()
      modifies listHeads, pa, pa.frameAllocator, pa.mapper
      ensures Valid() && pa.Valid()
      ensures (FreeLists(), pa.State()) == KernelHeap.InitSpec(old(FreeLists()), old(pa.State()))
    {
      var r := pa.Alloc(1);
      if r.Ok? {
        var blockSize := 8;
        var numBlocks := PAGE_SIZE / blockSize;
        var currentAddr := r.value;
        var k := 0;
        assert Carved(r.value, 8, 0, 0) + old(listHeads[0]) == old(listHeads[0]);
        assert listHeads[..] == old(listHeads[..])[0 := old(listHeads[0])];
        while k < numBlocks
          modifies listHeads
          invariant 0 <= k <= numBlocks && currentAddr == r.value + k * 8
          invariant listHeads[..] == old(listHeads[..])[0 := Carved(r.value, 8, 0, k) + old(listHeads[0])]
        {
          assert Carved(r.value, 8, 0, k + 1) == [currentAddr] + Carved(r.value, 8, 0, k);
          assert listHeads[..][0] == Carved(r.value, 8, 0, k) + old(listHeads[0]);
          assert [currentAddr] + (Carved(r.value, 8, 0, k) + old(listHeads[0])) == Carved(r.value, 8, 0, k + 1) + old(listHeads[0]);
          listHeads[0] := [currentAddr] + listHeads[0];
          currentAddr := currentAddr + blockSize;
          k := k + 1;
        }
      }
    }

    /** `fallback_alloc`, run while this allocator's lock is held. */
    method FallbackAlloc(size: nat, align: nat, pa: PA.PageAllocator?, large: LargeAllocMap) returns (r: Call<Option<nat>>)
      requires Valid() && (pa != null ==> pa.Valid())
      modifies large, if pa == null then {} else {pa, pa.frameAllocator, pa.mapper}
      ensures Valid() && (pa != null ==> pa.Valid())
      ensures (StateOf(this, pa, large), r) == FallbackSpec(old(StateOf(this, pa, large)), size, align)
    {
      var s := Max(size, align);
      var numPages := (s + (PAGE_SIZE - 1)) / PAGE_SIZE;
      if pa != null {
        var addr := pa.Alloc(numPages);
        if addr.Ok? {
          if InsertAllocates(large.entries) {
            // the insert's node allocation re-enters `alloc`, which waits for this allocator's lock
            return Hangs;
          }
          large.entries := large.entries[addr.value := AllocationInfo(numPages)];
          return Returns(Some(addr.value));
        }
      }
      r := Returns(None);
    }

    /** `GlobalAlloc::alloc`. */
    method Alloc(size: nat, align: nat, pa: PA.PageAllocator?, large: LargeAllocMap) returns (r: Call<Option<nat>>)
      requires Valid() && (pa != null ==> pa.Valid())
      modifies listHeads, large, if pa == null then {} else {pa, pa.frameAllocator, pa.mapper}
      ensures Valid() && (pa != null ==> pa.Valid())
      ensures (StateOf(this, pa, large), r) == AllocSpec(old(StateOf(this, pa, large)), size, align)
    {
      var index := ListIndex(size, align);
      if index.None? {
        r := FallbackAlloc(size, align, pa, large);
        return;
      }
      var i := index.value;
      if listHeads[i] != [] {
        var node := listHeads[i][0];
        listHeads[i] := listHeads[i][1..];
        return Returns(Some(node));
      }
      var blockSize := BLOCK_SIZES[i];
      r := FallbackAlloc(blockSize, blockSize, pa, large);
    }

    /** `GlobalAlloc::dealloc`. */
    method Dealloc(ptr: nat, size: nat, align: nat, pa: PA.PageAllocator?, large: LargeAllocMap) returns (r: Outcome<()>)
      requires Valid() && (pa != null ==> pa.Valid())
      modifies listHeads, listLengths, large, if pa == null then {} else {pa.frameAllocator, pa.mapper}
      ensures Valid() && (pa != null ==> pa.Valid())
      ensures (StateOf(this, pa, large), r) == DeallocSpec(old(StateOf(this, pa, large)), ptr, size, align)
    {
      var index := ListIndex(size, align);
      if index.Some? {
        var i := index.value;
        if listLengths[i] < MAX_LIST_LENGTH {
          listHeads[i] := [ptr] + listHeads[i];
          listLengths[i] := listLengths[i] + 1;
        }
        return Return(());
      }
      if ptr !in large.entries {
        return Panic(NOT_IN_MAP);
      }
      var info := large.entries[ptr];
      large.entries := large.entries - {ptr};
      if pa != null {
        var res := pa.Dealloc(ptr, info.numPages);
        if res.Panic? {
          return Panic(res.reason);
        }
        if res.value.Err? {
          return Panic("dealloc failed");
        }
      }
      r := Return(());
    }
  }

  /** The value of the allocator, the page allocator and the large-allocation map together. */
  function StateOf(h: FixedSizeBlockAllocator, pa: PA.PageAllocator?, large: LargeAllocMap): SState
    reads h, h.listHeads, h.listLengths, large
    reads if pa == null then {} else {pa, pa.frameAllocator, pa.mapper}
  {
    SState(h.FreeLists(), large.entries, if pa == null then None else Some(pa.State()))
  }
}
