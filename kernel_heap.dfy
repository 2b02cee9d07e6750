/**
 * The kernel revision of the fixed-size-block heap (kernel/src/allocator/fixed_size_block.rs).
 *
 * Small requests are served from nine per-class free lists. A class that runs dry is
 * refilled by carving one fresh page: the page's first block goes to the caller and the
 * rest are pushed onto the list. Requests above 2048 bytes take whole pages from the page
 * allocator and are recorded in the 512-slot `LARGE_ALLOCS` table.
 *
 * The globals `PAGE_ALLOCATOR` (None until initialised) and `LARGE_ALLOCS` are passed
 * explicitly: a `PageAllocator?` that is null when uninitialised, and the table object.
 * Null returned to the caller is `Return(None)`; a panic is `Panic(message)`.
 */
module KernelHeap {
  import opened Common
  import opened SizeClass
  import opened AllocInfo
  import PA = PageAllocator
  import Paging
  import FrameAllocator

  /** Everything `alloc` and `dealloc` read or change. */
  datatype KState = KState(lists: Lists, large: seq<Option<LargeAlloc>>, pages: Option<PA.PAState>)
  {
    ghost predicate Valid()
    {
      lists.Valid() && |large| == LARGE_ALLOC_SLOTS && (pages.Some? ==> pages.value.frames.Valid())
    }
  }

  /** `init`: one page from the given page allocator, carved into 512 eight-byte blocks pushed onto class 0. */
  function InitSpec(l: Lists, pages: PA.PAState): (Lists, PA.PAState)
    requires l.Valid()
  {
    var (pages', r) := PA.AllocSpec(pages, 1);
    if r.Err? then (l, pages')
    else (l.(heads := l.heads[0 := Carved(r.value, 8, 0, PAGE_SIZE / 8) + l.heads[0]]), pages')
  }

  /** `refill_free_list(index)`: the block for the caller, or None without a page. */
  function RefillSpec(st: KState, index: nat): (KState, Option<nat>)
    requires st.Valid() && index < CLASS_COUNT
  {
    if st.pages.None? then (st, None)
    else
      var (pages', r) := PA.AllocSpec(st.pages.value, 1);
      if r.Err? then (st.(pages := Some(pages')), None)
      else
        var b := BLOCK_SIZES[index];
        var carved := Carved(r.value, b, 1, PAGE_SIZE / b);
        (st.(lists := st.lists.(heads := st.lists.heads[index := carved + st.lists.heads[index]]), pages := Some(pages')),
         Some(r.value))
  }

  /** `fallback_alloc`: whole pages, recorded in `LARGE_ALLOCS`. */
  function FallbackSpec(st: KState, size: nat, align: nat): (KState, Outcome<Option<nat>>)
    requires st.Valid()
  {
    var numPages := PagesFor(Max(size, align));
    if st.pages.None? then (st, Return(None))
    else
      var (pages', r) := PA.AllocSpec(st.pages.value, numPages);
      if r.Err? then (st.(pages := Some(pages')), Return(None))
      else
        match InsertSpec(st.large, r.value, AllocationInfo(numPages))
        case None => (st.(pages := Some(pages')), Panic("LARGE_ALLOCS is full!"))
        case Some(large') => (st.(pages := Some(pages'), large := large'), Return(Some(r.value)))
  }

  /** `GlobalAlloc::alloc`. */
  function AllocSpec(st: KState, size: nat, align: nat): (KState, Outcome<Option<nat>>)
    requires st.Valid()
  {
    match ListIndex(size, align)
    case None => FallbackSpec(st, size, align)
    case Some(i) =>
      if st.lists.heads[i] != [] then
        var (lists', ptr) := Pop(st.lists, i);
        (st.(lists := lists'), Return(Some(ptr)))
      else
        var (st', r) := RefillSpec(st, i);
        (st', Return(r))
  }

  /** The large branch of `dealloc` from slot `k` on: every matching slot releases its pages again. */
  function LargeDeallocFrom(st: KState, ptr: nat, k: nat): (r: (KState, Outcome<()>))
    requires st.Valid()
    ensures r.0.Valid() && r.0.lists == st.lists && r.0.large == st.large
    decreases |st.large| - k
  {
    if k >= |st.large| then (st, Return(()))
    else if st.large[k].Some? && st.large[k].value.addr == ptr && st.pages.Some? then
      var (pages', res) := PA.DeallocSpec(st.pages.value, ptr, st.large[k].value.info.numPages);
      var st' := st.(pages := Some(pages'));
      match res
      case Panic(reason) => (st', Panic(reason))
      case Return(Err(_)) => (st', Panic("dealloc failed"))
      case Return(Ok(_)) => LargeDeallocFrom(st', ptr, k + 1)
    else LargeDeallocFrom(st, ptr, k + 1)
  }

  /** `GlobalAlloc::dealloc`. */
  function DeallocSpec(st: KState, ptr: nat, size: nat, align: nat): (KState, Outcome<()>)
    requires st.Valid()
  {
    match ListIndex(size, align)
    case Some(i) => (st.(lists := PushFree(st.lists, i, ptr)), Return(()))
    case None => LargeDeallocFrom(st, ptr, 0)
  }

  // ---------------------------------------------------------------- properties

  /** `init` pushes the 512 blocks start + 8k onto class 0 but leaves every counter at its old value. */
  lemma InitCarvesWithoutCounting(l: Lists, pages: PA.PAState)
    requires l.Valid() && pages.frames.Valid()
    ensures var (l', pages') := InitSpec(l, pages);
      var (_, r) := PA.AllocSpec(pages, 1);
      l'.Valid() && l'.lengths == l.lengths
      && (r.Err? ==> l' == l)
      && (r.Ok? ==> |l'.heads[0]| == |l.heads[0]| + 512
                    && (forall k :: 0 <= k < 512 ==> l'.heads[0][k] == r.value + (511 - k) * 8)
                    && l'.heads[0][512..] == l.heads[0]
                    && forall j :: 1 <= j < CLASS_COUNT ==> l'.heads[j] == l.heads[j])
  {
    var r := PA.AllocSpec(pages, 1).1;
    if r.Ok? {
      CarvedAt(r.value, 8, 0, 512);
    }
  }

  /** On a non-empty class `alloc` pops the head; no other list, no counter, no page and no record changes. */
  lemma AllocPopsHead(st: KState, size: nat, align: nat)
    requires st.Valid()
    requires ListIndex(size, align).Some? && st.lists.heads[ListIndex(size, align).value] != []
    ensures var i := ListIndex(size, align).value;
      var (st', r) := AllocSpec(st, size, align);
      r == Return(Some(st.lists.heads[i][0]))
      && st'.lists.heads[i] == st.lists.heads[i][1..]
      && st'.lists.lengths == st.lists.lengths
      && (forall j :: 0 <= j < CLASS_COUNT && j != i ==> st'.lists.heads[j] == st.lists.heads[j])
      && st'.large == st.large && st'.pages == st.pages
  {
  }

  /**
   * On an empty class `alloc` carves a fresh page P: P goes to the caller, and the list
   * becomes P + k * b for k = 4096 / b - 1 down to 1. These blocks are distinct, lie inside
   * the page and none is P. No counter and no other list changes.
   */
  lemma AllocRefills(st: KState, size: nat, align: nat)
    requires st.Valid()
    requires ListIndex(size, align).Some? && st.lists.heads[ListIndex(size, align).value] == []
    requires st.pages.Some? && PA.AllocSpec(st.pages.value, 1).1.Ok?
    ensures var i := ListIndex(size, align).value;
      var b := BLOCK_SIZES[i];
      var p := PA.AllocSpec(st.pages.value, 1).1.value;
      var (st', r) := AllocSpec(st, size, align);
      var list := st'.lists.heads[i];
      r == Return(Some(p))
      && |list| == PAGE_SIZE / b - 1
      && (forall k :: 0 <= k < |list| ==> list[k] == p + (PAGE_SIZE / b - 1 - k) * b)
      && (forall k :: 0 <= k < |list| ==> p < list[k] && list[k] + b <= p + PAGE_SIZE)
      && (forall k1, k2 :: 0 <= k1 < k2 < |list| ==> list[k1] != list[k2])
      && p !in list
      && st'.lists.lengths == st.lists.lengths
      && (forall j :: 0 <= j < CLASS_COUNT && j != i ==> st'.lists.heads[j] == st.lists.heads[j])
      && st'.large == st.large && st'.pages == Some(PA.AllocSpec(st.pages.value, 1).0)
  {
    var i := ListIndex(size, align).value;
    CarvedPage(PA.AllocSpec(st.pages.value, 1).1.value, i);
  }

  /** The blocks a refill pushes: page P cut into blocks of class `i`, all but the first. */
  lemma CarvedPage(p: nat, i: nat)
    requires i < CLASS_COUNT
    ensures var b := BLOCK_SIZES[i];
      var list := Carved(p, b, 1, PAGE_SIZE / b);
      |list| == PAGE_SIZE / b - 1
      && (forall k :: 0 <= k < |list| ==> list[k] == p + (PAGE_SIZE / b - 1 - k) * b)
      && (forall k :: 0 <= k < |list| ==> p < list[k] && list[k] + b <= p + PAGE_SIZE)
      && (forall k1, k2 :: 0 <= k1 < k2 < |list| ==> list[k1] != list[k2])
      && p !in list
  {
    var b := BLOCK_SIZES[i];
    BlockSizesDividePage(i);
    CarvedInPage(p, b, PAGE_SIZE / b);
  }

  /** Blocks 1 .. m - 1 of a page of m blocks of b bytes. */
  lemma CarvedInPage(p: nat, b: nat, m: nat)
    requires b > 0 && m >= 1 && m * b == PAGE_SIZE
    ensures var list := Carved(p, b, 1, m);
      |list| == m - 1
      && (forall k :: 0 <= k < |list| ==> list[k] == p + (m - 1 - k) * b)
      && (forall k :: 0 <= k < |list| ==> p < list[k] && list[k] + b <= p + PAGE_SIZE)
      && (forall k1, k2 :: 0 <= k1 < k2 < |list| ==> list[k1] != list[k2])
      && p !in list
  {
    CarvedAt(p, b, 1, m);
    CarvedBlocks(p, b, 1, m);
    var list := Carved(p, b, 1, m);
    forall k | 0 <= k < |list| ensures p < list[k] && list[k] + b <= p + PAGE_SIZE {
      assert (m - 1 - k) * b + b == (m - k) * b;
      ScaleBounds(m - k, m, m + 1, b);
    }
  }

  /**
   * A small `alloc` on an empty class returns null when `PAGE_ALLOCATOR` is uninitialised
   * or the page request fails; no free list, counter or record changes.
   */
  lemma AllocNullWithoutPage(st: KState, size: nat, align: nat)
    requires st.Valid()
    requires ListIndex(size, align).Some? && st.lists.heads[ListIndex(size, align).value] == []
    requires st.pages.None? || PA.AllocSpec(st.pages.value, 1).1.Err?
    ensures var (st', r) := AllocSpec(st, size, align);
      r == Return(None) && st'.lists == st.lists && st'.large == st.large
  {
  }

  /**
   * A request no class fits takes ceil(max(size, align) / 4096) pages. On success the block
   * is the page range's start and the record (start, pages) fills the lowest empty slot;
   * the insertion panics exactly when every slot is taken. Without pages the result is null
   * and no record is written. The free lists never change.
   */
  lemma AllocLarge(st: KState, size: nat, align: nat)
    requires st.Valid()
    requires ListIndex(size, align).None?
    ensures var numPages := PagesFor(Max(size, align));
      var (st', r) := AllocSpec(st, size, align);
      st'.lists == st.lists
      && (st.pages.None? ==> st' == st && r == Return(None))
      && (st.pages.Some? ==>
            var (pages', pr) := PA.AllocSpec(st.pages.value, numPages);
            st'.pages == Some(pages')
            && (pr.Err? ==> r == Return(None) && st'.large == st.large)
            && (pr.Ok? && (forall j :: 0 <= j < |st.large| ==> st.large[j].Some?) ==>
                  r.Panic? && st'.large == st.large)
            && (pr.Ok? && (exists j :: 0 <= j < |st.large| && st.large[j].None?) ==>
                  r == Return(Some(pr.value))
                  && st'.large == InsertSpec(st.large, pr.value, AllocationInfo(numPages)).value))
  {
    if st.pages.Some? {
      var (pages', pr) := PA.AllocSpec(st.pages.value, PagesFor(Max(size, align)));
      if pr.Ok? {
        InsertFillsLowestEmpty(st.large, pr.value, AllocationInfo(PagesFor(Max(size, align))));
      }
    }
  }

  /** A small `dealloc` is exactly the capped push of the free-list rule; pages and records are untouched. */
  lemma DeallocSmall(st: KState, ptr: nat, size: nat, align: nat)
    requires st.Valid() && ListIndex(size, align).Some?
    ensures var (st', r) := DeallocSpec(st, ptr, size, align);
      r == Return(()) && st'.lists == PushFree(st.lists, ListIndex(size, align).value, ptr)
      && st'.large == st.large && st'.pages == st.pages
  {
  }

  /** A large `dealloc` never clears a slot and never touches the free lists; with no matching slot it does nothing. */
  lemma {:induction false} LargeDeallocKeepsRecords(st: KState, ptr: nat, k: nat)
    requires st.Valid()
    ensures LargeDeallocFrom(st, ptr, k).0.large == st.large
    ensures (forall j :: k <= j < |st.large| ==> st.large[j].None? || st.large[j].value.addr != ptr)
              ==> LargeDeallocFrom(st, ptr, k) == (st, Return(()))
    decreases |st.large| - k
  {
    if k < |st.large| {
      LargeDeallocKeepsRecords(st, ptr, k + 1);
    }
  }

  /**
   * With a single record for `ptr`, a large `dealloc` is one `PageAllocator::dealloc` of
   * the recorded page count, an unmap error turned into a panic.
   */
  lemma {:induction false} LargeDeallocSingleRecord(st: KState, ptr: nat, k: nat, slot: nat)
    requires st.Valid() && st.pages.Some?
    requires k <= slot < |st.large| && st.large[slot].Some? && st.large[slot].value.addr == ptr
    requires forall j :: k <= j < |st.large| && j != slot ==> st.large[j].None? || st.large[j].value.addr != ptr
    ensures var (pages', res) := PA.DeallocSpec(st.pages.value, ptr, st.large[slot].value.info.numPages);
      var (st', r) := LargeDeallocFrom(st, ptr, k);
      st'.pages == Some(pages') && st'.large == st.large
      && r == (match res
               case Panic(reason) => Panic(reason)
               case Return(Err(_)) => Panic("dealloc failed")
               case Return(Ok(_)) => Return(()))
    decreases |st.large| - k
  {
    if k < slot {
      LargeDeallocSingleRecord(st, ptr, k + 1, slot);
    } else {
      var (pages', res) := PA.DeallocSpec(st.pages.value, ptr, st.large[slot].value.info.numPages);
      LargeDeallocKeepsRecords(st.(pages := Some(pages')), ptr, k + 1);
    }
  }

  /** A successful page `dealloc` leaves each of its pages unmapped. */
  lemma {:induction false} DeallocUnmapsAll(s: PA.PAState, addr: nat, n: nat, i: nat)
    requires s.frames.Valid()
    ensures var (s', r) := PA.DeallocFrom(s, addr, n, i);
      s'.table.Keys <= s.table.Keys
      && (r.Return? && r.value.Ok? ==> forall j :: i <= j < n ==> PA.PageAt(addr, j) !in s'.table)
    decreases n - i
  {
    if i < n && PA.PageAt(addr, i) in s.table {
      var page := PA.PageAt(addr, i);
      match FrameAllocator.DeallocateSpec(s.frames, s.table[page])
      case None =>
      case Some(frames') =>
        DeallocUnmapsAll(s.(table := s.table - {page}, frames := frames'), addr, n, i + 1);
    }
  }

  /**
   * The record is never cleared, so freeing the same large block twice panics: the second
   * `dealloc` finds its first page already unmapped.
   */
  lemma LargeDoubleFreePanics(st: KState, ptr: nat, size: nat, align: nat, slot: nat)
    requires st.Valid() && st.pages.Some? && ListIndex(size, align).None?
    requires slot < |st.large| && st.large[slot].Some? && st.large[slot].value.addr == ptr
    requires st.large[slot].value.info.numPages >= 1
    requires forall j :: 0 <= j < |st.large| && j != slot ==> st.large[j].None? || st.large[j].value.addr != ptr
    requires DeallocSpec(st, ptr, size, align).1 == Return(())
    ensures DeallocSpec(DeallocSpec(st, ptr, size, align).0, ptr, size, align).1 == Panic("dealloc failed")
  {
    var n := st.large[slot].value.info.numPages;
    LargeDeallocSingleRecord(st, ptr, 0, slot);
    var (pages1, res1) := PA.DeallocSpec(st.pages.value, ptr, n);
    DeallocUnmapsAll(st.pages.value, ptr, n, 0);
    assert DeallocSpec(st, ptr, size, align) == LargeDeallocFrom(st, ptr, 0);
    assert res1.Return? && res1.value.Ok?;
    var st1 := DeallocSpec(st, ptr, size, align).0;
    assert st1.pages == Some(pages1) && st1.large == st.large;
    LargeDeallocSingleRecord(st1, ptr, 0, slot);
    assert PA.PageAt(ptr, 0) !in pages1.table;
    assert PA.DeallocSpec(pages1, ptr, n).1 == Return(Err(Paging.PageNotMapped));
  }

  // ---------------------------------------------------------------- the allocator object

  class FixedSizeBlockAllocator {
    const listHeads: array<seq<nat>>
    const listLengths: array<nat>

    ghost predicate Valid()
      reads this
    {
      listHeads.Length == CLASS_COUNT && listLengths.Length == CLASS_COUNT
    }

    function FreeLists(): Lists
      reads this, listHeads, listLengths
    {
      Lists(listHeads[..], listLengths[..])
    }

    /** `FixedSizeBlockAllocator::new`. */
    constructor New()
      ensures Valid() && fresh(listHeads) && fresh(listLengths)
      ensures FreeLists() == EmptyLists()
    {
      listHeads := new seq<nat>[CLASS_COUNT](_ => []);
      listLengths := new nat[CLASS_COUNT](_ => 0);
    }

    /** Push the blocks `p + k * b` for k = lo, ..., hi - 1 onto class `index`, as the carving loops do. */
    method PushCarved(index: nat, p: nat, b: nat, lo: nat, hi: nat)
      requires Valid() && index < CLASS_COUNT && lo <= hi
      modifies listHeads
      ensures listHeads[..] == old(listHeads[..])[index := Carved(p, b, lo, hi) + old(listHeads[index])]
    {
      var k := lo;
      var currentAddr := p + lo * b;
      assert Carved(p, b, lo, lo) == [];
      assert listHeads[..] == old(listHeads[..])[index := old(listHeads[index])];
      assert Carved(p, b, lo, k) + old(listHeads[index]) == old(listHeads[index]);
      while k < hi
        invariant lo <= k <= hi && currentAddr == p + k * b
        invariant listHeads[..] == old(listHeads[..])[index := Carved(p, b, lo, k) + old(listHeads[index])]
      {
        assert Carved(p, b, lo, k + 1) == [currentAddr] + Carved(p, b, lo, k);
        assert listHeads[..][index] == Carved(p, b, lo, k) + old(listHeads[index]);
        assert [currentAddr] + (Carved(p, b, lo, k) + old(listHeads[index])) == Carved(p, b, lo, k + 1) + old(listHeads[index]);
        listHeads[index] := [currentAddr] + listHeads[index];
        currentAddr := currentAddr + b;
        k := k + 1;
      }
    }

    /** `init`. */
    method Init(pa: PA.PageAllocator)
      requires Valid() && pa.Valid()
      modifies listHeads, pa, pa.frameAllocator, pa.mapper
      ensures Valid() && pa.Valid()
      ensures (FreeLists(), pa.State()) == InitSpec(old(FreeLists()), old(pa.State()))
    {
      var r := pa.Alloc(1);
      if r.Ok? {
        PushCarved(0, r.value, 8, 0, PAGE_SIZE / 8);
      }
    }

    /** `refill_free_list(index)`. */
    method RefillFreeList(index: nat, pa: PA.PageAllocator?, large: LargeAllocTable) returns (r: Option<nat>)
      requires Valid() && index < CLASS_COUNT && large.slots.Length == LARGE_ALLOC_SLOTS && (pa != null ==> pa.Valid())
      modifies listHeads, if pa == null then {} else {pa, pa.frameAllocator, pa.mapper}
      ensures Valid() && (pa != null ==> pa.Valid())
      ensures (StateOf(this, pa, large), r) == RefillSpec(old(StateOf(this, pa, large)), index)
    {
      if pa == null {
        return None;
      }
      var page := pa.Alloc(1);
      if page.Err? {
        return None;
      }
      var b := BLOCK_SIZES[index];
      BlockSizesDividePage(index);
      PushCarved(index, page.value, b, 1, PAGE_SIZE / b);
      r := Some(page.value);
    }

    /** `fallback_alloc`. */
    method FallbackAlloc(size: nat, align: nat, pa: PA.PageAllocator?, large: LargeAllocTable) returns (r: Outcome<Option<nat>>)
      requires Valid() && large.slots.Length == LARGE_ALLOC_SLOTS && (pa != null ==> pa.Valid())
      modifies large.slots, if pa == null then {} else {pa, pa.frameAllocator, pa.mapper}
      ensures Valid() && (pa != null ==> pa.Valid())
      ensures (StateOf(this, pa, large), r) == FallbackSpec(old(StateOf(this, pa, large)), size, align)
    {
      var s := Max(size, align);
      var numPages := (s + (PAGE_SIZE - 1)) / PAGE_SIZE;
      if pa == null {
        return Return(None);
      }
      var addr := pa.Alloc(numPages);
      if addr.Err? {
        return Return(None);
      }
      var ok := large.Insert(addr.value, AllocationInfo(numPages));
      if !ok {
        return Panic("LARGE_ALLOCS is full!");
      }
      r := Return(Some(addr.value));
    }

    /** `GlobalAlloc::alloc`. */
    method Alloc(size: nat, align: nat, pa: PA.PageAllocator?, large: LargeAllocTable) returns (r: Outcome<Option<nat>>)
      requires Valid() && large.slots.Length == LARGE_ALLOC_SLOTS && (pa != null ==> pa.Valid())
      modifies listHeads, large.slots, if pa == null then {} else {pa, pa.frameAllocator, pa.mapper}
      ensures Valid() && (pa != null ==> pa.Valid())
      ensures (StateOf(this, pa, large), r) == AllocSpec(old(StateOf(this, pa, large)), size, align)
    {
      var index := ListIndex(size, align);
      if index.None? {
        r := FallbackAlloc(size, align, pa, large);
        return;
      }
      var i := index.value;
      if listHeads[i] != [] {
        var node := listHeads[i][0];
        listHeads[i] := listHeads[i][1..];
        return Return(Some(node));
      }
      var block := RefillFreeList(i, pa, large);
      r := Return(block);
    }

    /** `GlobalAlloc::dealloc`. */
    method Dealloc(ptr: nat, size: nat, align: nat, pa: PA.PageAllocator?, large: LargeAllocTable) returns (r: Outcome<()>)
      requires Valid() && large.slots.Length == LARGE_ALLOC_SLOTS && (pa != null ==> pa.Valid())
      modifies listHeads, listLengths, if pa == null then {} else {pa.frameAllocator, pa.mapper}
      ensures Valid() && (pa != null ==> pa.Valid())
      ensures (StateOf(this, pa, large), r) == DeallocSpec(old(StateOf(this, pa, large)), ptr, size, align)
    {
      var index := ListIndex(size, align);
      if index.Some? {
        var i := index.value;
        if listLengths[i] < MAX_LIST_LENGTH {
          listHeads[i] := [ptr] + listHeads[i];
          listLengths[i] := listLengths[i] + 1;
        }
        return Return(());
      }
      var k := 0;
      while k < large.slots.Length
        invariant 0 <= k <= large.slots.Length && Valid() && (pa != null ==> pa.Valid())
        invariant StateOf(this, pa, large).Valid()
        invariant LargeDeallocFrom(StateOf(this, pa, large), ptr, k) == DeallocSpec(old(StateOf(this, pa, large)), ptr, size, align)
      {
        var slot := large.slots[k];
        if slot.Some? && slot.value.addr == ptr && pa != null {
          var res := pa.Dealloc(ptr, slot.value.info.numPages);
          if res.Panic? {
            return Panic(res.reason);
          }
          if res.value.Err? {
            return Panic("dealloc failed");
          }
        }
        k := k + 1;
      }
      r := Return(());
    }
  }

  /** The value of the allocator, the page allocator and the large-allocation table together. */
  function StateOf(h: FixedSizeBlockAllocator, pa: PA.PageAllocator?, large: LargeAllocTable): KState
    reads h, h.listHeads, h.listLengths, large, large.slots
    reads if pa == null then {} else {pa, pa.frameAllocator, pa.mapper}
  {
    KState(h.FreeLists(), large.slots[..], if pa == null then None else Some(pa.State()))
  }
}
