/**
 * The kernel's bump page allocator (kernel/src/allocator/page_allocator.rs).
 *
 * A virtual cursor walks upwards through a fixed window. `alloc(n)` checks the window,
 * then for each of the n pages takes a frame from the bitmap frame allocator and maps the
 * page to it. Two behaviours of the code are kept exactly as written: a failure part way
 * leaves the pages already mapped and the cursor already advanced (no rollback), and the
 * cursor advances by the whole request size once per page, so a successful n-page
 * request moves it by n * n pages.
 */
module PageAllocator {
  import opened Common
  import opened FrameAllocator
  import opened Paging

  const KERNEL_HEAP_START: nat := 0xFFFF_FF00_0000_0000
  const KERNEL_HEAP_SIZE: nat := 0x4000_0000
  const KERNEL_HEAP_END: nat := KERNEL_HEAP_START + KERNEL_HEAP_SIZE

  /** The allocator as a value: frame bitmap, page table, cursor and window end. */
  datatype PAState = PAState(frames: Frames, table: map<nat, nat>, cursor: nat, end: nat)

  /** `Page::containing_address(start + i * 4096)`. */
  function PageAt(start: nat, i: nat): nat
  {
    AlignDown(start + i * PAGE_SIZE)
  }

  lemma PageAtIs(start: nat, i: nat)
    ensures PageAt(start, i) == AlignDown(start) + i * PAGE_SIZE
  {
    AlignDownShift(start, i);
  }

  /** The pages `lo..hi` of the range starting at `start`. */
  function PagesOf(start: nat, lo: nat, hi: nat): set<nat>
    decreases hi - lo
  {
    if lo >= hi then {} else {PageAt(start, lo)} + PagesOf(start, lo + 1, hi)
  }

  /** The frames the table maps pages `lo..hi` of the range starting at `start` to, in page order (unmapped pages skipped). */
  function FramesOf(t: map<nat, nat>, start: nat, lo: nat, hi: nat): seq<nat>
    decreases hi - lo
  {
    if lo >= hi then []
    else (if PageAt(start, lo) in t then [t[PageAt(start, lo)]] else []) + FramesOf(t, start, lo + 1, hi)
  }

  /** The loop of `alloc` from page `i` on, for a request of `n` pages starting at `start`. */
  function AllocFrom(s: PAState, start: nat, n: nat, i: nat): (r: (PAState, Result<nat, MapToError>))
    ensures s.frames.Valid() ==>
              r.0.frames.Valid() && r.0.frames.base == s.frames.base && r.0.frames.count == s.frames.count
    decreases n - i
  {
    if i >= n then (s, Ok(start))
    else
      var (frames', frame) := AllocateSpec(s.frames);
      if frame.None? then (s.(frames := frames'), Err(FrameAllocationFailed))
      else
        var page := PageAt(start, i);
        if page in s.table then (s.(frames := frames'), Err(PageAlreadyMapped(s.table[page])))
        else AllocFrom(PAState(frames', s.table[page := frame.value], s.cursor + n * PAGE_SIZE, s.end), start, n, i + 1)
  }

  /** `PageAllocator::alloc(n)`: the window check, then the page loop. */
  function AllocSpec(s: PAState, n: nat): (r: (PAState, Result<nat, MapToError>))
    ensures s.frames.Valid() ==>
              r.0.frames.Valid() && r.0.frames.base == s.frames.base && r.0.frames.count == s.frames.count
  {
    if s.cursor + n * PAGE_SIZE > s.end then (s, Err(FrameAllocationFailed))
    else AllocFrom(s, s.cursor, n, 0)
  }

  /** The loop of `dealloc` from page `i` on. A frame the bitmap does not cover reaches `todo!`. */
  function DeallocFrom(s: PAState, addr: nat, n: nat, i: nat): (r: (PAState, Outcome<Result<(), UnmapError>>))
    requires s.frames.Valid()
    ensures r.0.frames.Valid() && r.0.frames.base == s.frames.base && r.0.frames.count == s.frames.count
    decreases n - i
  {
    if i >= n then (s, Return(Ok(())))
    else
      var page := PageAt(addr, i);
      if page !in s.table then (s, Return(Err(PageNotMapped)))
      else
        var s1 := s.(table := s.table - {page});
        match DeallocateSpec(s.frames, s.table[page])
        case None => (s1, Panic("not yet implemented"))
        case Some(frames') => DeallocFrom(s1.(frames := frames'), addr, n, i + 1)
  }

  /** `PageAllocator::dealloc(addr, n)`. */
  function DeallocSpec(s: PAState, addr: nat, n: nat): (r: (PAState, Outcome<Result<(), UnmapError>>))
    requires s.frames.Valid()
    ensures r.0.frames.Valid() && r.0.frames.base == s.frames.base && r.0.frames.count == s.frames.count
  {
    DeallocFrom(s, addr, n, 0)
  }

  /** `init_start_aslr`: the cursor derived from a hardware random value. */
  function AslrStart(rng: bv64): (r: nat)
    ensures KERNEL_HEAP_START <= r < KERNEL_HEAP_END
    ensures r - KERNEL_HEAP_START == rng as nat % KERNEL_HEAP_SIZE
  {
    KERNEL_HEAP_START + rng as nat % KERNEL_HEAP_SIZE
  }

  // ---------------------------------------------------------------- properties of the value model

  /** How many pages the loop of `alloc` maps, from page `i` on, before it stops. */
  function MappedCount(s: PAState, start: nat, n: nat, i: nat): nat
    decreases n - i
  {
    if i >= n then i
    else
      var (frames', frame) := AllocateSpec(s.frames);
      var page := PageAt(start, i);
      if frame.None? || page in s.table then i
      else MappedCount(PAState(frames', s.table[page := frame.value], s.cursor + n * PAGE_SIZE, s.end), start, n, i + 1)
  }

  /** Distinct page numbers give distinct pages. */
  lemma PageAtInjective(start: nat, i: nat, j: nat)
    requires i != j
    ensures PageAt(start, i) != PageAt(start, j)
  {
    PageAtIs(start, i);
    PageAtIs(start, j);
  }

  /** Two tables that agree on pages `lo..hi` give the same frames for them. */
  lemma {:induction false} FramesOfAgree(t1: map<nat, nat>, t2: map<nat, nat>, start: nat, lo: nat, hi: nat)
    requires forall j :: lo <= j < hi ==>
               (PageAt(start, j) in t1 && PageAt(start, j) in t2 && t1[PageAt(start, j)] == t2[PageAt(start, j)])
    ensures FramesOf(t1, start, lo, hi) == FramesOf(t2, start, lo, hi)
    decreases hi - lo
  {
    if lo < hi {
      FramesOfAgree(t1, t2, start, lo + 1, hi);
    }
  }

  /** Every page of `PagesOf(start, lo, hi)` lies at or above page `lo`. */
  lemma {:induction false} PagesOfAbove(start: nat, lo: nat, hi: nat)
    ensures forall p :: p in PagesOf(start, lo, hi) ==> AlignDown(start) + lo * PAGE_SIZE <= p
    decreases hi - lo
  {
    if lo < hi {
      PageAtIs(start, lo);
      PagesOfAbove(start, lo + 1, hi);
    }
  }

  /** One mapped page of `alloc`'s loop: the rest of the loop runs from the updated state. */
  lemma AllocStep(s: PAState, start: nat, n: nat, i: nat)
    requires i < n
    requires AllocateSpec(s.frames).1.Some? && PageAt(start, i) !in s.table
    ensures var s1 := PAState(AllocateSpec(s.frames).0, s.table[PageAt(start, i) := AllocateSpec(s.frames).1.value],
                              s.cursor + n * PAGE_SIZE, s.end);
      AllocFrom(s, start, n, i) == AllocFrom(s1, start, n, i + 1)
      && MappedCount(s, start, n, i) == MappedCount(s1, start, n, i + 1)
  {
  }

  /**
   * The loop of `alloc` from page `i`: it stops after k pages (k = n exactly on success),
   * the cursor moved by the whole request size once per mapped page, and flags only ever
   * went from free to used.
   */
  lemma {:induction false} AllocFromCursor(s: PAState, start: nat, n: nat, i: nat)
    requires i <= n && s.frames.Valid()
    ensures var (s', r) := AllocFrom(s, start, n, i);
      var k := MappedCount(s, start, n, i);
      i <= k <= n && (r.Ok? <==> k == n) && (r.Ok? ==> r.value == start)
      && s'.end == s.end && s'.cursor == s.cursor + (k - i) * (n * PAGE_SIZE)
      && s'.frames.Valid() && s'.frames.base == s.frames.base && s'.frames.count == s.frames.count
      && forall j :: 0 <= j < s.frames.count && s.frames.bitmap[j] ==> s'.frames.bitmap[j]
    decreases n - i
  {
    AllocateMarksOne(s.frames);
    if i < n {
      var (frames', frame) := AllocateSpec(s.frames);
      var page := PageAt(start, i);
      if frame.Some? && page !in s.table {
        var s1 := PAState(frames', s.table[page := frame.value], s.cursor + n * PAGE_SIZE, s.end);
        AllocFromCursor(s1, start, n, i + 1);
        var k := MappedCount(s1, start, n, i + 1);
        assert (k - i) * (n * PAGE_SIZE) == n * PAGE_SIZE + (k - (i + 1)) * (n * PAGE_SIZE);
      }
    }
  }

  /** The loop of `alloc` from page `i` adds exactly its k pages to the table, none mapped before, and keeps every old entry. */
  lemma AllocFromTable(s: PAState, start: nat, n: nat, i: nat)
    requires i <= n && s.frames.Valid()
    ensures var (s', r) := AllocFrom(s, start, n, i);
      var k := MappedCount(s, start, n, i);
      s'.table.Keys == s.table.Keys + PagesOf(start, i, k)
      && s.table.Keys !! PagesOf(start, i, k)
      && forall p :: p in s.table ==> s'.table[p] == s.table[p]
  {
    AllocFromKeys(s, start, n, i);
    AllocFromKeeps(s, start, n, i);
  }

  /** The pages the loop of `alloc` adds to the table: its k pages, none of them mapped before. */
  lemma {:induction false} AllocFromKeys(s: PAState, start: nat, n: nat, i: nat)
    requires i <= n && s.frames.Valid()
    ensures var k := MappedCount(s, start, n, i);
      AllocFrom(s, start, n, i).0.table.Keys == s.table.Keys + PagesOf(start, i, k)
      && s.table.Keys !! PagesOf(start, i, k)
    decreases n - i
  {
    AllocateMarksOne(s.frames);
    if i < n {
      var (frames', frame) := AllocateSpec(s.frames);
      var page := PageAt(start, i);
      if frame.Some? && page !in s.table {
        var s1 := PAState(frames', s.table[page := frame.value], s.cursor + n * PAGE_SIZE, s.end);
        AllocStep(s, start, n, i);
        AllocFromKeys(s1, start, n, i + 1);
        AllocFromCursor(s1, start, n, i + 1);
        var k := MappedCount(s1, start, n, i + 1);
        assert PagesOf(start, i, k) == {page} + PagesOf(start, i + 1, k);
      }
    }
  }

  /** The loop of `alloc` never changes an entry the table already had. */
  lemma {:induction false} AllocFromKeeps(s: PAState, start: nat, n: nat, i: nat)
    requires i <= n && s.frames.Valid()
    ensures var t := AllocFrom(s, start, n, i).0.table;
      forall p :: p in s.table ==> p in t && t[p] == s.table[p]
    decreases n - i
  {
    AllocateMarksOne(s.frames);
    if i < n {
      var (frames', frame) := AllocateSpec(s.frames);
      var page := PageAt(start, i);
      if frame.Some? && page !in s.table {
        var s1 := PAState(frames', s.table[page := frame.value], s.cursor + n * PAGE_SIZE, s.end);
        AllocStep(s, start, n, i);
        AllocFromKeeps(s1, start, n, i + 1);
      }
    }
  }

  /** Every page the table gains lies in `PagesOf`, so `FramesOf` sees one frame per mapped page. */
  lemma {:induction false} FramesOfCount(t: map<nat, nat>, start: nat, lo: nat, hi: nat)
    requires PagesOf(start, lo, hi) <= t.Keys
    ensures |FramesOf(t, start, lo, hi)| == if lo <= hi then hi - lo else 0
    ensures forall j :: lo <= j < hi ==> PageAt(start, j) in t
    decreases hi - lo
  {
    if lo < hi {
      FramesOfCount(t, start, lo + 1, hi);
    }
  }

  /** Setting flags never makes a frame free. */
  lemma IsFreeShrinks(f: Frames, f': Frames, x: nat)
    requires f.Valid() && f'.Valid() && f'.base == f.base && f'.count == f.count
    requires forall j :: 0 <= j < f.count && f.bitmap[j] ==> f'.bitmap[j]
    ensures IsFree(f', x) ==> IsFree(f, x)
  {
    assert FrameAsIndex(f', x) == FrameAsIndex(f, x);
  }

  /** One step of `alloc`'s loop, seen from the end of the loop: the frame it mapped heads the list. */
  lemma AllocStepFrames(s: PAState, start: nat, n: nat, i: nat)
    requires i < n && s.frames.Valid()
    requires AllocateSpec(s.frames).1.Some? && PageAt(start, i) !in s.table
    ensures var fr := AllocateSpec(s.frames).1.value;
      var s1 := PAState(AllocateSpec(s.frames).0, s.table[PageAt(start, i) := fr], s.cursor + n * PAGE_SIZE, s.end);
      var s' := AllocFrom(s, start, n, i).0;
      AllocFrom(s, start, n, i) == AllocFrom(s1, start, n, i + 1)
      && MappedCount(s, start, n, i) == MappedCount(s1, start, n, i + 1)
      && FramesOf(s'.table, start, i, MappedCount(s, start, n, i))
         == [fr] + FramesOf(s'.table, start, i + 1, MappedCount(s, start, n, i))
  {
    var fr := AllocateSpec(s.frames).1.value;
    var s1 := PAState(AllocateSpec(s.frames).0, s.table[PageAt(start, i) := fr], s.cursor + n * PAGE_SIZE, s.end);
    AllocateMarksOne(s.frames);
    AllocFromTable(s1, start, n, i + 1);
    AllocFromCursor(s1, start, n, i + 1);
  }

  /** Each frame the loop of `alloc` maps was free before the loop and is used after it. */
  lemma {:induction false} AllocFromFresh(s: PAState, start: nat, n: nat, i: nat)
    requires i <= n && s.frames.Valid()
    ensures var s' := AllocFrom(s, start, n, i).0;
      s'.frames.Valid()
      && forall x :: x in FramesOf(s'.table, start, i, MappedCount(s, start, n, i)) ==>
           x % PAGE_SIZE == 0 && IsFree(s.frames, x) && !IsFree(s'.frames, x)
    decreases n - i
  {
    AllocateMarksOne(s.frames);
    AllocFromCursor(s, start, n, i);
    if i < n {
      var (frames', frame) := AllocateSpec(s.frames);
      var page := PageAt(start, i);
      if frame.Some? && page !in s.table {
        var fr := frame.value;
        var s1 := PAState(frames', s.table[page := fr], s.cursor + n * PAGE_SIZE, s.end);
        var s' := AllocFrom(s, start, n, i).0;
        AllocStepFrames(s, start, n, i);
        AllocFromFresh(s1, start, n, i + 1);
        AllocFromCursor(s1, start, n, i + 1);
        IsFreeShrinks(s1.frames, s'.frames, fr);
        forall x | x in FramesOf(s'.table, start, i + 1, MappedCount(s, start, n, i))
          ensures IsFree(s.frames, x)
        {
          IsFreeShrinks(s.frames, s1.frames, x);
        }
      } else {
        assert FramesOf(AllocFrom(s, start, n, i).0.table, start, i, i) == [];
      }
    }
  }

  /** No two pages the loop of `alloc` maps share a frame. */
  lemma {:induction false} AllocFromDistinct(s: PAState, start: nat, n: nat, i: nat)
    requires i <= n && s.frames.Valid()
    ensures var s' := AllocFrom(s, start, n, i).0;
      var fs := FramesOf(s'.table, start, i, MappedCount(s, start, n, i));
      forall a, b :: 0 <= a < b < |fs| ==> fs[a] != fs[b]
    decreases n - i
  {
    AllocateMarksOne(s.frames);
    if i < n {
      var (frames', frame) := AllocateSpec(s.frames);
      var page := PageAt(start, i);
      if frame.Some? && page !in s.table {
        var fr := frame.value;
        var s1 := PAState(frames', s.table[page := fr], s.cursor + n * PAGE_SIZE, s.end);
        var s' := AllocFrom(s, start, n, i).0;
        var k := MappedCount(s, start, n, i);
        AllocStepFrames(s, start, n, i);
        AllocFromDistinct(s1, start, n, i + 1);
        AllocFromFresh(s1, start, n, i + 1);
        var rest := FramesOf(s'.table, start, i + 1, k);
        forall x | x in rest ensures x != fr {
          assert IsFree(s1.frames, x);
        }
        var fs := [fr] + rest;
        forall a, b | 0 <= a < b < |fs| ensures fs[a] != fs[b] {
          if a == 0 {
            assert fs[b] == rest[b - 1] && rest[b - 1] in rest;
          } else {
            assert fs[a] == rest[a - 1] && fs[b] == rest[b - 1];
          }
        }
      } else {
        assert FramesOf(AllocFrom(s, start, n, i).0.table, start, i, i) == [];
      }
    }
  }

  /** On success the loop of `alloc` marks exactly the frames it mapped. */
  lemma {:induction false} AllocFromBitmap(s: PAState, start: nat, n: nat, i: nat)
    requires i <= n && s.frames.Valid()
    ensures var (s', r) := AllocFrom(s, start, n, i);
      r.Ok? ==> s'.frames.Valid() && s'.frames.count == s.frames.count
                && forall j :: 0 <= j < s.frames.count ==>
                     (s'.frames.bitmap[j] <==> s.frames.bitmap[j]
                                               || IndexAsFrame(s.frames, j) in FramesOf(s'.table, start, i, n))
    decreases n - i
  {
    AllocateMarksOne(s.frames);
    AllocFromCursor(s, start, n, i);
    if i < n {
      var (frames', frame) := AllocateSpec(s.frames);
      var page := PageAt(start, i);
      if frame.Some? && page !in s.table {
        var fr := frame.value;
        var s1 := PAState(frames', s.table[page := fr], s.cursor + n * PAGE_SIZE, s.end);
        AllocStep(s, start, n, i);
        AllocFromBitmap(s1, start, n, i + 1);
        AllocFromTable(s1, start, n, i + 1);
        var s' := AllocFrom(s, start, n, i).0;
        assert FramesOf(s'.table, start, i, n) == [fr] + FramesOf(s'.table, start, i + 1, n);
      }
    }
  }

  /** The loop of `dealloc` over pages that are all mapped: no error, and exactly those pages leave the table. */
  lemma {:induction false} DeallocFromTable(s: PAState, addr: nat, n: nat, i: nat)
    requires i <= n && s.frames.Valid()
    requires PagesOf(addr, i, n) <= s.table.Keys
    requires forall x :: x in FramesOf(s.table, addr, i, n) ==> x % PAGE_SIZE == 0 && FrameAsIndex(s.frames, x).Some?
    ensures var (s', r) := DeallocFrom(s, addr, n, i);
      r == Return(Ok(()))
      && s'.frames.Valid() && s'.frames.base == s.frames.base && s'.frames.count == s.frames.count
      && s'.cursor == s.cursor && s'.end == s.end
      && s'.table == s.table - PagesOf(addr, i, n)
    decreases n - i
  {
    if i < n {
      var page := PageAt(addr, i);
      var frame := s.table[page];
      assert frame in FramesOf(s.table, addr, i, n);
      DeallocateClearsOne(s.frames, frame);
      var s1 := s.(table := s.table - {page}, frames := DeallocateSpec(s.frames, frame).value);
      DeallocStepKeeps(s, s1, addr, n, i);
      forall x | x in FramesOf(s1.table, addr, i + 1, n) ensures x % PAGE_SIZE == 0 && FrameAsIndex(s1.frames, x).Some? {
        assert x in FramesOf(s.table, addr, i, n);
      }
      DeallocFromTable(s1, addr, n, i + 1);
    }
  }

  /** One step of `dealloc`'s loop keeps the remaining pages and their frames in place. */
  lemma DeallocStepKeeps(s: PAState, s1: PAState, addr: nat, n: nat, i: nat)
    requires i < n && s.frames.Valid() && s1.frames.Valid()
    requires s1.frames.base == s.frames.base && s1.frames.count == s.frames.count
    requires PagesOf(addr, i, n) <= s.table.Keys
    requires s1.table == s.table - {PageAt(addr, i)}
    ensures PagesOf(addr, i + 1, n) <= s1.table.Keys
    ensures FramesOf(s1.table, addr, i + 1, n) == FramesOf(s.table, addr, i + 1, n)
    ensures FramesOf(s.table, addr, i, n) == [s.table[PageAt(addr, i)]] + FramesOf(s.table, addr, i + 1, n)
    ensures forall x :: FrameAsIndex(s1.frames, x) == FrameAsIndex(s.frames, x)
  {
    PagesOfAbove(addr, i + 1, n);
    PageAtIs(addr, i);
    FramesOfCount(s.table, addr, i, n);
    forall j | i + 1 <= j < n ensures PageAt(addr, j) in s1.table && s1.table[PageAt(addr, j)] == s.table[PageAt(addr, j)] {
      PageAtInjective(addr, i, j);
    }
    FramesOfAgree(s1.table, s.table, addr, i + 1, n);
  }

  /** The loop of `dealloc` over pages that are all mapped clears exactly the flags of their frames. */
  lemma {:induction false} DeallocFromBitmap(s: PAState, addr: nat, n: nat, i: nat)
    requires i <= n && s.frames.Valid()
    requires PagesOf(addr, i, n) <= s.table.Keys
    requires forall x :: x in FramesOf(s.table, addr, i, n) ==> x % PAGE_SIZE == 0 && FrameAsIndex(s.frames, x).Some?
    ensures var (s', r) := DeallocFrom(s, addr, n, i);
      s'.frames.Valid() && s'.frames.count == s.frames.count
      && forall j :: 0 <= j < s.frames.count ==>
           (s'.frames.bitmap[j] <==> s.frames.bitmap[j] && IndexAsFrame(s.frames, j) !in FramesOf(s.table, addr, i, n))
    decreases n - i
  {
    if i < n {
      var page := PageAt(addr, i);
      var frame := s.table[page];
      assert frame in FramesOf(s.table, addr, i, n);
      DeallocateClearsOne(s.frames, frame);
      var frames' := DeallocateSpec(s.frames, frame).value;
      var s1 := s.(table := s.table - {page}, frames := frames');
      DeallocStepKeeps(s, s1, addr, n, i);
      var rest := FramesOf(s.table, addr, i + 1, n);
      forall x | x in FramesOf(s1.table, addr, i + 1, n) ensures x % PAGE_SIZE == 0 && FrameAsIndex(s1.frames, x).Some? {
        assert x in FramesOf(s.table, addr, i, n);
      }
      DeallocFromBitmap(s1, addr, n, i + 1);
      var s' := DeallocFrom(s, addr, n, i).0;
      assert s' == DeallocFrom(s1, addr, n, i + 1).0;
      forall j | 0 <= j < s.frames.count
        ensures s'.frames.bitmap[j] <==> s.frames.bitmap[j] && IndexAsFrame(s.frames, j) !in [frame] + rest
      {
        assert IndexAsFrame(s1.frames, j) == IndexAsFrame(s.frames, j);
        assert frames'.bitmap[j] == (s.frames.bitmap[j] && IndexAsFrame(s.frames, j) != frame);
      }
    }
  }

  /** `alloc(n)` fails on the window check exactly as written, changing nothing. */
  lemma AllocOutsideWindow(s: PAState, n: nat)
    requires s.cursor + n * PAGE_SIZE > s.end
    ensures AllocSpec(s, n) == (s, Err(FrameAllocationFailed))
  {
  }

  /**
   * A successful `alloc(n)` returns the old cursor and advances the cursor by n * n pages.
   * Its n pages `cursor + i * 4096`, none mapped before, are now mapped, each to a distinct
   * frame that was free; every old entry is kept and exactly those frames became used.
   */
  lemma AllocSucceeds(s: PAState, n: nat)
    requires s.frames.Valid()
    ensures var (s', r) := AllocSpec(s, n);
      var fs := FramesOf(s'.table, s.cursor, 0, n);
      r.Ok? ==> (r.value == s.cursor
                 && s'.cursor == s.cursor + n * n * PAGE_SIZE
                 && s'.end == s.end
                 && s'.table.Keys == s.table.Keys + PagesOf(s.cursor, 0, n)
                 && s.table.Keys !! PagesOf(s.cursor, 0, n)
                 && (forall p :: p in s.table ==> s'.table[p] == s.table[p])
                 && |fs| == n
                 && (forall x :: x in fs ==> x % PAGE_SIZE == 0 && IsFree(s.frames, x))
                 && (forall a, b :: 0 <= a < b < |fs| ==> fs[a] != fs[b])
                 && s'.frames.Valid() && s'.frames.base == s.frames.base && s'.frames.count == s.frames.count
                 && forall j :: 0 <= j < s.frames.count ==>
                      (s'.frames.bitmap[j] <==> s.frames.bitmap[j] || IndexAsFrame(s.frames, j) in fs))
  {
    if s.cursor + n * PAGE_SIZE <= s.end {
      AllocFromCursor(s, s.cursor, n, 0);
      AllocFromTable(s, s.cursor, n, 0);
      AllocFromFresh(s, s.cursor, n, 0);
      AllocFromDistinct(s, s.cursor, n, 0);
      AllocFromBitmap(s, s.cursor, n, 0);
      if AllocSpec(s, n).1.Ok? {
        FramesOfCount(AllocSpec(s, n).0.table, s.cursor, 0, n);
      }
      assert (n - 0) * (n * PAGE_SIZE) == n * n * PAGE_SIZE;
    }
  }

  /**
   * A failing `alloc(n)` that passed the window check leaves behind its first k < n pages
   * mapped to fresh frames and the cursor advanced k times: nothing is rolled back.
   */
  lemma AllocFailureKeepsProgress(s: PAState, n: nat)
    requires s.frames.Valid()
    requires s.cursor + n * PAGE_SIZE <= s.end
    ensures var (s', r) := AllocSpec(s, n);
      var k := MappedCount(s, s.cursor, n, 0);
      r.Err? ==> (k < n
                  && s'.cursor == s.cursor + k * (n * PAGE_SIZE)
                  && s'.table.Keys == s.table.Keys + PagesOf(s.cursor, 0, k)
                  && (forall p :: p in s.table ==> s'.table[p] == s.table[p])
                  && (forall x :: x in FramesOf(s'.table, s.cursor, 0, k) ==> IsFree(s.frames, x) && !IsFree(s'.frames, x)))
  {
    AllocFromCursor(s, s.cursor, n, 0);
    AllocFromTable(s, s.cursor, n, 0);
    AllocFromFresh(s, s.cursor, n, 0);
  }

  /** A successful `alloc(n)` returns the old cursor and moves the cursor n * n pages on. */
  lemma AllocCursor(s: PAState, n: nat)
    requires s.frames.Valid()
    ensures AllocSpec(s, n).1.Ok? ==>
              AllocSpec(s, n).1.value == s.cursor && AllocSpec(s, n).0.cursor == s.cursor + n * n * PAGE_SIZE
  {
    if s.cursor + n * PAGE_SIZE <= s.end {
      AllocFromCursor(s, s.cursor, n, 0);
      assert (n - 0) * (n * PAGE_SIZE) == n * n * PAGE_SIZE;
    }
  }

  /** Two successful allocations in a row, the first of at least one page, return disjoint, increasing ranges. */
  lemma SuccessiveAllocsDisjoint(s: PAState, n1: nat, n2: nat)
    requires s.frames.Valid() && n1 >= 1
    requires AllocSpec(s, n1).1.Ok?
    requires AllocSpec(s, n1).0.frames.Valid()
    requires AllocSpec(AllocSpec(s, n1).0, n2).1.Ok?
    ensures AllocSpec(s, n1).1.value + n1 * PAGE_SIZE <= AllocSpec(AllocSpec(s, n1).0, n2).1.value
  {
    AllocCursor(s, n1);
    AllocCursor(AllocSpec(s, n1).0, n2);
    assert n1 * PAGE_SIZE <= n1 * n1 * PAGE_SIZE by {
      assert n1 * n1 * PAGE_SIZE == n1 * (n1 * PAGE_SIZE);
    }
  }

  /**
   * Deallocating what a successful `alloc(n)` returned unmaps its pages and frees its
   * frames: table and bitmap are back to what they were, only the cursor stays advanced.
   */
  lemma AllocThenDealloc(s: PAState, n: nat)
    requires s.frames.Valid()
    requires AllocSpec(s, n).1.Ok?
    ensures AllocSpec(s, n).0.frames.Valid()
    ensures DeallocSpec(AllocSpec(s, n).0, AllocSpec(s, n).1.value, n) == (s.(cursor := AllocSpec(s, n).0.cursor), Return(Ok(())))
  {
    AllocSucceeds(s, n);
    var (s1, r) := AllocSpec(s, n);
    DeallocUndoes(s, s1, s.cursor, n);
  }

  /** `dealloc` over pages `start..start + n` that were added to `s`, onto frames that were free in `s`, gives back `s`. */
  lemma DeallocUndoes(s: PAState, s1: PAState, start: nat, n: nat)
    requires s.frames.Valid() && s1.frames.Valid()
    requires s1.frames.base == s.frames.base && s1.frames.count == s.frames.count && s1.end == s.end
    requires s1.table.Keys == s.table.Keys + PagesOf(start, 0, n) && s.table.Keys !! PagesOf(start, 0, n)
    requires forall p :: p in s.table ==> s1.table[p] == s.table[p]
    requires forall x :: x in FramesOf(s1.table, start, 0, n) ==> x % PAGE_SIZE == 0 && IsFree(s.frames, x)
    requires forall j :: 0 <= j < s.frames.count ==>
               (s1.frames.bitmap[j] <==> s.frames.bitmap[j] || IndexAsFrame(s.frames, j) in FramesOf(s1.table, start, 0, n))
    ensures DeallocSpec(s1, start, n) == (s.(cursor := s1.cursor), Return(Ok(())))
  {
    var fs := FramesOf(s1.table, start, 0, n);
    forall x | x in fs ensures x % PAGE_SIZE == 0 && FrameAsIndex(s1.frames, x).Some? {
      assert IsFree(s.frames, x);
      assert FrameAsIndex(s1.frames, x) == FrameAsIndex(s.frames, x);
    }
    DeallocFromTable(s1, start, n, 0);
    DeallocFromBitmap(s1, start, n, 0);
    var s2 := DeallocSpec(s1, start, n).0;
    RestoresTable(s.table, s1.table, s2.table, PagesOf(start, 0, n));
    RestoresBitmap(s.frames, s1.frames, s2.frames, fs);
  }

  /** Marking free frames used and then those same frames free again gives back the bitmap. */
  lemma RestoresBitmap(f: Frames, f1: Frames, f2: Frames, fs: seq<nat>)
    requires f.Valid() && f1.Valid() && f2.Valid()
    requires f1.base == f.base && f1.count == f.count && f2.count == f.count
    requires forall x :: x in fs ==> IsFree(f, x)
    requires forall j :: 0 <= j < f.count ==> (f1.bitmap[j] <==> f.bitmap[j] || IndexAsFrame(f, j) in fs)
    requires forall j :: 0 <= j < f.count ==> (f2.bitmap[j] <==> f1.bitmap[j] && IndexAsFrame(f1, j) !in fs)
    ensures f2.bitmap == f.bitmap
  {
    forall j | 0 <= j < f.count ensures f2.bitmap[j] == f.bitmap[j] {
      assert IndexAsFrame(f1, j) == IndexAsFrame(f, j);
      IndexFrameRoundTrip(f, j);
    }
  }

  /** Adding fresh keys and removing them again gives back the original map. */
  lemma RestoresTable(t: map<nat, nat>, t1: map<nat, nat>, t2: map<nat, nat>, added: set<nat>)
    requires t1.Keys == t.Keys + added && t.Keys !! added
    requires forall p :: p in t ==> t1[p] == t[p]
    requires t2 == t1 - added
    ensures t2 == t
  {
  }

  // ---------------------------------------------------------------- the allocator object

  class PageAllocator {
    const frameAllocator: BitmapFrameAllocator
    const mapper: PageTable
    var currentVirt: nat
    const endVirt: nat

    ghost predicate Valid()
      reads this, frameAllocator
    {
      frameAllocator.Valid()
    }

    function State(): PAState
      reads this, frameAllocator, mapper
    {
      PAState(frameAllocator.State(), mapper.entries, currentVirt, endVirt)
    }

    /** `PageAllocator::new`. */
    constructor New(mapper: PageTable, frameAllocator: BitmapFrameAllocator, startVirt: nat, endVirt: nat)
      requires frameAllocator.Valid()
      ensures Valid() && this.mapper == mapper && this.frameAllocator == frameAllocator
      ensures State() == PAState(frameAllocator.State(), mapper.entries, startVirt, endVirt)
    {
      this.mapper := mapper;
      this.frameAllocator := frameAllocator;
      this.currentVirt := startVirt;
      this.endVirt := endVirt;
    }

    /** `alloc(num_pages)`: the start of the range, or the first error met. */
    method Alloc(numPages: nat) returns (r: Result<nat, MapToError>)
      requires Valid()
      modifies this, frameAllocator, mapper
      ensures Valid()
      ensures (State(), r) == AllocSpec(old(State()), numPages)
    {
      var bytesNeeded := numPages * PAGE_SIZE;
      if currentVirt + bytesNeeded > endVirt {
        return Err(FrameAllocationFailed);
      }
      var startAddr := currentVirt;
      var i := 0;
      while i < numPages
        invariant i <= numPages && Valid()
        invariant AllocFrom(State(), startAddr, numPages, i) == AllocSpec(old(State()), numPages)
      {
        var page := PageAt(startAddr, i);
        var frame := frameAllocator.AllocateFrame();
        if frame.None? {
          return Err(FrameAllocationFailed);
        }
        var err := mapper.MapTo(page, frame.value);
        if err.Some? {
          return Err(err.value);
        }
        currentVirt := currentVirt + bytesNeeded;
        i := i + 1;
      }
      r := Ok(startAddr);
    }

    /** `init_start_aslr`, with the value `_rdrand64_step` produced as a parameter. */
    method InitStartAslr(rng: bv64)
      modifies this`currentVirt
      ensures currentVirt == AslrStart(rng)
    {
      currentVirt := KERNEL_HEAP_START + rng as nat % KERNEL_HEAP_SIZE;
    }

    /** `dealloc(addr, num_pages)`. */
    method Dealloc(addr: nat, numPages: nat) returns (r: Outcome<Result<(), UnmapError>>)
      requires Valid()
      modifies frameAllocator, mapper
      ensures Valid()
      ensures (State(), r) == DeallocSpec(old(State()), addr, numPages)
    {
      var i := 0;
      while i < numPages
        invariant i <= numPages && Valid()
        invariant DeallocFrom(State(), addr, numPages, i) == DeallocSpec(old(State()), addr, numPages)
      {
        var unmapped := mapper.Unmap(PageAt(addr, i));
        if unmapped.Err? {
          return Return(Err(unmapped.error));
        }
        var ok := frameAllocator.DeallocateFrame(unmapped.value);
        if !ok {
          return Panic("not yet implemented");
        }
        i := i + 1;
      }
      r := Return(Ok(()));
    }
  }

  /** `init_page_allocator`: the allocator over the kernel heap window. */
  method InitPageAllocator(mapper: PageTable, frameAlloc: BitmapFrameAllocator) returns (pa: PageAllocator)
    requires frameAlloc.Valid()
    ensures fresh(pa) && pa.Valid() && pa.mapper == mapper && pa.frameAllocator == frameAlloc
    ensures pa.State() == PAState(frameAlloc.State(), mapper.entries, KERNEL_HEAP_START, KERNEL_HEAP_END)
  {
    pa := new PageAllocator.New(mapper, frameAlloc, KERNEL_HEAP_START, KERNEL_HEAP_END);
  }
}
