/**
 * The physical frame allocators of src/memory.rs.
 *
 * `BootInfoFrameAllocator` walks the usable regions of the boot memory map and hands out
 * the `next`-th 4 KiB frame, never reusing one. `BitmapFrameAllocator` covers the span of
 * the usable regions with one flag per frame (true = used) and allocates the lowest free
 * frame first, so frames can be returned and reused.
 */
module FrameAllocator {
  import opened Common

  /** The bootloader's region kinds, reduced to the one distinction the allocators make. */
  datatype RegionType = Usable | Unusable

  datatype MemoryRegion = MemoryRegion(startAddr: nat, endAddr: nat, regionType: RegionType)

  predicate Increasing(s: seq<nat>)
  {
    forall i, j :: 0 <= i < j < |s| ==> s[i] < s[j]
  }

  // ---------------------------------------------------------------- BootInfoFrameAllocator

  /** `(start..end).step_by(4096)` mapped through `PhysFrame::containing_address`. */
  function RegionFrames(start: nat, end: nat): seq<nat>
    decreases end - start
  {
    if start >= end then [] else [AlignDown(start)] + RegionFrames(start + PAGE_SIZE, end)
  }

  /** `usable_frames`: the frames of the usable regions, region by region in map order. */
  function UsableFrames(regions: seq<MemoryRegion>): seq<nat>
  {
    if regions == [] then []
    else
      (if regions[0].regionType == Usable then RegionFrames(regions[0].startAddr, regions[0].endAddr) else [])
      + UsableFrames(regions[1..])
  }

  /** What a boot memory map normally looks like: sorted, non-overlapping, usable regions page aligned. */
  predicate WellFormedMap(regions: seq<MemoryRegion>)
  {
    (forall i :: 0 <= i < |regions| ==> regions[i].startAddr <= regions[i].endAddr)
    && (forall i :: 0 <= i < |regions| && regions[i].regionType == Usable ==> regions[i].startAddr % PAGE_SIZE == 0)
    && (forall i, j :: 0 <= i < j < |regions| ==> regions[i].endAddr <= regions[j].startAddr)
  }

  lemma {:induction false} RegionFramesFacts(start: nat, end: nat)
    ensures Increasing(RegionFrames(start, end))
    ensures forall f :: f in RegionFrames(start, end) ==> AlignDown(start) <= f < end && f % PAGE_SIZE == 0
    decreases end - start
  {
    if start < end {
      RegionFramesFacts(start + PAGE_SIZE, end);
      AlignDownShift(start, 1);
      var tail := RegionFrames(start + PAGE_SIZE, end);
      assert RegionFrames(start, end) == [AlignDown(start)] + tail;
      forall i | 0 <= i < |tail| ensures AlignDown(start) < tail[i] {
        assert tail[i] in tail;
      }
    }
  }

  /** Every frame the boot-info allocator can return lies in a usable region of the map. */
  lemma {:induction false} UsableFramesInUsableRegions(regions: seq<MemoryRegion>)
    ensures forall f :: f in UsableFrames(regions) ==>
      exists i :: 0 <= i < |regions| && regions[i].regionType == Usable
        && AlignDown(regions[i].startAddr) <= f < regions[i].endAddr
  {
    if regions != [] {
      UsableFramesInUsableRegions(regions[1..]);
      RegionFramesFacts(regions[0].startAddr, regions[0].endAddr);
      forall f | f in UsableFrames(regions)
        ensures exists i :: 0 <= i < |regions| && regions[i].regionType == Usable
                   && AlignDown(regions[i].startAddr) <= f < regions[i].endAddr
      {
        var head := if regions[0].regionType == Usable then RegionFrames(regions[0].startAddr, regions[0].endAddr) else [];
        if f in head {
          assert regions[0].regionType == Usable;
        } else {
          assert f in UsableFrames(regions[1..]);
          var i :| 0 <= i < |regions[1..]| && regions[1..][i].regionType == Usable
            && AlignDown(regions[1..][i].startAddr) <= f < regions[1..][i].endAddr;
          assert regions[i + 1] == regions[1..][i];
        }
      }
    }
  }

  /** On a well-formed map the usable frames come out strictly increasing, hence pairwise distinct. */
  lemma {:induction false} UsableFramesIncreasing(regions: seq<MemoryRegion>)
    requires WellFormedMap(regions)
    ensures Increasing(UsableFrames(regions))
    ensures regions != [] ==> forall f :: f in UsableFrames(regions) ==> regions[0].startAddr <= f
  {
    if regions != [] {
      var rest := regions[1..];
      assert WellFormedMap(rest) by {
        forall i, j | 0 <= i < j < |rest| ensures rest[i].endAddr <= rest[j].startAddr {
          assert rest[i] == regions[i + 1] && rest[j] == regions[j + 1];
        }
      }
      UsableFramesIncreasing(rest);
      RegionFramesFacts(regions[0].startAddr, regions[0].endAddr);
      var head := if regions[0].regionType == Usable then RegionFrames(regions[0].startAddr, regions[0].endAddr) else [];
      var tail := UsableFrames(rest);
      assert UsableFrames(regions) == head + tail;
      if rest != [] {
        assert regions[0].endAddr <= rest[0].startAddr by { assert rest[0] == regions[1]; }
      }
      forall f | f in head ensures regions[0].startAddr <= f < regions[0].endAddr {
        AlignDownOfAligned(regions[0].startAddr);
      }
      forall f | f in tail ensures regions[0].endAddr <= f {
      }
      forall i, j | 0 <= i < j < |head + tail| ensures (head + tail)[i] < (head + tail)[j] {
        if j < |head| {
        } else if i >= |head| {
          assert (head + tail)[i] == tail[i - |head|];
          assert (head + tail)[j] == tail[j - |head|];
        } else {
          assert (head + tail)[i] == head[i] && head[i] in head;
          assert (head + tail)[j] == tail[j - |head|] && tail[j - |head|] in tail;
        }
      }
    }
  }

  /** The frame `usable_frames().nth(n)` yields, if the iterator is that long. */
  function NthUsableFrame(regions: seq<MemoryRegion>, n: nat): Option<nat>
  {
    var frames := UsableFrames(regions);
    if n < |frames| then Some(frames[n]) else None
  }

  /** Two different calls (counters k1 < k2) never hand out the same frame on a well-formed map. */
  lemma BootInfoNeverReuses(regions: seq<MemoryRegion>, k1: nat, k2: nat)
    requires WellFormedMap(regions)
    requires k1 < k2
    requires NthUsableFrame(regions, k1).Some? && NthUsableFrame(regions, k2).Some?
    ensures NthUsableFrame(regions, k1).value < NthUsableFrame(regions, k2).value
  {
    UsableFramesIncreasing(regions);
  }

  class BootInfoFrameAllocator {
    const memoryMap: seq<MemoryRegion>
    var next: nat

    /** `BootInfoFrameAllocator::init`. */
    constructor Init(memoryMap: seq<MemoryRegion>)
      ensures this.memoryMap == memoryMap && next == 0
    {
      this.memoryMap := memoryMap;
      next := 0;
    }

    /** Returns the `next`-th usable frame and bumps `next`, even when there is none. */
    method AllocateFrame() returns (frame: Option<nat>)
      modifies this
      ensures next == old(next) + 1
      ensures frame == NthUsableFrame(memoryMap, old(next))
      ensures frame.Some? ==> frame.value % PAGE_SIZE == 0
    {
      frame := NthUsableFrame(memoryMap, next);
      if frame.Some? {
        UsableFramesInUsableRegions(memoryMap);
        assert frame.value in UsableFrames(memoryMap);
        RegionFramesAligned(memoryMap);
      }
      next := next + 1;
    }
  }

  lemma {:induction false} RegionFramesAligned(regions: seq<MemoryRegion>)
    ensures forall f :: f in UsableFrames(regions) ==> f % PAGE_SIZE == 0
  {
    if regions != [] {
      RegionFramesAligned(regions[1..]);
      RegionFramesFacts(regions[0].startAddr, regions[0].endAddr);
    }
  }

  // ---------------------------------------------------------------- BitmapFrameAllocator

  /** The value of a bitmap allocator: its first frame, its frame count and one flag per frame (true = used). */
  datatype Frames = Frames(base: nat, count: nat, bitmap: seq<bool>)
  {
    ghost predicate Valid()
    {
      |bitmap| == count && base % PAGE_SIZE == 0
    }
  }

  /** `index_as_frame`. */
  function IndexAsFrame(f: Frames, index: nat): nat
  {
    f.base + index * PAGE_SIZE
  }

  /** `frame_as_index`: the bitmap index of `frame`, or None outside `[base, base + 4096 * count)`. */
  function FrameAsIndex(f: Frames, frame: nat): (r: Option<nat>)
    ensures r.None? <==> frame < f.base || frame >= f.base + f.count * PAGE_SIZE
    ensures r.Some? ==> r.value < f.count && IndexAsFrame(f, r.value) <= frame < IndexAsFrame(f, r.value) + PAGE_SIZE
  {
    if frame < f.base then None
    else
      var index := (frame - f.base) / PAGE_SIZE;
      if index >= f.count then None else Some(index)
  }

  /** `index_as_frame` and `frame_as_index` are inverse on the bitmap's index range. */
  lemma IndexFrameRoundTrip(f: Frames, index: nat)
    requires index < f.count
    ensures FrameAsIndex(f, IndexAsFrame(f, index)) == Some(index)
  {
  }

  /** The lowest index at or after `from` whose flag is false (free). */
  function FirstFree(bitmap: seq<bool>, from: nat): (r: Option<nat>)
    ensures r.Some? ==> (from <= r.value < |bitmap| && !bitmap[r.value]
                         && forall j :: from <= j < r.value ==> bitmap[j])
    ensures r.None? ==> forall j :: from <= j < |bitmap| ==> bitmap[j]
    decreases |bitmap| - from
  {
    if from >= |bitmap| then None
    else if !bitmap[from] then Some(from)
    else FirstFree(bitmap, from + 1)
  }

  /** `allocate_frame`: mark the lowest free frame used and return it; None when every frame is used. */
  function AllocateSpec(f: Frames): (Frames, Option<nat>)
  {
    match FirstFree(f.bitmap, 0)
    case None => (f, None)
    case Some(i) => (f.(bitmap := f.bitmap[i := true]), Some(IndexAsFrame(f, i)))
  }

  /** `deallocate_frame`: clear the frame's flag; None stands for the `todo!` panic on a frame outside the bitmap. */
  function DeallocateSpec(f: Frames, frame: nat): Option<Frames>
    requires f.Valid()
  {
    match FrameAsIndex(f, frame)
    case None => None
    case Some(i) => Some(f.(bitmap := f.bitmap[i := false]))
  }

  /** Allocation takes the lowest free frame, changes only its flag, and fails exactly when none is free. */
  lemma AllocateLowestFree(f: Frames)
    requires f.Valid()
    ensures var (f', r) := AllocateSpec(f);
      f'.base == f.base && f'.count == f.count && f'.Valid()
      && (r.None? <==> forall j :: 0 <= j < f.count ==> f.bitmap[j])
      && (r.None? ==> f' == f)
      && (r.Some? ==> (exists i :: 0 <= i < f.count && r.value == IndexAsFrame(f, i) && !f.bitmap[i]
                                  && (forall j :: 0 <= j < i ==> f.bitmap[j])
                                  && f'.bitmap == f.bitmap[i := true]))
  {
  }

  /** Deallocating the frame just allocated restores the bitmap exactly. */
  lemma AllocateThenDeallocate(f: Frames)
    requires f.Valid()
    requires AllocateSpec(f).1.Some?
    ensures DeallocateSpec(AllocateSpec(f).0, AllocateSpec(f).1.value) == Some(f)
  {
    var i := FirstFree(f.bitmap, 0).value;
    var f' := AllocateSpec(f).0;
    assert FrameAsIndex(f', IndexAsFrame(f', i)) == Some(i);
    assert f'.bitmap[i := false] == f.bitmap;
  }

  /** Deallocation clears exactly the frame's flag and panics exactly for frames outside the bitmap. */
  lemma DeallocateClearsOne(f: Frames, frame: nat)
    requires f.Valid() && frame % PAGE_SIZE == 0
    ensures DeallocateSpec(f, frame).None? <==> frame < f.base || frame >= f.base + f.count * PAGE_SIZE
    ensures DeallocateSpec(f, frame).Some? ==>
      var f' := DeallocateSpec(f, frame).value;
      f'.Valid() && f'.base == f.base && f'.count == f.count
      && forall j :: 0 <= j < f.count ==> f'.bitmap[j] == (f.bitmap[j] && IndexAsFrame(f, j) != frame)
  {
    if DeallocateSpec(f, frame).Some? {
      var i := FrameAsIndex(f, frame).value;
      assert IndexAsFrame(f, i) == frame by {
        assert (frame - f.base) % PAGE_SIZE == 0;
      }
      forall j | 0 <= j < f.count && j != i ensures IndexAsFrame(f, j) != frame {
        if j < i {
          assert IndexAsFrame(f, j) + PAGE_SIZE <= IndexAsFrame(f, i);
        } else {
          assert IndexAsFrame(f, i) + PAGE_SIZE <= IndexAsFrame(f, j);
        }
      }
    }
  }

  /** Frame `frame` lies inside the bitmap and its flag says free. */
  predicate IsFree(f: Frames, frame: nat)
  {
    match FrameAsIndex(f, frame)
    case None => false
    case Some(i) => i < |f.bitmap| && !f.bitmap[i]
  }

  /**
   * Allocation seen flag by flag: the returned frame was free and is now used, and every
   * flag of the new bitmap is the old flag or-ed with "this is the returned frame".
   */
  lemma AllocateMarksOne(f: Frames)
    requires f.Valid()
    ensures var (f', r) := AllocateSpec(f);
      f'.Valid() && f'.base == f.base && f'.count == f.count
      && (r.Some? ==> r.value % PAGE_SIZE == 0 && IsFree(f, r.value) && !IsFree(f', r.value))
      && forall j :: 0 <= j < f.count ==>
           (f'.bitmap[j] <==> f.bitmap[j] || (r.Some? && IndexAsFrame(f, j) == r.value))
  {
    var (f', r) := AllocateSpec(f);
    if r.Some? {
      var i := FirstFree(f.bitmap, 0).value;
      IndexFrameRoundTrip(f, i);
      IndexFrameRoundTrip(f', i);
      forall j | 0 <= j < f.count && j != i ensures IndexAsFrame(f, j) != r.value {
        if j < i {
          assert IndexAsFrame(f, j) + PAGE_SIZE <= IndexAsFrame(f, i);
        } else {
          assert IndexAsFrame(f, i) + PAGE_SIZE <= IndexAsFrame(f, j);
        }
      }
    }
  }

  /** `MemoryRegion` covers frame `f` in the sense of `init`'s marking loop. */
  predicate MarksFrame(r: MemoryRegion, f: nat)
  {
    r.regionType == Usable && AlignDown(r.startAddr) <= f < AlignUp(r.endAddr)
  }

  /** Some usable region among `regions` marks frame `f` free. */
  predicate Covered(regions: seq<MemoryRegion>, f: nat)
  {
    exists k :: 0 <= k < |regions| && MarksFrame(regions[k], f)
  }

  /** For a non-empty region, being marked means overlapping the region, edge frames included. */
  lemma MarksFrameIffOverlaps(r: MemoryRegion, f: nat)
    requires r.regionType == Usable && r.startAddr < r.endAddr && f % PAGE_SIZE == 0
    ensures MarksFrame(r, f) <==> (f < r.endAddr && r.startAddr < f + PAGE_SIZE)
  {

  }

  /** The lowest usable start, starting from `u64::MAX` as `init` does. */
  function MinUsableStart(regions: seq<MemoryRegion>): nat
  {
    if regions == [] then U64_MAX
    else
      var last := regions[|regions| - 1];
      var m := MinUsableStart(regions[..|regions| - 1]);
      if last.regionType == Usable && last.startAddr < m then last.startAddr else m
  }

  /** The highest usable end, starting from 0 as `init` does. */
  function MaxUsableEnd(regions: seq<MemoryRegion>): nat
  {
    if regions == [] then 0
    else
      var last := regions[|regions| - 1];
      var m := MaxUsableEnd(regions[..|regions| - 1]);
      if last.regionType == Usable && last.endAddr > m then last.endAddr else m
  }

  lemma {:induction false} UsableWithinExtremes(regions: seq<MemoryRegion>, k: nat)
    requires k < |regions| && regions[k].regionType == Usable
    ensures MinUsableStart(regions) <= regions[k].startAddr
    ensures regions[k].endAddr <= MaxUsableEnd(regions)
  {
    if k < |regions| - 1 {
      UsableWithinExtremes(regions[..|regions| - 1], k);
    }
  }

  class BitmapFrameAllocator {
    const baseAddr: nat
    const frameCount: nat
    var bitmap: seq<bool>

    ghost predicate Valid()
      reads this
    {
      State().Valid()
    }

    function State(): Frames
      reads this
    {
      Frames(baseAddr, frameCount, bitmap)
    }

    constructor FromParts(baseAddr: nat, frameCount: nat, bitmap: seq<bool>)
      requires |bitmap| == frameCount && baseAddr % PAGE_SIZE == 0
      ensures Valid() && State() == Frames(baseAddr, frameCount, bitmap)
    {
      this.baseAddr := baseAddr;
      this.frameCount := frameCount;
      this.bitmap := bitmap;
    }

    /** `allocate_frame`: the `find` over the bitmap, written as the loop it is. */
    method AllocateFrame() returns (frame: Option<nat>)
      requires Valid()
      modifies this`bitmap
      ensures Valid()
      ensures (State(), frame) == AllocateSpec(old(State()))
    {
      var i := 0;
      while i < |bitmap| && bitmap[i]
        invariant 0 <= i <= |bitmap|
        invariant forall j :: 0 <= j < i ==> bitmap[j]
      {
        i := i + 1;
      }
      if i < |bitmap| {
        assert FirstFree(bitmap, 0) == Some(i) by { FirstFreeIs(bitmap, 0, i); }
        bitmap := bitmap[i := true];
        frame := Some(baseAddr + i * PAGE_SIZE);
      } else {
        assert FirstFree(bitmap, 0) == None by { FirstFreeNone(bitmap, 0); }
        frame := None;
      }
    }

    /** `deallocate_frame`: `ok` is false where the source reaches `todo!` (a frame outside the bitmap). */
    method DeallocateFrame(frame: nat) returns (ok: bool)
      requires Valid()
      modifies this`bitmap
      ensures Valid()
      ensures ok == DeallocateSpec(old(State()), frame).Some?
      ensures ok ==> State() == DeallocateSpec(old(State()), frame).value
      ensures !ok ==> bitmap == old(bitmap)
    {
      var idx := FrameAsIndex(State(), frame);
      if idx.Some? {
        bitmap := bitmap[idx.value := false];
        ok := true;
      } else {
        ok := false;
      }
    }
  }

  lemma {:induction false} FirstFreeIs(bitmap: seq<bool>, from: nat, i: nat)
    requires from <= i < |bitmap| && !bitmap[i] && forall j :: from <= j < i ==> bitmap[j]
    ensures FirstFree(bitmap, from) == Some(i)
    decreases i - from
  {
    if from < i {
      FirstFreeIs(bitmap, from + 1, i);
    }
  }

  lemma {:induction false} FirstFreeNone(bitmap: seq<bool>, from: nat)
    requires forall j :: from <= j < |bitmap| ==> bitmap[j]
    ensures FirstFree(bitmap, from) == None
    decreases |bitmap| - from
  {
    if from < |bitmap| {
      FirstFreeNone(bitmap, from + 1);
    }
  }

  /** The first loop of `init`: the lowest usable start and highest usable end. */
  method UsableExtremes(memoryMap: seq<MemoryRegion>) returns (minAddr: nat, maxAddr: nat)
    ensures minAddr == MinUsableStart(memoryMap) && maxAddr == MaxUsableEnd(memoryMap)
  {
    minAddr := U64_MAX;
    maxAddr := 0;
    var k := 0;
    while k < |memoryMap|
      invariant 0 <= k <= |memoryMap|
      invariant minAddr == MinUsableStart(memoryMap[..k])
      invariant maxAddr == MaxUsableEnd(memoryMap[..k])
    {
      assert memoryMap[..k + 1][..k] == memoryMap[..k];
      var region := memoryMap[k];
      if region.regionType == Usable && region.startAddr < minAddr {
        minAddr := region.startAddr;
      }
      if region.regionType == Usable && region.endAddr > maxAddr {
        maxAddr := region.endAddr;
      }
      k := k + 1;
    }
    assert memoryMap[..|memoryMap|] == memoryMap;
  }

  /** The inner loop of `init`: mark every frame of one usable region free. */
  method MarkRegionFree(bitmap: seq<bool>, base: nat, region: MemoryRegion) returns (marked: seq<bool>)
    requires region.regionType == Usable && base % PAGE_SIZE == 0
    requires base <= AlignDown(region.startAddr) && AlignUp(region.endAddr) <= base + |bitmap| * PAGE_SIZE
    ensures |marked| == |bitmap|
    ensures forall i :: 0 <= i < |bitmap| ==>
      (marked[i] <==> bitmap[i] && !MarksFrame(region, base + i * PAGE_SIZE))
  {
    var startFrame := AlignDown(region.startAddr);
    var endFrame := AlignUp(region.endAddr);
    marked := bitmap;
    var addr := startFrame;
    while addr < endFrame
      invariant startFrame <= addr && addr % PAGE_SIZE == 0
      invariant addr < endFrame ==> addr + PAGE_SIZE <= endFrame
      invariant addr == startFrame || addr <= endFrame
      invariant |marked| == |bitmap|
      invariant forall i :: 0 <= i < |bitmap| ==>
        (marked[i] <==> bitmap[i] && !(startFrame <= base + i * PAGE_SIZE < addr))
      decreases endFrame - addr
    {
      var frame := (addr - base) / PAGE_SIZE;
      assert base + frame * PAGE_SIZE == addr;
      marked := marked[frame := false];
      addr := addr + PAGE_SIZE;
    }
  }

  /**
   * `BitmapFrameAllocator::init`. None stands for the panic of the subtraction
   * `max_frame_addr - min_frame_addr` when it would go below zero, which is what happens
   * when the map has no usable region (min stays `u64::MAX`, max stays 0).
   */
  method InitBitmapFrameAllocator(memoryMap: seq<MemoryRegion>) returns (r: Option<BitmapFrameAllocator>)
    ensures r.None? <==> AlignUp(MaxUsableEnd(memoryMap)) < AlignDown(MinUsableStart(memoryMap))
    ensures r.None? ==> forall k :: 0 <= k < |memoryMap| ==>
                          (memoryMap[k].regionType != Usable || memoryMap[k].endAddr < AlignDown(memoryMap[k].startAddr))
    ensures r.Some? ==> fresh(r.value) && r.value.Valid()
    ensures r.Some? ==> r.value.baseAddr == AlignDown(MinUsableStart(memoryMap))
    ensures r.Some? ==> r.value.frameCount * PAGE_SIZE == AlignUp(MaxUsableEnd(memoryMap)) - r.value.baseAddr
    ensures r.Some? ==> forall i :: 0 <= i < r.value.frameCount ==>
      (r.value.bitmap[i] <==> !Covered(memoryMap, IndexAsFrame(r.value.State(), i)))
  {
    var minAddr, maxAddr := UsableExtremes(memoryMap);
    var minFrameAddr := AlignDown(minAddr);
    var maxFrameAddr := AlignUp(maxAddr);
    if maxFrameAddr < minFrameAddr {
      forall k | 0 <= k < |memoryMap| && memoryMap[k].regionType == Usable
        ensures memoryMap[k].endAddr < AlignDown(memoryMap[k].startAddr)
      {
        UsableWithinExtremes(memoryMap, k);
        ExtremesAligned(memoryMap[k], minAddr, maxAddr);
      }
      return None;
    }
    var frameCount := (maxFrameAddr - minFrameAddr) / PAGE_SIZE;
    assert frameCount * PAGE_SIZE == maxFrameAddr - minFrameAddr;
    var bitmap := seq(frameCount, _ => true);

    var k := 0;
    while k < |memoryMap|
      invariant 0 <= k <= |memoryMap|
      invariant |bitmap| == frameCount
      invariant forall i :: 0 <= i < frameCount ==>
        (bitmap[i] <==> !Covered(memoryMap[..k], minFrameAddr + i * PAGE_SIZE))
    {
      var region := memoryMap[k];
      if region.regionType == Usable {
        UsableWithinExtremes(memoryMap, k);
        ExtremesAligned(region, minAddr, maxAddr);
        bitmap := MarkRegionFree(bitmap, minFrameAddr, region);
      }
      forall i | 0 <= i < frameCount
        ensures bitmap[i] <==> !Covered(memoryMap[..k + 1], minFrameAddr + i * PAGE_SIZE)
      {
        CoveredExtend(memoryMap, k, minFrameAddr + i * PAGE_SIZE);
      }
      k := k + 1;
    }
    assert memoryMap[..|memoryMap|] == memoryMap;
    var a := new BitmapFrameAllocator.FromParts(minFrameAddr, frameCount, bitmap);
    r := Some(a);
  }

  /** A usable region inside `[minAddr, maxAddr]` keeps its frames inside the aligned span. */
  lemma ExtremesAligned(region: MemoryRegion, minAddr: nat, maxAddr: nat)
    requires minAddr <= region.startAddr && region.endAddr <= maxAddr
    ensures AlignDown(minAddr) <= AlignDown(region.startAddr)
    ensures AlignUp(region.endAddr) <= AlignUp(maxAddr)
  {
  }

  lemma CoveredExtend(regions: seq<MemoryRegion>, k: nat, f: nat)
    requires k < |regions|
    ensures Covered(regions[..k + 1], f) <==> Covered(regions[..k], f) || MarksFrame(regions[k], f)
  {
    if Covered(regions[..k + 1], f) {
      var j :| 0 <= j < k + 1 && MarksFrame(regions[..k + 1][j], f);
      if j < k {
        assert regions[..k][j] == regions[..k + 1][j];
      }
    }
    if Covered(regions[..k], f) {
      var j :| 0 <= j < k && MarksFrame(regions[..k][j], f);
      assert regions[..k + 1][j] == regions[..k][j];
    }
    if MarksFrame(regions[k], f) {
      assert regions[..k + 1][k] == regions[k];
    }
  }
}
