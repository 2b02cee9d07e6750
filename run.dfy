/**
 * A slab run (src/allocators/run.rs): `num_objects` slots of `object_size` bytes from
 * `start`, a four-word free bitmap (bit set = slot free) and a free count.
 *
 * `Run::new` and `Run::contains` are modelled as written. `Run::alloc` and `Run::dealloc`
 * have `unimplemented!()` bodies; what is modelled of them is the sequence of steps their
 * doc comments describe: find a free bit, mark it allocated, return `start + index *
 * object_size`; and back from a pointer, index `(ptr - start) / object_size`, mark it
 * free, increment `free_count`. `AllocAsDocumented` follows the alloc comment to the
 * letter (any free bit, no count change); `Alloc` searches only the run's own slots and
 * decrements the count, which is what `dealloc` needs to undo it.
 */
module SlabRun {
  import opened Common
  import M = Metadata

  /** `free_bitmap: [u64; 4]`. */
  const BITMAP_WORDS: nat := 4
  /** The number of slots the bitmap can track. */
  const BITMAP_BITS: nat := 256
  const ALL_FREE: bv64 := 0xFFFF_FFFF_FFFF_FFFF

  datatype Run = Run(start: nat, objectSize: nat, numObjects: nat, freeBitmap: seq<bv64>, freeCount: nat)

  /** `Run::new`: the whole bitmap marked free and `free_count = num_objects`. */
  function New(start: nat, objectSize: nat, numObjects: nat): (r: Run)
    ensures r.start == start && r.objectSize == objectSize && r.numObjects == numObjects
    ensures |r.freeBitmap| == BITMAP_WORDS
  {
    Run(start, objectSize, numObjects, [ALL_FREE, ALL_FREE, ALL_FREE, ALL_FREE], numObjects)
  }

  /** `Run::contains`: the pointer lies in `[start, start + num_objects * object_size)`. */
  function Contains(run: Run, ptr: nat): bool
  {
    ptr >= run.start && ptr < run.start + run.numObjects * run.objectSize
  }

  /** The address of slot `i`: `start + i * object_size` (step 3 of `alloc`). */
  function SlotAddress(run: Run, i: nat): nat
  {
    run.start + i * run.objectSize
  }

  /** The slot a pointer of the run falls in: `(ptr - start) / object_size` (step 1 of `dealloc`). */
  function SlotIndex(run: Run, ptr: nat): (i: nat)
    requires Contains(run, ptr)
    ensures i < run.numObjects
    ensures SlotAddress(run, i) <= ptr < SlotAddress(run, i) + run.objectSize
  {
    var d := ptr - run.start;
    DivBounds(d, run.objectSize);
    QuotientBelow(d, run.objectSize, run.numObjects);
    d / run.objectSize
  }

  /** The number of slots the bitmap tracks: `num_objects`, but never more than 256. */
  function Tracked(run: Run): (n: nat)
    ensures n <= BITMAP_BITS && n <= run.numObjects
    ensures n == run.numObjects || n == BITMAP_BITS
  {
    if run.numObjects < BITMAP_BITS then run.numObjects else BITMAP_BITS
  }

  lemma MulMono(a: nat, b: nat, s: nat)
    requires a <= b
    ensures a * s <= b * s
  {
  }

  lemma DivBounds(d: nat, s: nat)
    requires s > 0
    ensures (d / s) * s <= d < (d / s) * s + s
  {
    assert d == (d / s) * s + d % s;
  }

  lemma QuotientBelow(d: nat, s: nat, n: nat)
    requires s > 0 && d < n * s
    ensures d / s < n
  {
    DivBounds(d, s);
    if d / s >= n {
      MulMono(n, d / s, s);
    }
  }

  lemma MulDivCancel(i: nat, s: nat)
    requires s > 0
    ensures (i * s) / s == i
  {
    var q := (i * s) / s;
    DivBounds(i * s, s);
    if q > i {
      MulMono(i + 1, q, s);
    } else if q < i {
      MulMono(q + 1, i, s);
    }
  }

  /**
   * `contains` holds exactly for the bytes of the run's slots: a pointer is in the run iff
   * it lies in slot `i` for some `i < num_objects`.
   */
  lemma ContainsIffInSlot(run: Run, ptr: nat)
    ensures Contains(run, ptr) <==>
      exists i: nat :: i < run.numObjects && SlotAddress(run, i) <= ptr < SlotAddress(run, i) + run.objectSize
  {
    if Contains(run, ptr) {
      var i := SlotIndex(run, ptr);
      assert i < run.numObjects && SlotAddress(run, i) <= ptr < SlotAddress(run, i) + run.objectSize;
    }
    if exists i: nat :: i < run.numObjects && SlotAddress(run, i) <= ptr < SlotAddress(run, i) + run.objectSize {
      var i: nat :| i < run.numObjects && SlotAddress(run, i) <= ptr < SlotAddress(run, i) + run.objectSize;
      InSlotInRun(run, i, ptr);
    }
  }

  lemma InSlotInRun(run: Run, i: nat, ptr: nat)
    requires i < run.numObjects && SlotAddress(run, i) <= ptr < SlotAddress(run, i) + run.objectSize
    ensures Contains(run, ptr)
  {
    MulMono(i + 1, run.numObjects, run.objectSize);
    assert SlotAddress(run, i) + run.objectSize == run.start + (i + 1) * run.objectSize;
  }

  /** Slot address and slot index are inverse: slot `i`'s address is in the run and maps back to `i`. */
  lemma SlotRoundTrip(run: Run, i: nat)
    requires i < run.numObjects && run.objectSize > 0
    ensures Contains(run, SlotAddress(run, i))
    ensures SlotIndex(run, SlotAddress(run, i)) == i
  {
    MulMono(i + 1, run.numObjects, run.objectSize);
    assert SlotAddress(run, i) - run.start == i * run.objectSize;
    MulDivCancel(i, run.objectSize);
  }

  /** A pointer maps back to itself through its slot index iff it is the start of its slot. */
  lemma IndexRoundTrip(run: Run, ptr: nat)
    requires Contains(run, ptr)
    ensures SlotAddress(run, SlotIndex(run, ptr)) == ptr <==> (ptr - run.start) % run.objectSize == 0
  {
    var d := ptr - run.start;
    assert d == (d / run.objectSize) * run.objectSize + d % run.objectSize;
  }

  /** How many of `bits[lo..hi]` are set. */
  function CountFree(bits: seq<bool>, lo: nat, hi: nat): (n: nat)
    requires hi <= |bits|
    ensures n <= hi - lo || lo > hi
    decreases hi - lo
  {
    if lo >= hi then 0 else (if bits[lo] then 1 else 0) + CountFree(bits, lo + 1, hi)
  }

  lemma {:induction false} CountAllFree(bits: seq<bool>, lo: nat, hi: nat)
    requires lo <= hi <= |bits|
    requires forall j :: lo <= j < hi ==> bits[j]
    ensures CountFree(bits, lo, hi) == hi - lo
    decreases hi - lo
  {
    if lo < hi {
      CountAllFree(bits, lo + 1, hi);
    }
  }

  /** Marking a free slot allocated lowers the count by one. */
  lemma {:induction false} CountTake(bits: seq<bool>, i: nat, lo: nat, hi: nat)
    requires lo <= i < hi <= |bits| && bits[i]
    ensures CountFree(bits[i := false], lo, hi) + 1 == CountFree(bits, lo, hi)
    decreases hi - lo
  {
    if lo < i {
      CountTake(bits, i, lo + 1, hi);
    } else {
      CountSame(bits, i, lo + 1, hi, false);
    }
  }

  /** Marking an allocated slot free raises the count by one. */
  lemma {:induction false} CountGive(bits: seq<bool>, i: nat, lo: nat, hi: nat)
    requires lo <= i < hi <= |bits| && !bits[i]
    ensures CountFree(bits[i := true], lo, hi) == CountFree(bits, lo, hi) + 1
    decreases hi - lo
  {
    if lo < i {
      CountGive(bits, i, lo + 1, hi);
    } else {
      CountSame(bits, i, lo + 1, hi, true);
    }
  }

  /** Changing a slot outside the counted range leaves the count alone. */
  lemma {:induction false} CountSame(bits: seq<bool>, i: nat, lo: nat, hi: nat, b: bool)
    requires hi <= |bits| && i < |bits| && (i < lo || i >= hi)
    ensures CountFree(bits[i := b], lo, hi) == CountFree(bits, lo, hi)
    decreases hi - lo
  {
    if lo < hi {
      CountSame(bits, i, lo + 1, hi, b);
    }
  }

  /** The first set bit of `bits[from..limit]`. */
  function FirstFree(bits: seq<bool>, from: nat, limit: nat): (r: Option<nat>)
    requires limit <= |bits|
    ensures r.Some? ==> from <= r.value < limit && bits[r.value]
    ensures r.Some? ==> forall j :: from <= j < r.value ==> !bits[j]
    ensures r.None? ==> forall j :: from <= j < limit ==> !bits[j]
    decreases limit - from
  {
    if from >= limit then None
    else if bits[from] then Some(from)
    else FirstFree(bits, from + 1, limit)
  }

  /** The free count agrees with the free bits of the tracked slots. */
  predicate Consistent(run: Run)
  {
    |run.freeBitmap| == BITMAP_WORDS &&
    run.freeCount == CountFree(M.Bits(run.freeBitmap), 0, Tracked(run))
  }

  lemma AllFreeWord(k: bv7)
    requires k < 64
    ensures M.WordBit(ALL_FREE, k)
  {
  }

  /**
   * A new run has all 256 bits free (index 256 is out of the bitmap's bounds) and
   * `free_count == num_objects`; the count agrees with the bitmap iff the run has at most
   * 256 slots.
   */
  lemma NewAllFree(start: nat, objectSize: nat, numObjects: nat, i: nat)
    ensures M.IsBitSet(New(start, objectSize, numObjects).freeBitmap, i) ==
      (if i < BITMAP_BITS then Return(true) else Panic(M.OUT_OF_BOUNDS))
    ensures New(start, objectSize, numObjects).freeCount == numObjects
    ensures Consistent(New(start, objectSize, numObjects)) <==> numObjects <= BITMAP_BITS
  {
    var run := New(start, objectSize, numObjects);
    var bits := M.Bits(run.freeBitmap);
    forall j | 0 <= j < BITMAP_BITS
      ensures bits[j]
    {
      M.BitsAt(run.freeBitmap, j);
      assert run.freeBitmap[j / 64] == ALL_FREE;
      AllFreeWord(M.BitPos(j));
    }
    if i < BITMAP_BITS {
      M.IsBitSetBits(run.freeBitmap, i);
    }
    CountAllFree(bits, 0, Tracked(run));
  }

  /** The lowest set bit is the one `FirstFree` finds. */
  lemma {:induction false} FirstFreeIs(bits: seq<bool>, from: nat, limit: nat, i: nat)
    requires from <= i < limit <= |bits| && bits[i]
    requires forall j :: from <= j < i ==> !bits[j]
    ensures FirstFree(bits, from, limit) == Some(i)
    decreases i - from
  {
    if from < i {
      FirstFreeIs(bits, from + 1, limit, i);
    }
  }

  /**
   * `Run::alloc` as its comments describe it: the lowest free bit anywhere in
   * `free_bitmap` is marked allocated and `start + index * object_size` returned.
   * `free_count` is left as it was.
   */
  function AllocAsDocumented(run: Run): (Run, Option<nat>)
    requires |run.freeBitmap| == BITMAP_WORDS
  {
    match FirstFree(M.Bits(run.freeBitmap), 0, BITMAP_BITS)
    case None => (run, None)
    case Some(i) => (run.(freeBitmap := M.ClearBitWords(run.freeBitmap, i)), Some(SlotAddress(run, i)))
  }

  /**
   * `Run::alloc` corrected: the search stops at the run's own slots (and the bitmap's
   * 256 bits), and `free_count` goes down with the bit, never below zero.
   */
  function Alloc(run: Run): (Run, Option<nat>)
    requires |run.freeBitmap| == BITMAP_WORDS
  {
    match FirstFree(M.Bits(run.freeBitmap), 0, Tracked(run))
    case None => (run, None)
    case Some(i) =>
      (run.(freeBitmap := M.ClearBitWords(run.freeBitmap, i), freeCount := if run.freeCount > 0 then run.freeCount - 1 else 0),
       Some(SlotAddress(run, i)))
  }

  /** `Run::dealloc` as its comments describe it; a slot past the bitmap is `set_bit`'s panic. */
  function Dealloc(run: Run, ptr: nat): (r: Outcome<Run>)
    requires Contains(run, ptr) && |run.freeBitmap| == BITMAP_WORDS
    ensures r.Panic? <==> SlotIndex(run, ptr) >= BITMAP_BITS
  {
    var i := SlotIndex(run, ptr);
    if i >= BITMAP_BITS then Panic(M.OUT_OF_BOUNDS)
    else Return(run.(freeBitmap := M.SetBitWords(run.freeBitmap, i), freeCount := run.freeCount + 1))
  }

  /**
   * `Alloc` hands out the lowest free slot of the run, for any run: its address is in the
   * run, its bit goes from free to allocated and no other bit changes. When it finds none,
   * none of the run's slots (up to 256) was free and the run is unchanged. The count drops
   * by one unless it was already 0; on a consistent run it always drops, stays consistent,
   * and is 0 exactly when nothing is found.
   */
  lemma AllocTakesLowestFreeSlot(run: Run)
    requires |run.freeBitmap| == BITMAP_WORDS
    ensures var (run', p) := Alloc(run);
      |run'.freeBitmap| == BITMAP_WORDS && run'.start == run.start && run'.objectSize == run.objectSize &&
      run'.numObjects == run.numObjects &&
      (Consistent(run) ==> Consistent(run')) &&
      match p
      case None =>
        run' == run && (Consistent(run) ==> run.freeCount == 0) &&
        forall j :: 0 <= j < Tracked(run) ==> !M.Bits(run.freeBitmap)[j]
      case Some(ptr) =>
        exists i :: 0 <= i < Tracked(run) && ptr == SlotAddress(run, i) &&
          M.Bits(run.freeBitmap)[i] && (run.objectSize > 0 ==> Contains(run, ptr)) &&
          (forall j :: 0 <= j < i ==> !M.Bits(run.freeBitmap)[j]) &&
          M.Bits(run'.freeBitmap) == M.Bits(run.freeBitmap)[i := false] &&
          (run'.freeCount + 1 == run.freeCount || run'.freeCount == run.freeCount == 0) &&
          (Consistent(run) ==> run'.freeCount + 1 == run.freeCount)
  {
    var bits := M.Bits(run.freeBitmap);
    match FirstFree(bits, 0, Tracked(run))
    case None =>
      CountNone(bits, 0, Tracked(run));
    case Some(i) =>
      CountTake(bits, i, 0, Tracked(run));
      M.ClearBitBits(run.freeBitmap, i);
      if run.objectSize > 0 {
        SlotRoundTrip(run, i);
      }
  }

  lemma {:induction false} CountNone(bits: seq<bool>, lo: nat, hi: nat)
    requires hi <= |bits|
    requires forall j :: lo <= j < hi ==> !bits[j]
    ensures CountFree(bits, lo, hi) == 0
    decreases hi - lo
  {
    if lo < hi {
      CountNone(bits, lo + 1, hi);
    }
  }

  /**
   * Freeing the slot `Alloc` just handed out gives back the run as it was: exactly, when
   * its count was not 0 (always so for a consistent run); otherwise with a count of 1.
   */
  lemma AllocThenDealloc(run: Run)
    requires |run.freeBitmap| == BITMAP_WORDS && run.objectSize > 0
    requires Alloc(run).1.Some?
    ensures Contains(Alloc(run).0, Alloc(run).1.value)
    ensures Dealloc(Alloc(run).0, Alloc(run).1.value) == Return(if run.freeCount > 0 then run else run.(freeCount := 1))
    ensures Consistent(run) ==> Dealloc(Alloc(run).0, Alloc(run).1.value) == Return(run)
  {
    var bits := M.Bits(run.freeBitmap);
    var i := FirstFree(bits, 0, Tracked(run)).value;
    var (run', ptr) := Alloc(run);
    SlotRoundTrip(run, i);
    assert ptr == Some(SlotAddress(run', i));
    SlotRoundTrip(run', i);
    ClearThenSet(run.freeBitmap, i);
    if Consistent(run) {
      CountTake(bits, i, 0, Tracked(run));
    }
  }

  /** Setting a bit just cleared, when it was set before, restores the words. */
  lemma ClearThenSet(bitmap: seq<bv64>, i: nat)
    requires i < 64 * |bitmap| && M.Bits(bitmap)[i]
    ensures M.SetBitWords(M.ClearBitWords(bitmap, i), i) == bitmap
  {
    M.BitsAt(bitmap, i);
    RestoreWord(bitmap[i / 64], M.BitPos(i));
  }

  lemma RestoreWord(w: bv64, k: bv7)
    requires k < 64 && M.WordBit(w, k)
    ensures M.WithBit(M.WithoutBit(w, k), k) == w
  {
  }

  /**
   * Following the comments as written, while one of the run's own slots is free, an
   * alloc/dealloc pair of the same slot leaves `free_count` one higher than before, so a
   * consistent run stops being consistent.
   */
  lemma AllocAsDocumentedDrifts(run: Run)
    requires Consistent(run) && run.objectSize > 0
    requires FirstFree(M.Bits(run.freeBitmap), 0, Tracked(run)).Some?
    ensures AllocAsDocumented(run).1.Some?
    ensures Contains(AllocAsDocumented(run).0, AllocAsDocumented(run).1.value)
    ensures var after := Dealloc(AllocAsDocumented(run).0, AllocAsDocumented(run).1.value);
      after.Return? && after.value.freeCount == run.freeCount + 1 && !Consistent(after.value)
  {
    var bits := M.Bits(run.freeBitmap);
    var i := FirstFree(bits, 0, Tracked(run)).value;
    FirstFreeIs(bits, 0, BITMAP_BITS, i);
    var (run', ptr) := AllocAsDocumented(run);
    SlotRoundTrip(run, i);
    assert ptr == Some(SlotAddress(run', i));
    SlotRoundTrip(run', i);
    ClearThenSet(run.freeBitmap, i);
  }

  /**
   * Following the comments as written, once the run's own slots are all taken, a free bit
   * past `num_objects` (which `Run::new` leaves set for every run of fewer than 256 slots)
   * is handed out, and its address lies outside the run.
   */
  lemma AllocAsDocumentedLeavesRun(run: Run)
    requires |run.freeBitmap| == BITMAP_WORDS && run.objectSize > 0
    requires FirstFree(M.Bits(run.freeBitmap), 0, Tracked(run)).None?
    requires FirstFree(M.Bits(run.freeBitmap), 0, BITMAP_BITS).Some?
    ensures AllocAsDocumented(run).1.Some? && !Contains(run, AllocAsDocumented(run).1.value)
    ensures Alloc(run).1.None?
  {
    var i := FirstFree(M.Bits(run.freeBitmap), 0, BITMAP_BITS).value;
    assert i >= Tracked(run);
    assert i >= run.numObjects;
    MulMono(run.numObjects, i, run.objectSize);
  }

  lemma ZeroWord(k: bv7)
    requires k < 64
    ensures !M.WordBit(0, k)
  {
  }

  /**
   * A run of 128 objects of 32 bytes (one 4 KiB page) with all 128 slots taken: the
   * documented alloc returns `start + 4096`, the first byte past the run, where the
   * corrected one returns nothing.
   */
  lemma AllocAsDocumentedExample(start: nat)
    ensures var run := Run(start, 32, 128, [0, 0, ALL_FREE, ALL_FREE], 0);
      AllocAsDocumented(run).1 == Some(start + 4096) && !Contains(run, start + 4096)
      && Alloc(run).1.None?
  {
    var run := Run(start, 32, 128, [0, 0, ALL_FREE, ALL_FREE], 0);
    var bits := M.Bits(run.freeBitmap);
    forall j | 0 <= j < 128
      ensures !bits[j]
    {
      M.BitsAt(run.freeBitmap, j);
      ZeroWord(M.BitPos(j));
    }
    M.BitsAt(run.freeBitmap, 128);
    AllFreeWord(M.BitPos(128));
    FirstFreeIs(bits, 0, BITMAP_BITS, 128);
  }

  /**
   * Freeing an allocated tracked slot keeps the count consistent; freeing a slot that is
   * already free (a double free) breaks it.
   */
  lemma DeallocKeepsConsistent(run: Run, ptr: nat)
    requires Consistent(run) && Contains(run, ptr)
    requires Dealloc(run, ptr).Return?
    ensures var i := SlotIndex(run, ptr);
      Consistent(Dealloc(run, ptr).value) <==> !M.Bits(run.freeBitmap)[i]
  {
    var i := SlotIndex(run, ptr);
    var bits := M.Bits(run.freeBitmap);
    M.SetBitBits(run.freeBitmap, i);
    if !bits[i] {
      CountGive(bits, i, 0, Tracked(run));
    } else {
      assert bits[i := true] == bits;
    }
  }
}
