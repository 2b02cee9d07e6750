/**
 * What the two revisions of the fixed-size-block heap share
 * (kernel/src/allocator/fixed_size_block.rs and src/allocator/fixed_size_block.rs):
 * the nine size classes, the choice of class for a layout, and the free lists with their
 * capped push counters.
 *
 * A free list is intrusive in the source (each free block stores the address of the next);
 * here it is the sequence of block addresses from the head on.
 */
module SizeClass {
  import opened Common

  const BLOCK_SIZES: seq<nat> := [8, 16, 32, 64, 128, 256, 512, 1024, 2048]
  const CLASS_COUNT: nat := 9
  const MAX_LIST_LENGTH: nat := 4096

  /** `BLOCK_SIZES.iter().position(|&s| s >= required)`, scanning from `from`. */
  function PositionFrom(required: nat, from: nat): (r: Option<nat>)
    requires from <= |BLOCK_SIZES|
    ensures r.Some? ==> from <= r.value < |BLOCK_SIZES| && BLOCK_SIZES[r.value] >= required
                        && forall j :: from <= j < r.value ==> BLOCK_SIZES[j] < required
    ensures r.None? ==> forall j :: from <= j < |BLOCK_SIZES| ==> BLOCK_SIZES[j] < required
    decreases |BLOCK_SIZES| - from
  {
    if from == |BLOCK_SIZES| then None
    else if BLOCK_SIZES[from] >= required then Some(from)
    else PositionFrom(required, from + 1)
  }

  /**
   * `list_index`: the smallest class whose block size is at least max(size, align);
   * None exactly when that maximum is above 2048.
   */
  function ListIndex(size: nat, align: nat): (r: Option<nat>)
    ensures r.None? <==> Max(size, align) > 2048
    ensures r.Some? ==> r.value < CLASS_COUNT && BLOCK_SIZES[r.value] >= Max(size, align)
                        && (r.value == 0 || BLOCK_SIZES[r.value - 1] < Max(size, align))
  {
    PositionFrom(Max(size, align), 0)
  }

  /** Every block size is a power of two from 8 to 2048, so it holds a list node and divides a page. */
  lemma BlockSizesDividePage(i: nat)
    requires i < CLASS_COUNT
    ensures 8 <= BLOCK_SIZES[i] <= 2048 && PAGE_SIZE % BLOCK_SIZES[i] == 0
    ensures PAGE_SIZE / BLOCK_SIZES[i] >= 2
  {
  }

  /**
   * The list left by pushing the blocks `p + k * b` for k = lo, lo + 1, ..., hi - 1, in
   * that order, onto an empty list: the last one pushed is the head.
   */
  function Carved(p: nat, b: nat, lo: nat, hi: nat): seq<nat>
    decreases hi - lo
  {
    if hi <= lo then [] else [p + (hi - 1) * b] + Carved(p, b, lo, hi - 1)
  }

  /** Position k of the carved list holds block number hi - 1 - k. */
  lemma {:induction false} CarvedAt(p: nat, b: nat, lo: nat, hi: nat)
    requires lo <= hi
    ensures |Carved(p, b, lo, hi)| == hi - lo
    ensures forall k :: 0 <= k < hi - lo ==> Carved(p, b, lo, hi)[k] == p + (hi - 1 - k) * b
    decreases hi - lo
  {
    if lo < hi {
      CarvedAt(p, b, lo, hi - 1);
    }
  }

  /**
   * The carved blocks lie in `[p + lo * b, p + hi * b)` and strictly decrease from the head,
   * so they are pairwise distinct, and none is `p` itself when carving starts at block 1.
   */
  lemma CarvedBlocks(p: nat, b: nat, lo: nat, hi: nat)
    requires lo <= hi && b > 0
    ensures var c := Carved(p, b, lo, hi);
      |c| == hi - lo
      && (forall k :: 0 <= k < |c| ==> p + lo * b <= c[k] < p + hi * b)
      && (forall k1, k2 :: 0 <= k1 < k2 < |c| ==> c[k1] > c[k2])
      && (lo >= 1 ==> p !in c)
  {
    CarvedAt(p, b, lo, hi);
    var c := Carved(p, b, lo, hi);
    forall k | 0 <= k < |c| ensures p + lo * b <= c[k] < p + hi * b {
      ScaleBounds(lo, hi - 1 - k, hi, b);
    }
    forall k1, k2 | 0 <= k1 < k2 < |c| ensures c[k1] > c[k2] {
      ScaleBounds(hi - 1 - k2, hi - 1 - k2, hi - 1 - k1, b);
    }
  }

  /** Multiplying by a positive block size keeps the order of block numbers. */
  lemma ScaleBounds(lo: nat, m: nat, hi: nat, b: nat)
    requires lo <= m < hi && b > 0
    ensures lo * b <= m * b < hi * b
  {
    assert m * b - lo * b == (m - lo) * b;
    assert hi * b - m * b == (hi - m) * b;
  }

  /** The free lists (head first) and their push counters, one per class. */
  datatype Lists = Lists(heads: seq<seq<nat>>, lengths: seq<nat>)
  {
    predicate Valid()
    {
      |heads| == CLASS_COUNT && |lengths| == CLASS_COUNT
    }
  }

  /** `FixedSizeBlockAllocator::new`: every list empty, every counter 0. */
  function EmptyLists(): (l: Lists)
    ensures l.Valid()
    ensures forall i :: 0 <= i < CLASS_COUNT ==> l.heads[i] == [] && l.lengths[i] == 0
  {
    Lists(seq(CLASS_COUNT, _ => []), seq(CLASS_COUNT, _ => 0))
  }

  /** The pop of `alloc` on a non-empty class: the head goes to the caller, its successor becomes the head. */
  function Pop(l: Lists, i: nat): (Lists, nat)
    requires l.Valid() && i < CLASS_COUNT && l.heads[i] != []
  {
    (l.(heads := l.heads[i := l.heads[i][1..]]), l.heads[i][0])
  }

  /** The small-block branch of `dealloc`: push and count below the cap, otherwise leak the block. */
  function PushFree(l: Lists, i: nat, ptr: nat): Lists
    requires l.Valid() && i < CLASS_COUNT
  {
    if l.lengths[i] < MAX_LIST_LENGTH then
      Lists(l.heads[i := [ptr] + l.heads[i]], l.lengths[i := l.lengths[i] + 1])
    else l
  }

  /** Pop changes only class i's list: it loses its head; no counter moves. */
  lemma PopTakesHead(l: Lists, i: nat)
    requires l.Valid() && i < CLASS_COUNT && l.heads[i] != []
    ensures var (l', ptr) := Pop(l, i);
      l'.Valid() && ptr == l.heads[i][0] && l.heads[i] == [ptr] + l'.heads[i]
      && l'.lengths == l.lengths
      && forall j :: 0 <= j < CLASS_COUNT && j != i ==> l'.heads[j] == l.heads[j]
  {
  }

  /**
   * Below the cap a freed block becomes the head of its class and the counter grows by
   * exactly one; at the cap nothing changes and the block is leaked. Other classes never change.
   */
  lemma PushFreeRule(l: Lists, i: nat, ptr: nat)
    requires l.Valid() && i < CLASS_COUNT
    ensures var l' := PushFree(l, i, ptr);
      l'.Valid()
      && (l.lengths[i] < MAX_LIST_LENGTH ==> l'.heads[i] == [ptr] + l.heads[i] && l'.lengths[i] == l.lengths[i] + 1)
      && (l.lengths[i] >= MAX_LIST_LENGTH ==> l' == l)
      && forall j :: 0 <= j < CLASS_COUNT && j != i ==> l'.heads[j] == l.heads[j] && l'.lengths[j] == l.lengths[j]
  {
  }

  /** Freeing a block below the cap and allocating from the same class hands the block back and restores the list. */
  lemma PushThenPop(l: Lists, i: nat, ptr: nat)
    requires l.Valid() && i < CLASS_COUNT && l.lengths[i] < MAX_LIST_LENGTH
    ensures PushFree(l, i, ptr).heads[i] != []
    ensures Pop(PushFree(l, i, ptr), i) == (l.(lengths := l.lengths[i := l.lengths[i] + 1]), ptr)
  {
    var l' := PushFree(l, i, ptr);
    assert l'.heads[i := l'.heads[i][1..]] == l.heads;
  }

  /** No counter ever passes the cap: `PushFree` is the only operation that raises one. */
  lemma {:induction false} PushFreeKeepsCap(l: Lists, i: nat, ptr: nat)
    requires l.Valid() && i < CLASS_COUNT
    requires forall j :: 0 <= j < CLASS_COUNT ==> l.lengths[j] <= MAX_LIST_LENGTH
    ensures forall j :: 0 <= j < CLASS_COUNT ==> PushFree(l, i, ptr).lengths[j] <= MAX_LIST_LENGTH
  {
    if l.lengths[i] < MAX_LIST_LENGTH {
      assert PushFree(l, i, ptr).lengths == l.lengths[i := l.lengths[i] + 1];
    }
  }
}
