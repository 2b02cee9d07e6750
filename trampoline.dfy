/**
 * The AP trampoline page (kernel/src/smp/trampoline.rs): the BSP copies the real-mode
 * stub to physical 0x8000, patches a small control block at the start of the page, and
 * polls its communication word. Stacks for the APs come from `AP_STACKS` through the
 * `AP_STACK_INDEX` counter.
 *
 * The page is an array of 4096 bytes (seen through the physical-memory window); stores
 * of u64/u32 values are little-endian. CR3 and the address of `ap_startup` are parameters;
 * clock and commword reads in `wait_for_ap` are given as sequences of the values read.
 */
module Trampoline {
  import opened Common
  import Multicore

  /** A byte of memory (`u8`). */
  newtype Byte = x: int | 0 <= x < 256

  const TRAMPOLINE_BASE: nat := 0x8000
  const CR3VAL_OFFSET: nat := 0
  const KCODE_OFFSET: nat := 8
  const KSTACK_OFFSET: nat := 16
  const KGSVAL_OFFSET: nat := 24
  const COMMWORD_OFFSET: nat := 32
  /** Bytes of the control block: five fields of 8, 8, 8, 8 and 4 bytes. */
  const CONTROL_BLOCK_SIZE: nat := 36

  function Pow256(n: nat): (r: nat)
    ensures r >= 1
  {
    if n == 0 then 1 else 256 * Pow256(n - 1)
  }

  /** The `width` little-endian bytes of `v` (truncated to `width` bytes). */
  function LeBytes(v: nat, width: nat): (r: seq<Byte>)
    ensures |r| == width
  {
    if width == 0 then [] else [(v % 256) as Byte] + LeBytes(v / 256, width - 1)
  }

  /** The number a little-endian byte string denotes. */
  function LeValue(bs: seq<Byte>): nat
  {
    if bs == [] then 0 else bs[0] as nat + 256 * LeValue(bs[1..])
  }

  /** Reading back the bytes of a value that fits in the field gives the value. */
  lemma {:induction false} LeRoundTrip(v: nat, width: nat)
    requires v < Pow256(width)
    ensures LeValue(LeBytes(v, width)) == v
  {
    if width > 0 {
      var bs := LeBytes(v, width);
      QuotientFits(v, Pow256(width - 1));
      LeRoundTrip(v / 256, width - 1);
      assert bs[1..] == LeBytes(v / 256, width - 1);
      LowByte(v);
      assert LeValue(bs) == bs[0] as nat + 256 * LeValue(bs[1..]);
    }
  }

  lemma QuotientFits(v: nat, p: nat)
    requires v < 256 * p
    ensures v / 256 < p
  {
  }

  lemma LowByte(v: nat)
    ensures v == (v % 256) + 256 * (v / 256)
  {
  }

  /** A u64 or u32 store of `v` at `offset`: only the field's bytes change. */
  function Store(page: seq<Byte>, offset: nat, v: nat, width: nat): (r: seq<Byte>)
    requires offset + width <= |page|
    ensures |r| == |page|
    ensures r[offset..offset + width] == LeBytes(v, width)
    ensures forall i :: 0 <= i < |page| && !(offset <= i < offset + width) ==> r[i] == page[i]
  {
    page[..offset] + LeBytes(v, width) + page[offset + width..]
  }

  /** The five fields lie one after the other inside the first 36 bytes. */
  lemma FieldsDisjoint()
    ensures CR3VAL_OFFSET + 8 <= KCODE_OFFSET && KCODE_OFFSET + 8 <= KSTACK_OFFSET
    ensures KSTACK_OFFSET + 8 <= KGSVAL_OFFSET && KGSVAL_OFFSET + 8 <= COMMWORD_OFFSET
    ensures COMMWORD_OFFSET + 4 == CONTROL_BLOCK_SIZE
  {
  }

  /** `allocate_ap_stack`: the top of the `index`-th stack, or a panic past the last one. */
  function ApStackSpec(apStacks: nat, index: nat): Outcome<nat>
  {
    if index >= Multicore.NUM_AP_STACKS then Panic("Out of AP stacks!")
    else Return(apStacks + index * Multicore.AP_STACK_SIZE + Multicore.AP_STACK_SIZE)
  }

  /**
   * Each top returned is the end of its own 32 KiB stack inside `AP_STACKS`; two indices
   * give stacks that do not overlap.
   */
  lemma ApStacksDisjoint(apStacks: nat, i: nat, j: nat)
    requires ApStackSpec(apStacks, i).Return? && ApStackSpec(apStacks, j).Return? && i < j
    ensures var ti := ApStackSpec(apStacks, i).value;
      var tj := ApStackSpec(apStacks, j).value;
      apStacks + Multicore.AP_STACK_SIZE <= ti <= Multicore.ApStacksEnd(apStacks)
      && apStacks + Multicore.AP_STACK_SIZE <= tj <= Multicore.ApStacksEnd(apStacks)
      && ti <= tj - Multicore.AP_STACK_SIZE
  {
  }

  /** `patch_trampoline` on the page bytes, with the stack index it reads: the new bytes and the outcome. */
  function PatchSpec(page: seq<Byte>, apStacks: nat, index: nat, cr3: nat, apStartup: nat): (seq<Byte>, Outcome<()>)
    requires |page| == PAGE_SIZE
  {
    var p1 := Store(page, CR3VAL_OFFSET, cr3, 8);
    var p2 := Store(p1, KCODE_OFFSET, apStartup, 8);
    match ApStackSpec(apStacks, index)
    case Panic(reason) => (p2, Panic(reason))
    case Return(top) =>
      var p3 := Store(p2, KSTACK_OFFSET, top, 8);
      var p4 := Store(p3, KGSVAL_OFFSET, 0, 8);
      (Store(p4, COMMWORD_OFFSET, 0, 4), Return(()))
  }

  /** Bytes a later store leaves alone read the same. */
  lemma SliceKept(a: seq<Byte>, b: seq<Byte>, lo: nat, hi: nat)
    requires lo <= hi <= |a| == |b|
    requires forall i :: lo <= i < hi ==> a[i] == b[i]
    ensures a[lo..hi] == b[lo..hi]
  {
  }

  /** A store followed by a read of the same field gives the value back. */
  lemma StoreRead(page: seq<Byte>, offset: nat, v: nat, width: nat)
    requires offset + width <= |page| && v < Pow256(width)
    ensures LeValue(Store(page, offset, v, width)[offset..offset + width]) == v
  {
    LeRoundTrip(v, width);
  }

  /**
   * A completed patch leaves CR3 in all eight bytes 0..8 (not four), the `ap_startup`
   * address at 8, the stack top at 16, zero at 24 and a zero u32 at 32, and no other
   * byte changed. When no stack is left it panics after the first two stores, with bytes
   * 16 onwards untouched.
   */
  lemma PatchFields(page: seq<Byte>, apStacks: nat, index: nat, cr3: nat, apStartup: nat)
    requires |page| == PAGE_SIZE && cr3 <= U64_MAX && apStartup <= U64_MAX
    requires Multicore.ApStacksEnd(apStacks) <= U64_MAX
    ensures var (page', r) := PatchSpec(page, apStacks, index, cr3, apStartup);
      |page'| == PAGE_SIZE
      && LeValue(page'[CR3VAL_OFFSET..CR3VAL_OFFSET + 8]) == cr3
      && LeValue(page'[KCODE_OFFSET..KCODE_OFFSET + 8]) == apStartup
      && (r.Return? ==>
            LeValue(page'[KSTACK_OFFSET..KSTACK_OFFSET + 8]) == ApStackSpec(apStacks, index).value
            && LeValue(page'[KGSVAL_OFFSET..KGSVAL_OFFSET + 8]) == 0
            && LeValue(page'[COMMWORD_OFFSET..COMMWORD_OFFSET + 4]) == 0
            && page'[CONTROL_BLOCK_SIZE..] == page[CONTROL_BLOCK_SIZE..])
      && (r.Panic? ==> index >= Multicore.NUM_AP_STACKS && page'[KSTACK_OFFSET..] == page[KSTACK_OFFSET..])
  {
    HeadFields(page, cr3, apStartup);
    var p2 := Store(Store(page, CR3VAL_OFFSET, cr3, 8), KCODE_OFFSET, apStartup, 8);
    var (page', r) := PatchSpec(page, apStacks, index, cr3, apStartup);
    if r.Return? {
      TailFields(p2, ApStackSpec(apStacks, index).value);
      assert page'[CONTROL_BLOCK_SIZE..] == p2[CONTROL_BLOCK_SIZE..] == page[CONTROL_BLOCK_SIZE..] by {
        SliceKept(p2, page, CONTROL_BLOCK_SIZE, PAGE_SIZE);
      }
    } else {
      SliceKept(page', page, KSTACK_OFFSET, PAGE_SIZE);
    }
  }

  /** The two stores every patch makes: CR3 and `ap_startup`, nothing past byte 16. */
  lemma HeadFields(page: seq<Byte>, cr3: nat, apStartup: nat)
    requires |page| == PAGE_SIZE && cr3 <= U64_MAX && apStartup <= U64_MAX
    ensures var p2 := Store(Store(page, CR3VAL_OFFSET, cr3, 8), KCODE_OFFSET, apStartup, 8);
      LeValue(p2[CR3VAL_OFFSET..CR3VAL_OFFSET + 8]) == cr3
      && LeValue(p2[KCODE_OFFSET..KCODE_OFFSET + 8]) == apStartup
      && forall i :: KSTACK_OFFSET <= i < PAGE_SIZE ==> p2[i] == page[i]
  {
    assert Pow256(8) == U64_MAX + 1;
    var p1 := Store(page, CR3VAL_OFFSET, cr3, 8);
    var p2 := Store(p1, KCODE_OFFSET, apStartup, 8);
    StoreRead(page, CR3VAL_OFFSET, cr3, 8);
    StoreRead(p1, KCODE_OFFSET, apStartup, 8);
    SliceKept(p2, p1, 0, 8);
  }

  /** The three stores of a completed patch: stack top, GS base and the comm word. */
  lemma TailFields(p2: seq<Byte>, top: nat)
    requires |p2| == PAGE_SIZE && top <= U64_MAX
    ensures var p := Store(Store(Store(p2, KSTACK_OFFSET, top, 8), KGSVAL_OFFSET, 0, 8), COMMWORD_OFFSET, 0, 4);
      LeValue(p[KSTACK_OFFSET..KSTACK_OFFSET + 8]) == top
      && LeValue(p[KGSVAL_OFFSET..KGSVAL_OFFSET + 8]) == 0
      && LeValue(p[COMMWORD_OFFSET..COMMWORD_OFFSET + 4]) == 0
      && p[0..8] == p2[0..8] && p[8..16] == p2[8..16]
      && forall i :: CONTROL_BLOCK_SIZE <= i < PAGE_SIZE ==> p[i] == p2[i]
  {
    assert Pow256(4) == 0x1_0000_0000;
    assert Pow256(8) == U64_MAX + 1;
    var p3 := Store(p2, KSTACK_OFFSET, top, 8);
    var p4 := Store(p3, KGSVAL_OFFSET, 0, 8);
    var p := Store(p4, COMMWORD_OFFSET, 0, 4);
    StoreRead(p2, KSTACK_OFFSET, top, 8);
    StoreRead(p3, KGSVAL_OFFSET, 0, 8);
    StoreRead(p4, COMMWORD_OFFSET, 0, 4);
    SliceKept(p, p2, 0, 8);
    SliceKept(p, p2, 8, 16);
    SliceKept(p, p3, 16, 24);
    SliceKept(p, p4, 24, 32);
  }

  // ---------------------------------------------------------------- wait_for_ap

  datatype WaitResult = Ready | TimedOut | StillWaiting

  /** The clock never reads below the start time (the HPET counter is monotonic). */
  ghost predicate Monotonic(start: nat, clock: seq<nat>)
  {
    forall i :: 0 <= i < |clock| ==> start <= clock[i]
  }

  /**
   * `wait_for_ap` over the clock values read in the loop condition and the commword values
   * read in the body; `StillWaiting` when the given reads run out first.
   */
  function WaitSpec(timeoutUs: nat, start: nat, clock: seq<nat>, comm: seq<bv32>): WaitResult
    requires Monotonic(start, clock)
    decreases |clock|
  {
    if clock == [] then StillWaiting
    else if clock[0] - start >= timeoutUs then TimedOut
    else if comm == [] then StillWaiting
    else if comm[0] == 1 then Ready
    else WaitSpec(timeoutUs, start, clock[1..], comm[1..])
  }

  /** The first `k` iterations all ran inside the time window and read a commword other than 1. */
  ghost predicate QuietBefore(timeoutUs: nat, start: nat, clock: seq<nat>, comm: seq<bv32>, k: nat)
  {
    k == 0 ||
    (clock != [] && comm != [] && clock[0] - start < timeoutUs && comm[0] != 1 &&
     QuietBefore(timeoutUs, start, clock[1..], comm[1..], k - 1))
  }

  /** Iteration `k` is the first to read 1, every earlier read and clock check having passed. */
  ghost predicate ReadyAt(timeoutUs: nat, start: nat, clock: seq<nat>, comm: seq<bv32>, k: nat)
  {
    k < |clock| && k < |comm| && clock[k] - start < timeoutUs && comm[k] == 1
    && QuietBefore(timeoutUs, start, clock, comm, k)
  }

  /** Iteration `k` is the first whose clock check fails, no earlier read having been 1. */
  ghost predicate TimedOutAt(timeoutUs: nat, start: nat, clock: seq<nat>, comm: seq<bv32>, k: nat)
  {
    k < |clock| && clock[k] - start >= timeoutUs
    && QuietBefore(timeoutUs, start, clock, comm, k)
  }

  /** `wait_for_ap` reports true exactly when some commword read inside the time window is 1. */
  lemma {:induction false} WaitReady(timeoutUs: nat, start: nat, clock: seq<nat>, comm: seq<bv32>)
    requires Monotonic(start, clock)
    ensures WaitSpec(timeoutUs, start, clock, comm) == Ready <==> exists k: nat :: ReadyAt(timeoutUs, start, clock, comm, k)
    decreases |clock|
  {
    if clock != [] && clock[0] - start < timeoutUs && comm != [] && comm[0] != 1 {
      var clock', comm' := clock[1..], comm[1..];
      WaitReady(timeoutUs, start, clock', comm');
      if exists k: nat :: ReadyAt(timeoutUs, start, clock, comm, k) {
        var k: nat :| ReadyAt(timeoutUs, start, clock, comm, k);
        assert k >= 1;
        assert ReadyAt(timeoutUs, start, clock', comm', k - 1);
      }
      if exists k: nat :: ReadyAt(timeoutUs, start, clock', comm', k) {
        var k: nat :| ReadyAt(timeoutUs, start, clock', comm', k);
        assert ReadyAt(timeoutUs, start, clock, comm, k + 1);
      }
    } else if clock != [] && comm != [] && clock[0] - start < timeoutUs && comm[0] == 1 {
      assert ReadyAt(timeoutUs, start, clock, comm, 0);
    }
  }

  /** `wait_for_ap` reports false exactly when the window closes before any read of 1. */
  lemma {:induction false} WaitTimedOut(timeoutUs: nat, start: nat, clock: seq<nat>, comm: seq<bv32>)
    requires Monotonic(start, clock)
    ensures WaitSpec(timeoutUs, start, clock, comm) == TimedOut <==> exists k: nat :: TimedOutAt(timeoutUs, start, clock, comm, k)
    decreases |clock|
  {
    if clock != [] && clock[0] - start < timeoutUs && comm != [] && comm[0] != 1 {
      var clock', comm' := clock[1..], comm[1..];
      WaitTimedOut(timeoutUs, start, clock', comm');
      if exists k: nat :: TimedOutAt(timeoutUs, start, clock, comm, k) {
        var k: nat :| TimedOutAt(timeoutUs, start, clock, comm, k);
        assert k >= 1;
        assert TimedOutAt(timeoutUs, start, clock', comm', k - 1);
      }
      if exists k: nat :: TimedOutAt(timeoutUs, start, clock', comm', k) {
        var k: nat :| TimedOutAt(timeoutUs, start, clock', comm', k);
        assert TimedOutAt(timeoutUs, start, clock, comm, k + 1);
      }
    } else if clock != [] && clock[0] - start >= timeoutUs {
      assert TimedOutAt(timeoutUs, start, clock, comm, 0);
    }
  }

  /** The trampoline page. */
  class TrampolinePage {
    const bytes: array<Byte>

    constructor (init: seq<Byte>)
      requires |init| == PAGE_SIZE
      ensures fresh(bytes) && bytes[..] == init
    {
      bytes := new Byte[PAGE_SIZE](i requires 0 <= i < PAGE_SIZE => init[i]);
    }

    /** A little-endian store of `width` bytes. */
    method WriteLe(offset: nat, v: nat, width: nat)
      requires offset + width <= bytes.Length
      modifies bytes
      ensures bytes[..] == Store(old(bytes[..]), offset, v, width)
    {
      var le := LeBytes(v, width);
      var i := 0;
      while i < width
        invariant 0 <= i <= width
        invariant forall j :: 0 <= j < bytes.Length ==>
          bytes[j] == if offset <= j < offset + i then le[j - offset] else old(bytes[j])
      {
        bytes[offset + i] := le[i];
        i := i + 1;
      }
      var expected := Store(old(bytes[..]), offset, v, width);
      forall j | 0 <= j < bytes.Length
        ensures bytes[j] == expected[j]
      {
        if offset <= j < offset + width {
          assert expected[offset..offset + width][j - offset] == expected[j];
        }
      }
    }

    /** `load_ap_trampoline`: the binary over the first bytes of the page, the rest kept. */
    method LoadApTrampoline(bin: seq<Byte>)
      requires |bin| <= bytes.Length
      modifies bytes
      ensures bytes[..] == bin + old(bytes[..])[|bin|..]
    {
      var i := 0;
      while i < |bin|
        invariant 0 <= i <= |bin|
        invariant bytes[..] == bin[..i] + old(bytes[..])[i..]
      {
        bytes[i] := bin[i];
        assert bin[..i + 1] == bin[..i] + [bin[i]];
        i := i + 1;
      }
      assert bin[..|bin|] == bin;
    }
  }

  /** `allocate_ap_stack`: the counter moves on every call, the failing one included. */
  method AllocateApStack(statics: Multicore.SmpStatics) returns (r: Outcome<nat>)
    modifies statics`apStackIndex
    ensures statics.apStackIndex == old(statics.apStackIndex) + 1
    ensures r == ApStackSpec(statics.apStacks, old(statics.apStackIndex))
  {
    var index := statics.apStackIndex;
    statics.apStackIndex := statics.apStackIndex + 1;
    if index >= Multicore.NUM_AP_STACKS {
      return Panic("Out of AP stacks!");
    }
    var stackPtr := statics.apStacks + index * Multicore.AP_STACK_SIZE;
    r := Return(stackPtr + Multicore.AP_STACK_SIZE);
  }

  /** `patch_trampoline`. */
  method PatchTrampoline(page: TrampolinePage, statics: Multicore.SmpStatics, cr3: nat, apStartup: nat) returns (r: Outcome<()>)
    requires page.bytes.Length == PAGE_SIZE
    modifies page.bytes, statics`apStackIndex
    ensures statics.apStackIndex == old(statics.apStackIndex) + 1
    ensures (page.bytes[..], r) == PatchSpec(old(page.bytes[..]), statics.apStacks, old(statics.apStackIndex), cr3, apStartup)
  {
    page.WriteLe(CR3VAL_OFFSET, cr3, 8);
    page.WriteLe(KCODE_OFFSET, apStartup, 8);
    var apStack := AllocateApStack(statics);
    if apStack.Panic? {
      return Panic(apStack.reason);
    }
    page.WriteLe(KSTACK_OFFSET, apStack.value, 8);
    page.WriteLe(KGSVAL_OFFSET, 0, 8);
    page.WriteLe(COMMWORD_OFFSET, 0, 4);
    r := Return(());
  }

  /** `wait_for_ap`: poll the commword until it reads 1 or the time window closes. */
  method WaitForAp(timeoutUs: nat, start: nat, clock: seq<nat>, comm: seq<bv32>) returns (r: WaitResult)
    requires Monotonic(start, clock)
    ensures r == WaitSpec(timeoutUs, start, clock, comm)
  {
    var k := 0;
    while k < |clock|
      invariant 0 <= k <= |clock| && k <= |comm|
      invariant WaitSpec(timeoutUs, start, clock[k..], comm[k..]) == WaitSpec(timeoutUs, start, clock, comm)
    {
      if clock[k] - start >= timeoutUs {
        return TimedOut;
      }
      if k >= |comm| {
        return StillWaiting;
      }
      if comm[k] == 1 {
        return Ready;
      }
      assert clock[k..][1..] == clock[k + 1..] && comm[k..][1..] == comm[k + 1..];
      k := k + 1;
    }
    r := StillWaiting;
  }
}
