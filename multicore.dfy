/**
 * Bringing up the application processors (kernel/src/init/multicore.rs): the INIT and
 * Startup inter-processor interrupts sent through the local APIC's interrupt command
 * register (ICR), the AP stacks and the statics shared with the trampoline.
 *
 * The ICR encodings follow section 10.6.1 of the Intel SDM Volume 3A: bits 0-7 hold the
 * vector, bits 8-10 the delivery mode (101 INIT, 110 Start-Up), bit 14 the level (1 =
 * assert); the destination APIC ID sits in bits 24-31 of the high dword.
 */
module Multicore {
  import opened Mmio

  /** The trampoline page 0x8000 as a Start-Up vector: 0x8000 / 0x1000. */
  const TRAMPOLINE_VECTOR: bv8 := 0x8
  /** u32 slots of the local APIC registers: error status, ICR low and ICR high. */
  const ESR_SLOT: nat := 0x280 / 4
  const ICR_LOW_SLOT: nat := 0x300 / 4
  const ICR_HIGH_SLOT: nat := 0x310 / 4
  /** The local APIC register page as u32 slots. */
  const LAPIC_SLOTS: nat := 0x400 / 4
  /** ICR low for INIT: delivery mode 101, level assert. */
  const INIT_ICR_LOW: bv32 := 0x0000_4500

  /** The processor states reported by the ACPI MADT. */
  datatype ProcessorState = WaitingForSipi | Running | Disabled

  datatype Processor = Processor(localApicId: bv32, state: ProcessorState)

  /** ICR high after targeting `apicId`: the reserved low 24 bits kept, the ID in bits 24-31. */
  function IcrHigh(current: bv32, apicId: bv32): bv32
  {
    (current & 0x00FF_FFFF) | (apicId << 24)
  }

  /** Targeting keeps the reserved low 24 bits of ICR high ... */
  lemma IcrHighReserved(current: bv32, apicId: bv32)
    ensures IcrHigh(current, apicId) & 0x00FF_FFFF == current & 0x00FF_FFFF
  {
  }

  /** ... and puts the low byte of the APIC ID in bits 24-31. */
  lemma IcrHighDestination(current: bv32, apicId: bv32)
    ensures IcrHigh(current, apicId) >> 24 == apicId & 0xFF
  {
  }

  /** ICR low of a Start-Up IPI. */
  function SipiIcrLow(vector: bv8): (r: bv32)
    ensures r & 0xFF == vector as bv32
    ensures (r >> 8) & 0x7 == 0x6 && (r >> 14) & 1 == 1 && (r >> 15) & 1 == 0
  {
    (vector as bv32) | 0x0000_4600
  }

  /** INIT: no vector, delivery mode 101, level assert, edge triggered. */
  lemma InitIcrLowFields()
    ensures INIT_ICR_LOW & 0xFF == 0
    ensures (INIT_ICR_LOW >> 8) & 0x7 == 0x5 && (INIT_ICR_LOW >> 14) & 1 == 1 && (INIT_ICR_LOW >> 15) & 1 == 0
  {
  }

  /** Retargeting keeps the reserved bits and replaces the previous target. */
  lemma IcrHighRetarget(current: bv32, a: bv32, b: bv32)
    ensures IcrHigh(IcrHigh(current, a), b) == IcrHigh(current, b)
  {
  }

  /** The three writes of one IPI: clear the ESR, target the processor, then send. */
  function IpiWrites(high: bv32, apicId: bv32, low: bv32): seq<(nat, bv32)>
  {
    [(ESR_SLOT, 0), (ICR_HIGH_SLOT, IcrHigh(high, apicId)), (ICR_LOW_SLOT, low)]
  }

  /** `n` Start-Up IPIs to `apicId`, ICR high already naming it. */
  function SipiWrites(high: bv32, apicId: bv32, n: nat): seq<(nat, bv32)>
    decreases n
  {
    if n == 0 then [] else SipiWrites(high, apicId, n - 1) + IpiWrites(high, apicId, SipiIcrLow(TRAMPOLINE_VECTOR))
  }

  /** The writes for one waiting processor: INIT, then two Start-Up IPIs. */
  function ApWrites(apicId: bv32, high: bv32): seq<(nat, bv32)>
  {
    IpiWrites(high, apicId, INIT_ICR_LOW) + SipiWrites(IcrHigh(high, apicId), apicId, 2)
  }

  /** The writes `init_smp` makes, when ICR high holds `high` to begin with. */
  function SmpWrites(aps: seq<Processor>, high: bv32): seq<(nat, bv32)>
    decreases |aps|
  {
    if aps == [] then []
    else if aps[0].state != WaitingForSipi then SmpWrites(aps[1..], high)
    else ApWrites(aps[0].localApicId, high) + SmpWrites(aps[1..], IcrHigh(high, aps[0].localApicId))
  }

  /** The local APIC IDs of the processors waiting for a Start-Up IPI, in order. */
  function Targets(aps: seq<Processor>): seq<bv32>
  {
    if aps == [] then []
    else if aps[0].state == WaitingForSipi then [aps[0].localApicId] + Targets(aps[1..])
    else Targets(aps[1..])
  }

  /**
   * The nine writes for one processor: an INIT then two Start-Up IPIs with vector 8, each
   * clearing the ESR, then naming the processor in ICR high (its ID in bits 24-31), then
   * writing ICR low.
   */
  lemma ApWritesShape(apicId: bv32, high: bv32)
    ensures var h := IcrHigh(high, apicId);
      var sipi := SipiIcrLow(TRAMPOLINE_VECTOR);
      h >> 24 == apicId & 0xFF
      && ApWrites(apicId, high)
         == [(ESR_SLOT, 0), (ICR_HIGH_SLOT, h), (ICR_LOW_SLOT, INIT_ICR_LOW),
             (ESR_SLOT, 0), (ICR_HIGH_SLOT, h), (ICR_LOW_SLOT, sipi),
             (ESR_SLOT, 0), (ICR_HIGH_SLOT, h), (ICR_LOW_SLOT, sipi)]
  {
    var h := IcrHigh(high, apicId);
    IcrHighRetarget(high, apicId, apicId);
    assert SipiWrites(h, apicId, 2) == IpiWrites(h, apicId, SipiIcrLow(TRAMPOLINE_VECTOR)) + IpiWrites(h, apicId, SipiIcrLow(TRAMPOLINE_VECTOR));
  }

  /** One `ApWrites` block per target, in order, ICR high starting at `high`. */
  function TargetWrites(t: seq<bv32>, high: bv32): seq<(nat, bv32)>
    decreases |t|
  {
    if t == [] then [] else ApWrites(t[0], high) + TargetWrites(t[1..], IcrHigh(high, t[0]))
  }

  /**
   * `init_smp` sends exactly the nine writes of `ApWrites` to each waiting processor, in
   * the order of the list, and nothing to any other processor.
   */
  lemma {:induction false} SmpWritesShape(aps: seq<Processor>, high: bv32)
    ensures SmpWrites(aps, high) == TargetWrites(Targets(aps), high)
    ensures |SmpWrites(aps, high)| == 9 * |Targets(aps)|
    decreases |aps|
  {
    if aps != [] {
      SmpWritesShape(aps[1..], if aps[0].state == WaitingForSipi then IcrHigh(high, aps[0].localApicId) else high);
      if aps[0].state == WaitingForSipi {
        ApWritesShape(aps[0].localApicId, high);
        assert Targets(aps)[1..] == Targets(aps[1..]);
      }
    }
  }

  /** `send_init_ipi`. */
  method SendInitIpi(lapic: RegisterFile<bv32>, apicId: bv32)
    requires lapic.regs.Length == LAPIC_SLOTS
    modifies lapic, lapic.regs
    ensures lapic.writes == old(lapic.writes) + IpiWrites(old(lapic.regs[ICR_HIGH_SLOT]), apicId, INIT_ICR_LOW)
    ensures lapic.regs[..] == old(lapic.regs[..])[ESR_SLOT := 0][ICR_HIGH_SLOT := IcrHigh(old(lapic.regs[ICR_HIGH_SLOT]), apicId)][ICR_LOW_SLOT := INIT_ICR_LOW]
  {
    lapic.Write(ESR_SLOT, 0);
    var current := lapic.regs[ICR_HIGH_SLOT];
    lapic.Write(ICR_HIGH_SLOT, (current & 0x00FF_FFFF) | (apicId << 24));
    lapic.Write(ICR_LOW_SLOT, INIT_ICR_LOW);
  }

  /** `send_startup_ipi`. */
  method SendStartupIpi(lapic: RegisterFile<bv32>, apicId: bv32, vector: bv8)
    requires lapic.regs.Length == LAPIC_SLOTS
    modifies lapic, lapic.regs
    ensures lapic.writes == old(lapic.writes) + IpiWrites(old(lapic.regs[ICR_HIGH_SLOT]), apicId, SipiIcrLow(vector))
    ensures lapic.regs[..] == old(lapic.regs[..])[ESR_SLOT := 0][ICR_HIGH_SLOT := IcrHigh(old(lapic.regs[ICR_HIGH_SLOT]), apicId)][ICR_LOW_SLOT := SipiIcrLow(vector)]
  {
    lapic.Write(ESR_SLOT, 0);
    var current := lapic.regs[ICR_HIGH_SLOT];
    lapic.Write(ICR_HIGH_SLOT, (current & 0x00FF_FFFF) | (apicId << 24));
    lapic.Write(ICR_LOW_SLOT, (vector as bv32) | 0x0000_4600);
  }

  /** Registers other than the ESR and the ICR keep their values. */
  ghost predicate OthersKept(now: seq<bv32>, before: seq<bv32>)
  {
    |now| == |before| == LAPIC_SLOTS
    && forall s :: 0 <= s < LAPIC_SLOTS && s != ESR_SLOT && s != ICR_LOW_SLOT && s != ICR_HIGH_SLOT ==> now[s] == before[s]
  }

  /** The body of the `init_smp` loop for one waiting processor: INIT, then the two Start-Up IPIs. */
  method StartProcessor(lapic: RegisterFile<bv32>, id: bv32)
    requires lapic.regs.Length == LAPIC_SLOTS
    modifies lapic, lapic.regs
    ensures lapic.writes == old(lapic.writes) + ApWrites(id, old(lapic.regs[ICR_HIGH_SLOT]))
    ensures lapic.regs[ICR_HIGH_SLOT] == IcrHigh(old(lapic.regs[ICR_HIGH_SLOT]), id)
    ensures OthersKept(lapic.regs[..], old(lapic.regs[..]))
  {
    ghost var h0 := lapic.regs[ICR_HIGH_SLOT];
    SendInitIpi(lapic, id);
    IcrHighRetarget(h0, id, id);
    SendStartupIpis(lapic, id);
  }

  /** The `for i in 0..2` loop: two Start-Up IPIs, ICR high already naming the processor. */
  method SendStartupIpis(lapic: RegisterFile<bv32>, id: bv32)
    requires lapic.regs.Length == LAPIC_SLOTS
    requires IcrHigh(lapic.regs[ICR_HIGH_SLOT], id) == lapic.regs[ICR_HIGH_SLOT]
    modifies lapic, lapic.regs
    ensures lapic.writes == old(lapic.writes) + SipiWrites(old(lapic.regs[ICR_HIGH_SLOT]), id, 2)
    ensures lapic.regs[ICR_HIGH_SLOT] == old(lapic.regs[ICR_HIGH_SLOT])
    ensures OthersKept(lapic.regs[..], old(lapic.regs[..]))
  {
    ghost var h1 := lapic.regs[ICR_HIGH_SLOT];
    var i := 0;
    while i < 2
      invariant 0 <= i <= 2
      invariant lapic.regs[ICR_HIGH_SLOT] == h1
      invariant lapic.writes == old(lapic.writes) + SipiWrites(h1, id, i)
      invariant OthersKept(lapic.regs[..], old(lapic.regs[..]))
    {
      ghost var before := lapic.regs[..];
      SendStartupIpi(lapic, id, TRAMPOLINE_VECTOR);
      OthersKeptTrans(lapic.regs[..], before, old(lapic.regs[..]));
      assert SipiWrites(h1, id, i + 1) == SipiWrites(h1, id, i) + IpiWrites(h1, id, SipiIcrLow(TRAMPOLINE_VECTOR));
      i := i + 1;
    }
  }

  /** Keeping the other registers twice keeps them. */
  lemma OthersKeptTrans(now: seq<bv32>, mid: seq<bv32>, before: seq<bv32>)
    requires OthersKept(now, mid) && OthersKept(mid, before)
    ensures OthersKept(now, before)
  {
  }

  /** `init_smp`: the IPI loop over the application processors (the delays between IPIs are not modelled). */
  method InitSmp(lapic: RegisterFile<bv32>, aps: seq<Processor>)
    requires lapic.regs.Length == LAPIC_SLOTS
    modifies lapic, lapic.regs
    ensures lapic.writes == old(lapic.writes) + SmpWrites(aps, old(lapic.regs[ICR_HIGH_SLOT]))
    ensures OthersKept(lapic.regs[..], old(lapic.regs[..]))
  {
    var k := 0;
    while k < |aps|
      invariant 0 <= k <= |aps|
      invariant old(lapic.writes) + SmpWrites(aps, old(lapic.regs[ICR_HIGH_SLOT]))
                == lapic.writes + SmpWrites(aps[k..], lapic.regs[ICR_HIGH_SLOT])
      invariant OthersKept(lapic.regs[..], old(lapic.regs[..]))
    {
      var ap := aps[k];
      assert aps[k..][1..] == aps[k + 1..];
      if ap.state == WaitingForSipi {
        StartProcessor(lapic, ap.localApicId);
      }
      k := k + 1;
    }
  }

  // ---------------------------------------------------------------- AP stacks and shared statics

  const NUM_AP_STACKS: nat := 4
  const AP_STACK_SIZE: nat := 32768
  const U32_MODULUS: nat := 0x1_0000_0000

  /** The first address past `AP_STACKS`, which the doc comment names as `STACK_TOP`. */
  function ApStacksEnd(apStacks: nat): nat
  {
    apStacks + NUM_AP_STACKS * AP_STACK_SIZE
  }

  /**
   * `init_stack_top`: the array's address truncated to u32, plus (wrapping) the size of a
   * pointer, 8 bytes, rather than the size of the array.
   */
  function StackTopValue(apStacks: nat): (r: nat)
    ensures r < U32_MODULUS
    ensures r == (apStacks + 8) % U32_MODULUS
  {
    (apStacks % U32_MODULUS + 8) % U32_MODULUS
  }

  /**
   * `STACK_TOP` is never the end of `AP_STACKS`, even modulo 2^32; when the array lies below
   * 4 GiB it points 8 bytes into the first stack.
   */
  lemma StackTopIsNotTheEnd(apStacks: nat)
    ensures StackTopValue(apStacks) != ApStacksEnd(apStacks) % U32_MODULUS
    ensures ApStacksEnd(apStacks) < U32_MODULUS ==> StackTopValue(apStacks) == apStacks + 8
  {
  }

  /** The statics of the bring-up code: `AP_STACKS`' address, `STACK_TOP`, `BSPDONE`, `APPRUNNING`, `AP_STACK_INDEX`. */
  class SmpStatics {
    const apStacks: nat
    var stackTop: nat
    var bspDone: bv8
    var apRunning: bv8
    var apStackIndex: nat

    constructor (apStacks: nat)
      requires apStacks % 16 == 0
      ensures this.apStacks == apStacks && stackTop == 0 && bspDone == 0 && apRunning == 0 && apStackIndex == 0
    {
      this.apStacks := apStacks;
      stackTop := 0;
      bspDone := 0;
      apRunning := 0;
      apStackIndex := 0;
    }

    /** `init_stack_top`. */
    method InitStackTop()
      modifies this`stackTop
      ensures stackTop == StackTopValue(apStacks)
    {
      stackTop := (apStacks % U32_MODULUS + 8) % U32_MODULUS;
    }
  }
}
