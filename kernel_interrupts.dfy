/**
 * The memory-mapping and interrupt-controller helpers of kernel/src/interrupts.rs.
 *
 * - The ACPI handler's direct mapping: physical address `a` is reached at
 *   PHYSICAL_MEMORY_OFFSET + a.
 * - Local APIC registers are u32 slots at byte offset / 4; `enable_local_apic` and
 *   `init_apic_timer` are fixed write sequences.
 * - The I/O APIC is programmed through its index/data window (IOREGSEL at 0x00, IOWIN at
 *   0x10); a redirection entry is a low and a high dword.
 * - `validate_rsdp` checks the signature, the OEM id's UTF-8 and the byte checksum.
 * - `map_physical` maps a range of frames into the kernel heap window, skipping pages
 *   already mapped to the right frame and panicking on a page mapped elsewhere.
 *
 * Register layouts follow the Intel SDM Volume 3A (local APIC) and the 82093AA I/O APIC
 * datasheet; the RSDP layout is section 5.2.5 of the ACPI specification.
 */
module KernelInterrupts {
  import opened Common
  import Mmio
  import Multicore
  import PA = PageAllocator

  const PHYSICAL_MEMORY_OFFSET: nat := 0x200_0000_0000

  // ---------------------------------------------------------------- ACPI direct mapping

  /** What `PhysicalMapping::new` records. */
  datatype PhysicalMapping = PhysicalMapping(physicalStart: nat, virtualStart: nat, regionLength: nat, mappedLength: nat)

  /** `map_physical_region`: the page holding the start, and the region reached through the direct mapping. */
  function MapPhysicalRegion(physicalAddress: nat, size: nat): (m: PhysicalMapping)
    ensures m.physicalStart == physicalAddress && m.regionLength == size
    ensures m.virtualStart == PHYSICAL_MEMORY_OFFSET + physicalAddress
    ensures m.mappedLength == physicalAddress % PAGE_SIZE + size
  {
    var physBasePage := AlignDown(physicalAddress);
    var offsetInPage := physicalAddress - physBasePage;
    var virtBase := PHYSICAL_MEMORY_OFFSET + physBasePage;
    PhysicalMapping(physicalAddress, virtBase + offsetInPage, size, offsetInPage + size)
  }

  /**
   * The mapped window starts at the page boundary below the region and covers it: every
   * byte of the region is reached at the offset plus its physical address, inside the window.
   */
  lemma MapPhysicalRegionCovers(physicalAddress: nat, size: nat, k: nat)
    requires k < size
    ensures var m := MapPhysicalRegion(physicalAddress, size);
      var windowStart := m.virtualStart - physicalAddress % PAGE_SIZE;
      windowStart % PAGE_SIZE == 0
      && windowStart <= m.virtualStart + k < windowStart + m.mappedLength
      && m.virtualStart + k - PHYSICAL_MEMORY_OFFSET == physicalAddress + k
  {
  }

  /** `map_apic_registers`: the APIC page through the direct mapping, plus the offset inside it. */
  function MapApicRegisters(apicBase: nat): (r: nat)
    ensures r == PHYSICAL_MEMORY_OFFSET + apicBase
  {
    var pageAlignedBase := AlignDown(apicBase);
    var internalPageOffset := apicBase - pageAlignedBase;
    PHYSICAL_MEMORY_OFFSET + pageAlignedBase + internalPageOffset
  }

  /** The documented example: the usual local APIC base is page aligned. */
  lemma MapApicRegistersExample()
    ensures AlignDown(0xFEE0_0000) == 0xFEE0_0000
    ensures MapApicRegisters(0xFEE0_0000) == PHYSICAL_MEMORY_OFFSET + 0xFEE0_0000
  {
  }

  // ---------------------------------------------------------------- local APIC

  const APIC_REG_ID: nat := 0x20
  const APIC_REG_TPR: nat := 0x80
  const APIC_REG_EOI: nat := 0xB0
  const APIC_REG_SVR: nat := 0xF0
  const APIC_SVR_ENABLE: bv32 := 1 << 8
  const APIC_REG_LVT_TIMER: nat := 0x320
  const APIC_REG_TIMER_INITIAL_COUNT: nat := 0x380
  const APIC_REG_TIMER_DIV: nat := 0x3E0
  const APIC_TIMER_INITIAL_COUNT: bv32 := 20_000_000
  /** Divide configuration 0b0011: divide by 16. */
  const APIC_TIMER_DIVIDE: bv32 := 0x3

  /** `read_apic_reg`/`write_apic_reg`: the u32 slot of a register at byte offset `regOffset`. */
  function ApicSlot(regOffset: nat): nat
  {
    regOffset / 4
  }

  /**
   * The documented example (offset 8 is slot 2), and the registers this module uses: each
   * sits at four times its slot, inside the 1 KiB register page, in a slot of its own.
   */
  lemma ApicSlots()
    ensures ApicSlot(8) == 2
    ensures var offsets := [APIC_REG_ID, APIC_REG_TPR, APIC_REG_EOI, APIC_REG_SVR,
                            APIC_REG_LVT_TIMER, APIC_REG_TIMER_INITIAL_COUNT, APIC_REG_TIMER_DIV];
      (forall i :: 0 <= i < |offsets| ==> ApicSlot(offsets[i]) * 4 == offsets[i] && ApicSlot(offsets[i]) < Multicore.LAPIC_SLOTS)
      && (forall i, j :: 0 <= i < j < |offsets| ==> ApicSlot(offsets[i]) != ApicSlot(offsets[j]))
  {
  }

  method ReadApicReg(apic: Mmio.RegisterFile<bv32>, regOffset: nat) returns (v: bv32)
    requires ApicSlot(regOffset) < apic.regs.Length
    ensures v == apic.regs[ApicSlot(regOffset)]
  {
    v := apic.regs[regOffset / 4];
  }

  method WriteApicReg(apic: Mmio.RegisterFile<bv32>, regOffset: nat, value: bv32)
    requires ApicSlot(regOffset) < apic.regs.Length
    modifies apic, apic.regs
    ensures apic.regs[..] == old(apic.regs[..])[ApicSlot(regOffset) := value]
    ensures apic.writes == old(apic.writes) + [(ApicSlot(regOffset), value)]
  {
    apic.Write(regOffset / 4, value);
  }

  /** The LVT timer entry `init_apic_timer` writes: `vector | 0x20000`. */
  function LvtTimerValue(vector: bv8): bv32
  {
    vector as bv32 | 0x20000
  }

  /**
   * In the local vector table layout, the entry carries the vector in bits 7:0, leaves
   * the mask (bit 16) clear and selects timer mode 01 in bits 18:17, which is periodic.
   * The source's comment calls bit 17 the mask bit; it is the low timer-mode bit.
   */
  lemma LvtTimerFields(vector: bv8)
    ensures LvtTimerValue(vector) & 0xFF == vector as bv32
    ensures LvtTimerValue(vector) & 0x1_0000 == 0
    ensures (LvtTimerValue(vector) >> 17) & 3 == 1
    ensures LvtTimerValue(vector) & !0x200FF == 0
  {
  }

  /** The spurious-interrupt vector register `enable_local_apic` writes: vector 0xFF, software enable (bit 8). */
  const SVR_VALUE: bv32 := 0xFF | APIC_SVR_ENABLE

  lemma SvrFields()
    ensures SVR_VALUE & 0xFF == 0xFF && (SVR_VALUE >> 8) & 1 == 1 && SVR_VALUE >> 9 == 0
  {
  }

  /** `init_apic_timer`: the divide register, then the LVT entry, then the initial count (which starts the timer). */
  method InitApicTimer(apic: Mmio.RegisterFile<bv32>, vector: bv8)
    requires apic.regs.Length >= Multicore.LAPIC_SLOTS
    modifies apic, apic.regs
    ensures apic.writes == old(apic.writes) + [(ApicSlot(APIC_REG_TIMER_DIV), APIC_TIMER_DIVIDE),
                                               (ApicSlot(APIC_REG_LVT_TIMER), LvtTimerValue(vector)),
                                               (ApicSlot(APIC_REG_TIMER_INITIAL_COUNT), APIC_TIMER_INITIAL_COUNT)]
    ensures apic.regs[..] == old(apic.regs[..])[ApicSlot(APIC_REG_TIMER_DIV) := APIC_TIMER_DIVIDE]
                                               [ApicSlot(APIC_REG_LVT_TIMER) := LvtTimerValue(vector)]
                                               [ApicSlot(APIC_REG_TIMER_INITIAL_COUNT) := APIC_TIMER_INITIAL_COUNT]
  {
    WriteApicReg(apic, APIC_REG_TIMER_DIV, APIC_TIMER_DIVIDE);
    WriteApicReg(apic, APIC_REG_LVT_TIMER, LvtTimerValue(vector));
    WriteApicReg(apic, APIC_REG_TIMER_INITIAL_COUNT, APIC_TIMER_INITIAL_COUNT);
  }

  /** `enable_local_apic`: set the SVR, clear the TPR, then read the APIC ID (bits 31:24 of the ID register). */
  method EnableLocalApic(apic: Mmio.RegisterFile<bv32>) returns (lapicId: bv32)
    requires apic.regs.Length >= Multicore.LAPIC_SLOTS
    modifies apic, apic.regs
    ensures apic.writes == old(apic.writes) + [(ApicSlot(APIC_REG_SVR), SVR_VALUE), (ApicSlot(APIC_REG_TPR), 0)]
    ensures apic.regs[..] == old(apic.regs[..])[ApicSlot(APIC_REG_SVR) := SVR_VALUE][ApicSlot(APIC_REG_TPR) := 0]
    ensures lapicId == old(apic.regs[ApicSlot(APIC_REG_ID)]) >> 24
  {
    WriteApicReg(apic, APIC_REG_SVR, SVR_VALUE);
    WriteApicReg(apic, APIC_REG_TPR, 0);
    var id := ReadApicReg(apic, APIC_REG_ID);
    lapicId := id >> 24;
  }

  // ---------------------------------------------------------------- I/O APIC

  const IOREGSEL: nat := 0x00
  const IOWIN: nat := 0x10

  /**
   * An I/O APIC seen through its register window: a write to IOREGSEL selects a register,
   * a write to IOWIN stores into the selected one. `writes` records the MMIO writes in order.
   */
  class IoApic {
    var select: bv32
    var registers: map<bv32, bv32>
    var writes: seq<(nat, bv32)>

    constructor (registers: map<bv32, bv32>)
      ensures this.registers == registers && writes == [] && select == 0
    {
      select := 0;
      this.registers := registers;
      writes := [];
    }

    /** A volatile u32 write at byte `offset` of the window. */
    method Write(offset: nat, value: bv32)
      requires offset == IOREGSEL || offset == IOWIN
      modifies this
      ensures writes == old(writes) + [(offset, value)]
      ensures offset == IOREGSEL ==> select == value && registers == old(registers)
      ensures offset == IOWIN ==> select == old(select) && registers == old(registers)[old(select) := value]
    {
      writes := writes + [(offset, value)];
      if offset == IOREGSEL {
        select := value;
      } else {
        registers := registers[select := value];
      }
    }
  }

  /** `ioapic_write`: the register index goes to IOREGSEL before the value goes to IOWIN. */
  method IoapicWrite(ioapic: IoApic, regIndex: bv32, value: bv32)
    modifies ioapic
    ensures ioapic.writes == old(ioapic.writes) + [(IOREGSEL, regIndex), (IOWIN, value)]
    ensures ioapic.select == regIndex && ioapic.registers == old(ioapic.registers)[regIndex := value]
  {
    ioapic.Write(IOREGSEL, regIndex);
    ioapic.Write(IOWIN, value);
  }

  datatype TriggerMode = Edge | Level | TriggerSameAsBus
  datatype Polarity = ActiveHigh | ActiveLow | PolaritySameAsBus

  /** The low dword of a redirection entry as `set_ioapic_redirect` builds it. */
  function RedirectionLow(vector: bv8, trigger: TriggerMode, polarity: Polarity): bv32
  {
    var triggerBit: bv32 := if trigger == Level then 1 << 13 else 0;
    var polarityBit: bv32 := if polarity == ActiveLow then 1 << 15 else 0;
    var maskBit: bv32 := 0;
    vector as bv32 | triggerBit | polarityBit | maskBit
  }

  /**
   * The entry's fields: the vector in bits 7:0, fixed delivery (bits 10:8 zero), physical
   * destination mode (bit 11 zero), level trigger in bit 13 exactly for `Level`, active
   * low in bit 15 exactly for `ActiveLow`, and not masked (bit 16 clear); no other bit set.
   */
  lemma RedirectionLowFields(vector: bv8, trigger: TriggerMode, polarity: Polarity)
    ensures var low := RedirectionLow(vector, trigger, polarity);
      low & 0xFF == vector as bv32
      && (low >> 8) & 0xF == 0
      && ((low >> 13) & 1 == 1 <==> trigger == Level)
      && ((low >> 15) & 1 == 1 <==> polarity == ActiveLow)
      && (low >> 16) & 1 == 0
      && low & !0xA0FF == 0
  {
  }

  /** The high dword: the destination APIC ID in bits 31:24 (xAPIC). */
  function RedirectionHigh(destApicId: bv32): bv32
  {
    destApicId << 24
  }

  /** Only the low byte of the destination survives, in bits 31:24; bits 23:0 are zero. */
  lemma RedirectionHighFields(destApicId: bv32)
    ensures RedirectionHigh(destApicId) >> 24 == destApicId & 0xFF
    ensures RedirectionHigh(destApicId) & 0xFF_FFFF == 0
  {
  }

  /**
   * `0x10 + 2 * gsi`, the index of the entry's low dword (the high dword follows at the
   * next index), in u32 with the overflow checks of a debug build: the multiplication
   * panics for gsi >= 2^31, the addition when the sum leaves u32.
   */
  function RedirectionIndex(gsi: bv32): (r: Outcome<bv32>)
    ensures r.Return? <==> gsi <= 0x7FFF_FFF7
    ensures r.Return? ==> r.value == 0x10 + (gsi << 1)
  {
    if gsi >= 0x8000_0000 then Panic("attempt to multiply with overflow")
    else if gsi > 0x7FFF_FFF7 then Panic("attempt to add with overflow")  // 2 * gsi > 0xFFFF_FFEF
    else Return(0x10 + (gsi << 1))
  }

  /** The low index is even, at least 0x10, leaves room for the high index, and gives back the GSI. */
  lemma RedirectionIndexFields(gsi: bv32)
    requires RedirectionIndex(gsi).Return?
    ensures var lo := RedirectionIndex(gsi).value;
      lo & 1 == 0 && lo >= 0x10 && lo < 0xFFFF_FFFF && (lo - 0x10) >> 1 == gsi
  {
  }

  /** Distinct GSIs own disjoint register pairs. */
  lemma RedirectionPairsDisjoint(g1: bv32, g2: bv32)
    requires g1 != g2
    requires RedirectionIndex(g1).Return? && RedirectionIndex(g2).Return?
    ensures var l1 := RedirectionIndex(g1).value;
      var l2 := RedirectionIndex(g2).value;
      l1 != l2 && l1 != l2 + 1 && l1 + 1 != l2
  {
  }

  /** The register half of `set_ioapic_redirect`: the entry's indices, then the low dword, then the high dword. */
  method WriteRedirection(ioapic: IoApic, gsi: bv32, destApicId: bv32, vector: bv8, trigger: TriggerMode,
                          polarity: Polarity) returns (r: Outcome<()>)
    modifies ioapic
    ensures RedirectionIndex(gsi).Panic? ==>
      r == Panic(RedirectionIndex(gsi).reason) && ioapic.writes == old(ioapic.writes)
      && ioapic.registers == old(ioapic.registers) && ioapic.select == old(ioapic.select)
    ensures RedirectionIndex(gsi).Return? ==>
      var lo := RedirectionIndex(gsi).value;
      var hi := lo + 1;
      var low := RedirectionLow(vector, trigger, polarity);
      var high := RedirectionHigh(destApicId);
      r.Return?
      && ioapic.writes == old(ioapic.writes) + [(IOREGSEL, lo), (IOWIN, low), (IOREGSEL, hi), (IOWIN, high)]
      && ioapic.registers == old(ioapic.registers)[lo := low][hi := high] && ioapic.select == hi
  {
    var idx := RedirectionIndex(gsi);
    if idx.Panic? {
      return Panic(idx.reason);
    }
    var lo := idx.value;
    var hi := lo + 1;
    IoapicWrite(ioapic, lo, RedirectionLow(vector, trigger, polarity));
    IoapicWrite(ioapic, hi, RedirectionHigh(destApicId));
    r := Return(());
  }

  /**
   * `set_ioapic_redirect`: map the I/O APIC page, then program the GSI's redirection
   * entry. `ioapic` is the device behind the mapping.
   */
  method SetIoapicRedirect(pa: PA.PageAllocator?, ioapic: IoApic, ioApicBase: nat, gsi: bv32, destApicId: bv32,
                           vector: bv8, trigger: TriggerMode, polarity: Polarity) returns (r: Outcome<()>)
    requires pa != null ==> pa.Valid()
    modifies if pa == null then {} else {pa.mapper}, ioapic
    ensures pa == null ==>
      r == Panic(UNINITIALIZED) && ioapic.writes == old(ioapic.writes)
      && ioapic.registers == old(ioapic.registers) && ioapic.select == old(ioapic.select)
    ensures pa != null ==> pa.mapper.entries == MapPhysicalSpec(old(pa.mapper.entries), ioApicBase, 1).0
    ensures pa != null && MapPhysicalSpec(old(pa.mapper.entries), ioApicBase, 1).1.Panic? ==>
      r == Panic(CONFLICT) && ioapic.writes == old(ioapic.writes)
      && ioapic.registers == old(ioapic.registers) && ioapic.select == old(ioapic.select)
    ensures pa != null && MapPhysicalSpec(old(pa.mapper.entries), ioApicBase, 1).1.Return? && RedirectionIndex(gsi).Panic? ==>
      r == Panic(RedirectionIndex(gsi).reason) && ioapic.writes == old(ioapic.writes)
      && ioapic.registers == old(ioapic.registers) && ioapic.select == old(ioapic.select)
    ensures pa != null && MapPhysicalSpec(old(pa.mapper.entries), ioApicBase, 1).1.Return? && RedirectionIndex(gsi).Return? ==>
      var lo := RedirectionIndex(gsi).value;
      var hi := lo + 1;
      var low := RedirectionLow(vector, trigger, polarity);
      var high := RedirectionHigh(destApicId);
      r.Return?
      && ioapic.writes == old(ioapic.writes) + [(IOREGSEL, lo), (IOWIN, low), (IOREGSEL, hi), (IOWIN, high)]
      && ioapic.registers == old(ioapic.registers)[lo := low][hi := high] && ioapic.select == hi
  {
    var mapped := MapPhysical(pa, ioApicBase, 1);
    if mapped.Panic? {
      MapPhysicalIdempotent(if pa == null then map[] else pa.mapper.entries, ioApicBase, 1);
      return Panic(mapped.reason);
    }
    r := WriteRedirection(ioapic, gsi, destApicId, vector, trigger, polarity);
  }

  // ---------------------------------------------------------------- RSDP validation

  /** "RSD PTR " in ASCII. */
  const RSDP_SIGNATURE: seq<bv8> := [0x52, 0x53, 0x44, 0x20, 0x50, 0x54, 0x52, 0x20]
  /** The ACPI 1.0 structure length, and the size of the structure the code reinterprets. */
  const RSDP_V1_LENGTH: nat := 20
  const RSDP_SIZE: nat := 36

  /** The covered length: 20 bytes for revision 0, the little-endian `length` field at byte 20 otherwise. */
  function RsdpLength(rsdp: seq<bv8>): nat
    requires |rsdp| >= RSDP_SIZE
  {
    if rsdp[15] > 0 then rsdp[20] as nat + 0x100 * rsdp[21] as nat + 0x1_0000 * rsdp[22] as nat + 0x100_0000 * rsdp[23] as nat
    else RSDP_V1_LENGTH
  }

  /** `fold(0u8, |acc, &b| acc.wrapping_add(b))`, the u8 accumulator kept below 256. */
  function WrappingSum(acc: nat, bytes: seq<bv8>): nat
    decreases |bytes|
  {
    if bytes == [] then acc else WrappingSum((acc + bytes[0] as nat) % 0x100, bytes[1..])
  }

  /** The plain sum of the bytes. */
  function ByteTotal(bytes: seq<bv8>): nat
  {
    if bytes == [] then 0 else bytes[0] as nat + ByteTotal(bytes[1..])
  }

  /** The wrapping fold is the byte total modulo 256. */
  lemma {:induction false} WrappingSumIsTotal(acc: nat, bytes: seq<bv8>)
    requires acc < 0x100
    ensures WrappingSum(acc, bytes) == (acc + ByteTotal(bytes)) % 0x100
    decreases |bytes|
  {
    if bytes != [] {
      WrappingSumIsTotal((acc + bytes[0] as nat) % 0x100, bytes[1..]);
      ModAdd(acc + bytes[0] as nat, ByteTotal(bytes[1..]));
    }
  }

  lemma ModAdd(x: nat, y: nat)
    ensures (x % 0x100 + y) % 0x100 == (x + y) % 0x100
  {
  }

  // Well-formed UTF-8, as in the syntax of section 4 of RFC 3629.

  predicate Continuation(b: bv8)
  {
    0x80 <= b <= 0xBF
  }

  /** The length of the well-formed character at the head of `s`, if there is one. */
  function Utf8CharLength(s: seq<bv8>): (r: Option<nat>)
    requires |s| > 0
    ensures r.Some? ==> 1 <= r.value <= |s|
  {
    var b := s[0];
    if b <= 0x7F then Some(1)
    else if 0xC2 <= b <= 0xDF then
      if |s| >= 2 && Continuation(s[1]) then Some(2) else None
    else if 0xE0 <= b <= 0xEF then
      var lo: bv8 := if b == 0xE0 then 0xA0 else 0x80;
      var hi: bv8 := if b == 0xED then 0x9F else 0xBF;
      if |s| >= 3 && lo <= s[1] <= hi && Continuation(s[2]) then Some(3) else None
    else if 0xF0 <= b <= 0xF4 then
      var lo: bv8 := if b == 0xF0 then 0x90 else 0x80;
      var hi: bv8 := if b == 0xF4 then 0x8F else 0xBF;
      if |s| >= 4 && lo <= s[1] <= hi && Continuation(s[2]) && Continuation(s[3]) then Some(4) else None
    else None
  }

  /** `str::from_utf8(bytes).is_ok()`. */
  predicate ValidUtf8(s: seq<bv8>)
    decreases |s|
  {
    s == [] || (Utf8CharLength(s).Some? && ValidUtf8(s[Utf8CharLength(s).value..]))
  }

  /** ASCII text (every byte below 0x80) is valid UTF-8. */
  lemma {:induction false} AsciiIsUtf8(s: seq<bv8>)
    requires forall i :: 0 <= i < |s| ==> s[i] < 0x80
    ensures ValidUtf8(s)
    decreases |s|
  {
    if s != [] {
      AsciiIsUtf8(s[1..]);
    }
  }

  /** The panic of the `acpi` crate's `Rsdp::oem_id`, which unwraps `str::from_utf8` of the six OEM bytes. */
  const OEM_ID_PANIC: string := "called `Result::unwrap()` on an `Err` value"

  /**
   * `validate_rsdp` over the bytes at the pointer: the signature, then the OEM id
   * (bytes 9..15), then the checksum over the covered length. `rsdp.oem_id()` is already a
   * `&str`: the accessor panics on OEM bytes that are not UTF-8, so the function's own
   * UTF-8 test never fails. It returns true exactly when the signature matches and the
   * covered bytes add up to a multiple of 256.
   */
  function ValidateRsdp(rsdp: seq<bv8>): (r: Outcome<bool>)
    requires |rsdp| >= RSDP_SIZE && RsdpLength(rsdp) <= |rsdp|
    ensures r.Panic? <==> rsdp[..8] == RSDP_SIGNATURE && !ValidUtf8(rsdp[9..15])
    ensures r.Panic? ==> r.reason == OEM_ID_PANIC
    ensures r.Return? ==> (r.value <==> rsdp[..8] == RSDP_SIGNATURE && ByteTotal(rsdp[..RsdpLength(rsdp)]) % 0x100 == 0)
  {
    WrappingSumIsTotal(0, rsdp[..RsdpLength(rsdp)]);
    if rsdp[..8] != RSDP_SIGNATURE then Return(false)
    else if !ValidUtf8(rsdp[9..15]) then Panic(OEM_ID_PANIC)
    else
      var length := RsdpLength(rsdp);
      Return(WrappingSum(0, rsdp[..length]) == 0)
  }

  /**
   * An RSDP with the right signature and checksum whose OEM id holds the byte 0xFF makes
   * `validate_rsdp` panic rather than return false; with an ASCII OEM id it returns true.
   */
  lemma ValidateRsdpOemPanics(rsdp: seq<bv8>)
    requires |rsdp| >= RSDP_SIZE && RsdpLength(rsdp) <= |rsdp|
    requires rsdp[..8] == RSDP_SIGNATURE && ByteTotal(rsdp[..RsdpLength(rsdp)]) % 0x100 == 0
    ensures rsdp[9] == 0xFF ==> ValidateRsdp(rsdp) == Panic(OEM_ID_PANIC)
    ensures (forall i :: 9 <= i < 15 ==> rsdp[i] < 0x80) ==> ValidateRsdp(rsdp) == Return(true)
  {
    if rsdp[9] == 0xFF {
      assert Utf8CharLength(rsdp[9..15]).None?;
    }
    if forall i :: 9 <= i < 15 ==> rsdp[i] < 0x80 {
      AsciiIsUtf8(rsdp[9..15]);
    }
  }

  // ---------------------------------------------------------------- map_physical

  const UNINITIALIZED: string := "PAGE_ALLOCATOR uninitialized"
  const CONFLICT: string := "Page is already mapped to a different frame"

  /** Page `i` of `map_physical(phys, _)` and the frame it is meant to map to. */
  function KPage(phys: nat, i: nat): nat
  {
    AlignDown(PA.KERNEL_HEAP_START + phys + i * PAGE_SIZE)
  }

  function KFrame(phys: nat, i: nat): nat
  {
    AlignDown(phys + i * PAGE_SIZE)
  }

  lemma KPageIs(phys: nat, i: nat)
    ensures KPage(phys, i) == PA.KERNEL_HEAP_START + AlignDown(phys) + i * PAGE_SIZE
    ensures KFrame(phys, i) == AlignDown(phys) + i * PAGE_SIZE
  {
    AlignDownShift(phys, i);
    AlignDownShift(PA.KERNEL_HEAP_START + phys, i);
    assert PA.KERNEL_HEAP_START % PAGE_SIZE == 0;
    assert AlignDown(PA.KERNEL_HEAP_START + phys) == PA.KERNEL_HEAP_START + AlignDown(phys);
  }

  lemma KPageInjective(phys: nat, i: nat, j: nat)
    requires i != j
    ensures KPage(phys, i) != KPage(phys, j)
  {
    KPageIs(phys, i);
    KPageIs(phys, j);
  }

  /** Page `i` is already mapped, to a frame other than its own. */
  predicate Conflict(t: map<nat, nat>, phys: nat, i: nat)
  {
    KPage(phys, i) in t && t[KPage(phys, i)] != KFrame(phys, i)
  }

  /** The loop of `map_physical` from page `i` on. */
  function MapPagesFrom(t: map<nat, nat>, phys: nat, n: nat, i: nat): (map<nat, nat>, Outcome<nat>)
    decreases n - i
  {
    if i >= n then (t, Return(PA.KERNEL_HEAP_START + phys))
    else
      var page := KPage(phys, i);
      var frame := KFrame(phys, i);
      if page in t then
        if t[page] == frame then MapPagesFrom(t, phys, n, i + 1) else (t, Panic(CONFLICT))
      else MapPagesFrom(t[page := frame], phys, n, i + 1)
  }

  function MapPhysicalSpec(t: map<nat, nat>, phys: nat, n: nat): (map<nat, nat>, Outcome<nat>)
  {
    MapPagesFrom(t, phys, n, 0)
  }

  /** The first step of the loop, when it does not panic: page `i` ends up mapped to its frame. */
  function StepTable(t: map<nat, nat>, phys: nat, i: nat): map<nat, nat>
  {
    if KPage(phys, i) in t then t else t[KPage(phys, i) := KFrame(phys, i)]
  }

  /** Stepping past page `i` does not change whether a later page conflicts. */
  lemma StepKeepsConflicts(t: map<nat, nat>, phys: nat, n: nat, i: nat)
    requires !Conflict(t, phys, i)
    ensures forall j :: i + 1 <= j < n ==> (Conflict(StepTable(t, phys, i), phys, j) <==> Conflict(t, phys, j))
  {
    forall j | i + 1 <= j < n
      ensures Conflict(StepTable(t, phys, i), phys, j) <==> Conflict(t, phys, j)
    {
      KPageInjective(phys, i, j);
    }
  }

  /** The loop succeeds exactly when no remaining page conflicts; it then maps every remaining page to its frame. */
  lemma {:induction false} MapPagesFromResult(t: map<nat, nat>, phys: nat, n: nat, i: nat)
    ensures var (t', r) := MapPagesFrom(t, phys, n, i);
      (r.Return? <==> forall j :: i <= j < n ==> !Conflict(t, phys, j))
      && (r.Return? ==> r.value == PA.KERNEL_HEAP_START + phys
                        && forall j :: i <= j < n ==> KPage(phys, j) in t' && t'[KPage(phys, j)] == KFrame(phys, j))
      && (r.Panic? ==> r.reason == CONFLICT)
    decreases n - i
  {
    if i < n {
      if Conflict(t, phys, i) {
      } else {
        var t1 := StepTable(t, phys, i);
        assert MapPagesFrom(t, phys, n, i) == MapPagesFrom(t1, phys, n, i + 1);
        MapPagesFromResult(t1, phys, n, i + 1);
        MapPagesFromFrame(t1, phys, n, i + 1);
        StepKeepsConflicts(t, phys, n, i);
      }
    }
  }

  /** The loop keeps every existing mapping and adds only pages of the range. */
  lemma {:induction false} MapPagesFromFrame(t: map<nat, nat>, phys: nat, n: nat, i: nat)
    ensures var (t', r) := MapPagesFrom(t, phys, n, i);
      (forall p :: p in t ==> p in t' && t'[p] == t[p])
      && (forall p :: p in t' ==> p in t || exists j :: i <= j < n && p == KPage(phys, j))
    decreases n - i
  {
    if i < n && !Conflict(t, phys, i) {
      var t1 := StepTable(t, phys, i);
      assert MapPagesFrom(t, phys, n, i) == MapPagesFrom(t1, phys, n, i + 1);
      MapPagesFromFrame(t1, phys, n, i + 1);
      var t' := MapPagesFrom(t, phys, n, i).0;
      forall p | p in t' ensures p in t || exists j :: i <= j < n && p == KPage(phys, j) {
        if p !in t1 {
          var j :| i + 1 <= j < n && p == KPage(phys, j);
        } else if p !in t {
          assert p == KPage(phys, i);
        }
      }
    }
  }

  /** When every page is already mapped to its own frame, the loop changes nothing. */
  lemma {:induction false} MapPagesAllPresent(t: map<nat, nat>, phys: nat, n: nat, i: nat)
    requires forall j :: i <= j < n ==> KPage(phys, j) in t && t[KPage(phys, j)] == KFrame(phys, j)
    ensures var base: nat := PA.KERNEL_HEAP_START + phys; MapPagesFrom(t, phys, n, i) == (t, Return(base))
    decreases n - i
  {
    if i < n {
      MapPagesAllPresent(t, phys, n, i + 1);
    }
  }

  /**
   * `map_physical` succeeds exactly when no page of the range is mapped to a frame other
   * than its own. It then returns KERNEL_HEAP_START + phys, maps page i to frame
   * phys + i * 4096 (rounded down to a frame), keeps every earlier mapping, and adds no
   * other page; a second call with the same range changes nothing and returns the same.
   */
  lemma MapPhysicalIdempotent(t: map<nat, nat>, phys: nat, n: nat)
    ensures var (t', r) := MapPhysicalSpec(t, phys, n);
      (r.Return? <==> forall j :: 0 <= j < n ==> !Conflict(t, phys, j))
      && (r.Return? ==> r.value == PA.KERNEL_HEAP_START + phys
                        && (forall j :: 0 <= j < n ==> KPage(phys, j) in t' && t'[KPage(phys, j)] == AlignDown(phys) + j * PAGE_SIZE)
                        && MapPhysicalSpec(t', phys, n) == (t', r))
      && (forall p :: p in t ==> p in t' && t'[p] == t[p])
      && (forall p :: p in t' ==> p in t || exists j :: 0 <= j < n && p == KPage(phys, j))
  {
    MapPagesFromResult(t, phys, n, 0);
    MapPagesFromFrame(t, phys, n, 0);
    var (t', r) := MapPhysicalSpec(t, phys, n);
    if r.Return? {
      MapPagesAllPresent(t', phys, n, 0);
      forall j | 0 <= j < n ensures t'[KPage(phys, j)] == AlignDown(phys) + j * PAGE_SIZE {
        KPageIs(phys, j);
      }
    }
  }

  /** `map_physical`: the page loop over the page allocator's mapper. */
  method MapPhysical(pa: PA.PageAllocator?, phys: nat, numPages: nat) returns (r: Outcome<nat>)
    requires pa != null ==> pa.Valid()
    modifies if pa == null then {} else {pa.mapper}
    ensures pa == null ==> r == Panic(UNINITIALIZED)
    ensures pa != null ==> (pa.mapper.entries, r) == MapPhysicalSpec(old(pa.mapper.entries), phys, numPages)
  {
    if pa == null {
      return Panic(UNINITIALIZED);
    }
    var virtBase: nat := PA.KERNEL_HEAP_START + phys;
    var i := 0;
    while i < numPages
      invariant 0 <= i <= numPages
      invariant MapPagesFrom(pa.mapper.entries, phys, numPages, i) == MapPhysicalSpec(old(pa.mapper.entries), phys, numPages)
    {
      var page := AlignDown(virtBase + i * PAGE_SIZE);
      var frame := AlignDown(phys + i * PAGE_SIZE);
      var translated := pa.mapper.Translate(page);
      if translated.Some? {
        if translated.value != frame {
          return Panic(CONFLICT);
        }
      } else {
        // The page was just found unmapped, so `map_to` cannot report it as mapped; its
        // other failure (no frame for an intermediate table) is not part of this model.
        var err := pa.mapper.MapTo(page, frame);
      }
      i := i + 1;
    }
    r := Return(virtBase);
  }
}
