/**
 * The application-processor trampoline (the `global_asm!` block of
 * kernel/src/ap_protected.rs), as a small machine over the registers it touches.
 *
 * The stub starts in real mode at 0x8000, loads a four-entry GDT, sets CR0.PE, far-jumps
 * into a 32-bit code segment, loads its data segments, computes a per-core stack from the
 * local APIC ID, spins on a flag, increments a counter and jumps to `ap_startup`. Each
 * instruction is one method of `ApCore` that updates the registers it writes. CPUID's EBX,
 * the values the spin loop reads and the linker symbols' values are inputs. Registers are
 * 32-bit values kept as naturals below 2^32.
 *
 * The core carries the two parts of the stub's bytes that decide how it runs: the GDT and
 * the protected-mode far jump. `STUB_AS_WRITTEN` holds them as assembled (the core faults
 * at that jump); `STUB_CORRECTED` adds the operand-size prefix to the jump and gives the
 * data segment a 32-bit stack.
 *
 * Descriptor layout: section 3.4.5 of the Intel SDM Volume 3A.
 */
module ApProtected {
  import opened Common
  import Multicore

  const U32_MODULUS: nat := 0x1_0000_0000
  const U16_MODULUS: nat := 0x1_0000

  // ---------------------------------------------------------------- the GDT

  /** A segment descriptor's fields: 32-bit base, 20-bit limit, access byte, 4-bit flags. */
  datatype Descriptor = Descriptor(base: bv32, limit: bv32, access: bv32, flags: bv32)
  {
    predicate Valid()
    {
      limit < 0x10_0000 && access < 0x100 && flags < 0x10
    }
  }

  /** The descriptor's two dwords, low then high. */
  function Encode(d: Descriptor): (bv32, bv32)
  {
    (((d.base & 0xFFFF) << 16) | (d.limit & 0xFFFF),
     (d.base & 0xFF00_0000) | (d.flags << 20) | (d.limit & 0xF_0000) | (d.access << 8) | ((d.base >> 16) & 0xFF))
  }

  /** The fields of a descriptor given as its low and high dwords. */
  function Decode(lo: bv32, hi: bv32): (d: Descriptor)
    ensures d.Valid()
  {
    Descriptor((lo >> 16) | ((hi & 0xFF) << 16) | (hi & 0xFF00_0000),
               (lo & 0xFFFF) | (hi & 0xF_0000),
               (hi >> 8) & 0xFF,
               (hi >> 20) & 0xF)
  }

  /** Decoding an encoded descriptor gives back its fields. */
  lemma DescriptorRoundTrip(d: Descriptor)
    requires d.Valid()
    ensures Decode(Encode(d).0, Encode(d).1) == d
  {
  }


  /** `_L8010_GDT_table`: four descriptors as low/high dwords. */
  const GDT_TABLE: seq<(bv32, bv32)> := [(0, 0), (0x0000FFFF, 0x00CF9A00), (0x0000FFFF, 0x008F9200), (0x00000068, 0x00CF8900)]
  /** The same table with the data descriptor's B flag set (flags 0xC): a 32-bit stack segment. */
  const GDT_TABLE_CORRECTED: seq<(bv32, bv32)> := [(0, 0), (0x0000FFFF, 0x00CF9A00), (0x0000FFFF, 0x00CF9200), (0x00000068, 0x00CF8900)]
  /** Where the table and its GDTR image sit in the trampoline page. */
  const GDT_BASE: nat := 0x8010
  const GDTR_ADDRESS: nat := 0x8030
  /** `gdt_limit`: the table's size in bytes, less one. */
  const GDT_LIMIT: nat := GDTR_ADDRESS - GDT_BASE - 1

  /**
   * The table holds a null descriptor, a flat 4 GiB code segment (access 0x9A, flags 0xC:
   * 32-bit, 4 KiB granularity), a flat data segment (access 0x92, flags 0x8: 16-bit
   * default, 4 KiB granularity) and a system descriptor (access 0x89; its high dword also sets limit bits 19:16, so the
   * limit is 0xF0068);
   * the GDTR describes exactly these four eight-byte entries.
   */
  lemma GdtEntries()
    ensures Decode(GDT_TABLE[0].0, GDT_TABLE[0].1) == Descriptor(0, 0, 0, 0)
    ensures Decode(GDT_TABLE[1].0, GDT_TABLE[1].1) == Descriptor(0, 0xFFFFF, 0x9A, 0xC)
    ensures Decode(GDT_TABLE[2].0, GDT_TABLE[2].1) == Descriptor(0, 0xFFFFF, 0x92, 0x8)
    ensures Decode(GDT_TABLE[3].0, GDT_TABLE[3].1) == Descriptor(0, 0xF0068, 0x89, 0xC)
    ensures GDT_LIMIT == 8 * |GDT_TABLE| - 1 == 31
  {
  }

  /** The descriptor a selector indexes (the RPL and TI bits are ignored). */
  function Entry(gdt: seq<(bv32, bv32)>, selector: nat): Descriptor
    requires selector / 8 < |gdt|
  {
    Decode(gdt[selector / 8].0, gdt[selector / 8].1)
  }

  /** A selector a far jump can load into CS: not the null selector, and a present code descriptor (P, S and E set). */
  predicate IsCode(gdt: seq<(bv32, bv32)>, selector: nat)
  {
    0 < selector / 8 < |gdt| && Entry(gdt, selector).access & 0x98 == 0x98
  }

  /** Bit 2 of a descriptor's flags (D/B): 32-bit default operand size for code, a 32-bit stack pointer for a stack segment. */
  predicate Is32Bit(gdt: seq<(bv32, bv32)>, selector: nat)
  {
    selector / 8 < |gdt| && Entry(gdt, selector).flags & 4 != 0
  }

  /** The base of the segment a selector names (0 for a selector past the table). */
  function SegmentBase(gdt: seq<(bv32, bv32)>, selector: nat): nat
  {
    if selector / 8 < |gdt| then Entry(gdt, selector).base as nat else 0
  }

  // ---------------------------------------------------------------- far-jump encoding

  datatype FarPointer = FarPointer(selector: nat, offset: nat)

  /**
   * How the processor reads a far `jmp` (opcode 0xEA) at the head of `code`: the offset is
   * 2 bytes under a 16-bit operand size and 4 under a 32-bit one, then a 2-byte selector.
   * A 0x66 prefix switches the operand size.
   */
  function DecodeFarJump(code: seq<bv8>, default32: bool): Option<FarPointer>
  {
    var (size32, rest) := if |code| > 0 && code[0] == 0x66 then (!default32, code[1..]) else (default32, code);
    if |rest| == 0 || rest[0] != 0xEA then None
    else if size32 then
      if |rest| < 7 then None
      else Some(FarPointer(Word(rest[5], rest[6]), Word(rest[1], rest[2]) + 0x1_0000 * Word(rest[3], rest[4])))
    else
      if |rest| < 5 then None
      else Some(FarPointer(Word(rest[3], rest[4]), Word(rest[1], rest[2])))
  }

  /** A little-endian 16-bit word. */
  function Word(b0: bv8, b1: bv8): nat
  {
    b0 as nat + 0x100 * b1 as nat
  }

  /** Where `_L8060` lands: the 26 bytes of code from 0x8040, rounded up to 32. */
  const L8060: nat := 0x8060

  /** The jump into protected mode as assembled: `.byte 0xEA`, `.long _L8060`, `.word 0x8`, in `.code16`. */
  const PM_JUMP_AS_WRITTEN: seq<bv8> := [0xEA, 0x60, 0x80, 0x00, 0x00, 0x08, 0x00]
  /** The same jump with the operand-size prefix that makes it `jmp 0x8:_L8060`. */
  const PM_JUMP_CORRECTED: seq<bv8> := [0x66] + PM_JUMP_AS_WRITTEN

  /**
   * The stub's first far jump (`.byte 0xEA`, `.word 0x8040`, `.word 0`) reads correctly in
   * 16-bit code. Its second one does not: still executing in the 16-bit code segment, the
   * processor reads two offset bytes and then takes the upper half of the `.long` as the
   * selector, 0, which is the null selector and no code segment.
   */
  lemma PmJumpAsWritten()
    ensures DecodeFarJump([0xEA, 0x40, 0x80, 0x00, 0x00], false) == Some(FarPointer(0, 0x8040))
    ensures DecodeFarJump(PM_JUMP_AS_WRITTEN, false) == Some(FarPointer(0, L8060))
    ensures DecodeFarJump(PM_JUMP_AS_WRITTEN, true) == Some(FarPointer(8, L8060))
    ensures !IsCode(GDT_TABLE, 0)
  {
  }

  /** With the 0x66 prefix the 16-bit processor reads the intended `jmp 0x8:0x8060`, a 32-bit code segment. */
  lemma PmJumpCorrected()
    ensures DecodeFarJump(PM_JUMP_CORRECTED, false) == Some(FarPointer(8, L8060))
    ensures IsCode(GDT_TABLE, 8) && Is32Bit(GDT_TABLE, 8)
  {
    assert PM_JUMP_CORRECTED[1..] == PM_JUMP_AS_WRITTEN;
    GdtEntries();
  }

  // ---------------------------------------------------------------- the stub's bytes

  /** The bytes of the trampoline that decide how it runs: its GDT and its protected-mode jump. */
  datatype Stub = Stub(gdt: seq<(bv32, bv32)>, pmJump: seq<bv8>)

  const STUB_AS_WRITTEN: Stub := Stub(GDT_TABLE, PM_JUMP_AS_WRITTEN)
  const STUB_CORRECTED: Stub := Stub(GDT_TABLE_CORRECTED, PM_JUMP_CORRECTED)

  /** Where the protected-mode jump goes, read in 16-bit code. */
  function PmTarget(stub: Stub): Option<FarPointer>
  {
    DecodeFarJump(stub.pmJump, false)
  }

  /**
   * The stubs this model runs: the protected-mode jump lands on `_L8060` and, if it enters
   * a code segment at all, enters selector 8; selector 8 is a 32-bit code segment (the code
   * at `_L8060` is assembled as `.code32`, and the last jump reloads it); selector 16 is in
   * the table.
   */
  predicate Runnable(stub: Stub)
  {
    PmTarget(stub).Some? && PmTarget(stub).value.offset == L8060
    && (IsCode(stub.gdt, PmTarget(stub).value.selector) ==> PmTarget(stub).value.selector == 8)
    && IsCode(stub.gdt, 8) && Is32Bit(stub.gdt, 8) && 16 / 8 < |stub.gdt|
  }

  /** The protected-mode jump loads no code segment: a general-protection fault. */
  predicate Faults(stub: Stub)
    requires PmTarget(stub).Some?
  {
    !IsCode(stub.gdt, PmTarget(stub).value.selector)
  }

  /**
   * The stub as assembled faults at its protected-mode jump; with the prefix it does not,
   * whichever data descriptor the table holds.
   */
  lemma StubsRun()
    ensures Runnable(STUB_AS_WRITTEN) && Faults(STUB_AS_WRITTEN)
    ensures Runnable(STUB_CORRECTED) && !Faults(STUB_CORRECTED)
    ensures Runnable(Stub(GDT_TABLE, PM_JUMP_CORRECTED)) && !Faults(Stub(GDT_TABLE, PM_JUMP_CORRECTED))
  {
    PmJumpAsWritten();
    PmJumpCorrected();
    assert Entry(GDT_TABLE_CORRECTED, 8) == Descriptor(0, 0xFFFFF, 0x9A, 0xC);
  }

  /** With PE set, a runnable stub's protected-mode jump either faults or enters 0x8:0x8060 in 32-bit code. */
  lemma PmJumpOutcome(stub: Stub, cr0: nat)
    requires Runnable(stub) && cr0 % 2 == 1
    ensures ModeAfterJump(cr0, stub.gdt, PmTarget(stub).value.selector) == (if Faults(stub) then Faulted else Protected32)
    ensures !Faults(stub) ==> PmTarget(stub).value == FarPointer(8, L8060)
  {
  }

  // ---------------------------------------------------------------- the stack

  /**
   * ESP after a four-byte push: on a 32-bit stack (B set) ESP drops by 4 modulo 2^32; on a
   * 16-bit one only SP drops, modulo 2^16, and ESP[31:16] is left as it was.
   */
  function PushedEsp(esp: nat, big: bool): nat
  {
    if big then (esp - 4) % U32_MODULUS
    else esp - esp % U16_MODULUS + (esp % U16_MODULUS - 4) % U16_MODULUS
  }

  /** The linear address a push writes: the segment base plus ESP, or plus SP on a 16-bit stack. */
  function StackAddress(base: nat, esp: nat, big: bool): nat
  {
    (base + (if big then esp else esp % U16_MODULUS)) % U32_MODULUS
  }

  /** A 16-bit push keeps ESP a 32-bit value. */
  lemma PushedEspBound(esp: nat, big: bool)
    requires esp < U32_MODULUS
    ensures PushedEsp(esp, big) < U32_MODULUS
  {
    if !big {
      var q := esp / U16_MODULUS;
      assert esp - esp % U16_MODULUS == q * U16_MODULUS;
      assert q < U16_MODULUS;
      assert q * U16_MODULUS <= (U16_MODULUS - 1) * U16_MODULUS;
    }
  }

  /**
   * As assembled, SS names a 16-bit stack segment: the push of the APIC ID lands in the
   * first 64 KiB whatever STACK_TOP is. With STACK_TOP = 0x10_0000 the core with APIC ID 0
   * ends with ESP = 0x10_FFFC, 64 KiB above its stack top, and writes its ID at 0xFFFC.
   */
  lemma StackPushAsWritten(stackTop: nat, apicId: nat)
    ensures !Is32Bit(GDT_TABLE, 16) && SegmentBase(GDT_TABLE, 16) == 0
    ensures StackAddress(0, PushedEsp(ApStackPointer(stackTop, apicId), false), false) < U16_MODULUS
    ensures PushedEsp(ApStackPointer(0x10_0000, 0), false) == 0x10_FFFC
    ensures StackAddress(0, 0x10_FFFC, false) == 0xFFFC
  {
    GdtEntries();
  }

  /**
   * With the data descriptor's flags 0xC, SS names a 32-bit stack: ESP drops by exactly 4
   * from the per-core stack pointer and the ID is written at the new ESP. Only that
   * descriptor's flags differ from the table as assembled.
   */
  lemma StackPushCorrected(stackTop: nat, apicId: nat)
    ensures Is32Bit(GDT_TABLE_CORRECTED, 16) && SegmentBase(GDT_TABLE_CORRECTED, 16) == 0
    ensures var esp := PushedEsp(ApStackPointer(stackTop, apicId), true);
      esp == (ApStackPointer(stackTop, apicId) - 4) % U32_MODULUS && StackAddress(0, esp, true) == esp
    ensures Entry(GDT_TABLE_CORRECTED, 16) == Entry(GDT_TABLE, 16).(flags := 0xC)
    ensures |GDT_TABLE_CORRECTED| == |GDT_TABLE| && forall i :: 0 <= i < |GDT_TABLE| && i != 2 ==> GDT_TABLE_CORRECTED[i] == GDT_TABLE[i]
  {
    GdtEntries();
    assert Entry(GDT_TABLE_CORRECTED, 16) == Descriptor(0, 0xFFFFF, 0x92, 0xC);
  }

  // ---------------------------------------------------------------- the machine

  /** `Faulted`: the core took a fault the stub does not handle and runs none of the stub's remaining code. */
  datatype Mode = RealMode | Protected16 | Protected32 | Faulted

  /** The value of a named memory cell (0 when the map has no entry). */
  function Symbol(memory: map<string, nat>, name: string): nat
  {
    if name in memory then memory[name] else 0
  }

  /**
   * The mode after a far jump: real mode until CR0.PE is set; then a fault unless the
   * selector names a code segment, and otherwise that descriptor's size.
   */
  function ModeAfterJump(cr0: nat, gdt: seq<(bv32, bv32)>, selector: nat): Mode
  {
    if cr0 % 2 == 0 then RealMode
    else if !IsCode(gdt, selector) then Faulted
    else if Is32Bit(gdt, selector) then Protected32
    else Protected16
  }

  function Pow2(n: nat): (r: nat)
    ensures r >= 1
  {
    if n == 0 then 1 else 2 * Pow2(n - 1)
  }

  /** The two shift counts the stub uses. */
  lemma ShiftFactors()
    ensures Pow2(15) == 0x8000 && Pow2(24) == 0x100_0000
  {
    assert Pow2(4) == 16;
    assert Pow2(8) == 256 by { assert Pow2(6) == 64; }
    assert Pow2(12) == 0x1000 by { assert Pow2(10) == 0x400; }
    assert Pow2(15) == 0x8000 by { assert Pow2(14) == 0x4000; }
    assert Pow2(20) == 0x10_0000 by { assert Pow2(16) == 0x1_0000; assert Pow2(18) == 0x4_0000; }
    assert Pow2(24) == 0x100_0000 by { assert Pow2(22) == 0x40_0000; }
  }

  /** A right shift never makes a register larger. */
  lemma QuotientAtMost(a: nat, b: nat)
    requires b >= 1
    ensures 0 <= a / b <= a
  {
    var q := a / b;
    assert q * b == q + q * (b - 1);
  }

  /** `shr ebx, 24` leaves the APIC ID, a byte. */
  lemma ApicIdShift(leafEbx: nat)
    requires leafEbx < U32_MODULUS
    ensures leafEbx / Pow2(24) == leafEbx / 0x100_0000 < 0x100
  {
    ShiftFactors();
  }

  /** `shl ebx, 15` multiplies a byte by 0x8000 without wrapping. */
  lemma ScaleFits(id: nat)
    requires id < 0x100
    ensures id * Pow2(15) % U32_MODULUS == id * 0x8000
  {
    ShiftFactors();
    assert id * 0x8000 < 0x100 * 0x8000;
  }

  /** The per-core stack pointer the stub computes before its push. */
  function ApStackPointer(stackTop: nat, apicId: nat): nat
  {
    (stackTop % U32_MODULUS - apicId * 0x8000) % U32_MODULUS
  }

  /**
   * An application processor's registers and the memory cells the stub names. 32-bit
   * registers hold naturals below 2^32; `stack` lists each push as the linear address
   * written and the value; `memory` maps a linker symbol to the value stored there;
   * `stub` is the trampoline's GDT and protected-mode jump.
   */
  class ApCore {
    const stub: Stub
    var mode: Mode
    var interruptsEnabled: bool
    var directionFlag: bool
    var cs: nat
    /** The target of the last jump taken: straight-line instructions do not advance it. */
    var eip: nat
    var ds: nat
    var ss: nat
    var eax: nat
    var ebx: nat
    var edi: nat
    var esp: nat
    var cr0: nat
    var cr3: nat
    var cr4: nat
    var efer: nat
    var gdtr: (nat, nat)
    var stack: seq<(nat, nat)>
    var memory: map<string, nat>

    ghost predicate Registers32()
      reads this
    {
      eax < U32_MODULUS && ebx < U32_MODULUS && edi < U32_MODULUS && esp < U32_MODULUS && cr0 < U32_MODULUS
    }

    /** A processor just started by a startup IPI with vector 8: real mode at 0x0800:0000, running `stub`. */
    constructor (stub: Stub, cr0: nat, cr3: nat, cr4: nat, efer: nat, memory: map<string, nat>)
      requires cr0 < U32_MODULUS && cr0 % 2 == 0
      ensures Registers32() && mode == RealMode && this.stub == stub && this.cr0 == cr0 && this.cr3 == cr3
      ensures this.cr4 == cr4 && this.efer == efer && this.memory == memory && stack == []
      ensures cs == Multicore.TRAMPOLINE_VECTOR as nat * 0x100 && eip == 0
    {
      this.stub := stub;
      mode := RealMode;
      interruptsEnabled := true;
      directionFlag := false;
      cs := Multicore.TRAMPOLINE_VECTOR as nat * 0x100;
      eip := 0;
      ds := 0;
      ss := 0;
      eax := 0;
      ebx := 0;
      edi := 0;
      esp := 0;
      this.cr0 := cr0;
      this.cr3 := cr3;
      this.cr4 := cr4;
      this.efer := efer;
      gdtr := (0, 0);
      stack := [];
      this.memory := memory;
    }

    // One method per instruction; each may change only the registers it names.

    method Cli()
      modifies this`interruptsEnabled
      ensures !interruptsEnabled
    {
      interruptsEnabled := false;
    }

    method Cld()
      modifies this`directionFlag
      ensures !directionFlag
    {
      directionFlag := false;
    }

    /**
     * `jmp selector:offset`. In protected mode a selector that names no code segment
     * faults before CS:EIP change; otherwise the target descriptor decides the code size.
     */
    method JmpFar(target: FarPointer)
      modifies this`cs, this`eip, this`mode
      ensures mode == ModeAfterJump(cr0, stub.gdt, target.selector)
      ensures mode == Faulted ==> cs == old(cs) && eip == old(eip)
      ensures mode != Faulted ==> cs == target.selector && eip == target.offset
    {
      mode := ModeAfterJump(cr0, stub.gdt, target.selector);
      if mode != Faulted {
        cs := target.selector;
        eip := target.offset;
      }
    }

    method XorAxAx()
      requires Registers32()
      modifies this`eax
      ensures Registers32() && eax == old(eax) / U16_MODULUS * U16_MODULUS
    {
      eax := eax / U16_MODULUS * U16_MODULUS;
    }

    method MovAxImm(imm: nat)
      requires Registers32() && imm < U16_MODULUS
      modifies this`eax
      ensures Registers32() && eax == old(eax) / U16_MODULUS * U16_MODULUS + imm
    {
      eax := eax / U16_MODULUS * U16_MODULUS + imm;
    }

    method MovEaxImm(imm: nat)
      requires Registers32() && imm < U32_MODULUS
      modifies this`eax
      ensures Registers32() && eax == imm
    {
      eax := imm;
    }

    method MovDsAx()
      modifies this`ds
      ensures ds == eax % U16_MODULUS
    {
      ds := eax % U16_MODULUS;
    }

    method MovSsAx()
      modifies this`ss
      ensures ss == eax % U16_MODULUS
    {
      ss := eax % U16_MODULUS;
    }

    /** `lgdt [gdtr]`: the six bytes at 0x8030 hold the limit and base of the table. */
    method Lgdt()
      modifies this`gdtr
      ensures gdtr == (GDT_LIMIT, GDT_BASE)
    {
      gdtr := (GDT_LIMIT, GDT_BASE);
    }

    method MovEaxCr0()
      requires Registers32()
      modifies this`eax
      ensures Registers32() && eax == cr0
    {
      eax := cr0;
    }

    /** `or eax, 1`. */
    method OrEaxOne()
      requires Registers32()
      modifies this`eax
      ensures Registers32() && eax % 2 == 1 && eax / 2 == old(eax) / 2
    {
      if eax % 2 == 0 {
        eax := eax + 1;
      }
    }

    method MovCr0Eax()
      requires Registers32()
      modifies this`cr0
      ensures Registers32() && cr0 == eax
    {
      cr0 := eax;
    }

    /** `cpuid` for leaf 1: EAX and EBX get the leaf's values (ECX and EDX are not tracked). */
    method Cpuid(leafEax: nat, leafEbx: nat)
      requires Registers32() && leafEax < U32_MODULUS && leafEbx < U32_MODULUS
      modifies this`eax, this`ebx
      ensures Registers32() && eax == leafEax && ebx == leafEbx
    {
      eax := leafEax;
      ebx := leafEbx;
    }

    method ShrEbx(n: nat)
      requires Registers32()
      modifies this`ebx
      ensures Registers32() && ebx == old(ebx) / Pow2(n)
    {
      var d := Pow2(n);
      QuotientAtMost(ebx, d);
      ebx := ebx / d;
    }

    method ShlEbx(n: nat)
      requires Registers32()
      modifies this`ebx
      ensures Registers32() && ebx == old(ebx) * Pow2(n) % U32_MODULUS
    {
      ebx := ebx * Pow2(n) % U32_MODULUS;
    }

    method MovEdiEbx()
      requires Registers32()
      modifies this`edi
      ensures Registers32() && edi == ebx
    {
      edi := ebx;
    }

    /** `mov esp, [name]`: a 32-bit load. */
    method MovEspFrom(name: string)
      requires Registers32()
      modifies this`esp
      ensures Registers32() && esp == Symbol(memory, name) % U32_MODULUS
    {
      esp := Symbol(memory, name) % U32_MODULUS;
    }

    method SubEspEbx()
      requires Registers32()
      modifies this`esp
      ensures Registers32() && esp == (old(esp) - ebx) % U32_MODULUS
    {
      esp := (esp - ebx) % U32_MODULUS;
    }

    /** `push edi`: four bytes, with ESP or SP as the descriptor SS names says. */
    method PushEdi()
      requires Registers32()
      modifies this`esp, this`stack
      ensures Registers32() && esp == PushedEsp(old(esp), Is32Bit(stub.gdt, ss))
      ensures stack == old(stack) + [(StackAddress(SegmentBase(stub.gdt, ss), esp, Is32Bit(stub.gdt, ss)), edi)]
    {
      PushedEspBound(esp, Is32Bit(stub.gdt, ss));
      esp := PushedEsp(esp, Is32Bit(stub.gdt, ss));
      stack := stack + [(StackAddress(SegmentBase(stub.gdt, ss), esp, Is32Bit(stub.gdt, ss)), edi)];
    }

    /**
     * `pause; cmp byte ptr [bspdone], 0; jz 1b`. `flagReads` are the values the loop finds
     * in the byte, one per pass (another core writes it); the loop leaves at the first
     * nonzero one, or is still spinning when the reads run out.
     */
    method SpinWhileZero(flagReads: seq<nat>) returns (passed: bool)
      ensures passed <==> exists i :: 0 <= i < |flagReads| && flagReads[i] % 0x100 != 0
    {
      var k := 0;
      while k < |flagReads|
        invariant 0 <= k <= |flagReads|
        invariant forall i :: 0 <= i < k ==> flagReads[i] % 0x100 == 0
      {
        if flagReads[k] % 0x100 != 0 {
          return true;
        }
        k := k + 1;
      }
      return false;
    }

    /** `lock inc byte ptr [name]`: one atomic byte increment, wrapping at 256. */
    method LockIncByte(name: string)
      modifies this`memory
      ensures memory == old(memory)[name := (Symbol(old(memory), name) + 1) % 0x100]
    {
      memory := memory[name := (Symbol(memory, name) + 1) % 0x100];
    }

    /** `.byte 0xEA; .long name; .word selector`: the symbol's address truncated to 32 bits. */
    method JmpFarTo(selector: nat, name: string)
      modifies this`cs, this`eip, this`mode
      ensures mode == ModeAfterJump(cr0, stub.gdt, selector)
      ensures mode == Faulted ==> cs == old(cs) && eip == old(eip)
      ensures mode != Faulted ==> cs == selector && eip == Symbol(memory, name) % U32_MODULUS
    {
      JmpFar(FarPointer(selector, Symbol(memory, name) % U32_MODULUS));
    }

    /**
     * The stub, from `ap_init` to the jump to `ap_startup`. From real mode, whatever CR3,
     * CR4 and EFER hold (they are never written):
     * - interrupts go off, DF is cleared, the GDTR is (31, 0x8010) and CR0 gains PE;
     * - when the protected-mode jump loads no code segment (the stub as assembled), the
     *   core faults there: CS:EIP keep the last jump target 0:0x8040, DS is 0, and the stack, ESP, SS and
     *   memory are as they were; `apprunning` is never incremented;
     * - otherwise the core is in 32-bit protected mode with DS = SS = 16; the APIC ID is
     *   CPUID.1:EBX[31:24]; ESP is STACK_TOP - 0x8000 * ID less the four bytes of the pushed
     *   ID, taken on ESP or on SP as the data descriptor's B flag says, and the ID is written
     *   at that address; the byte `apprunning` goes up by one exactly when the done flag was
     *   seen nonzero, and nothing else in memory changes.
     */
    method ApInit(leafEax: nat, leafEbx: nat, flagReads: seq<nat>) returns (started: bool)
      requires Registers32() && mode == RealMode && cr0 % 2 == 0 && Runnable(stub)
      requires leafEax < U32_MODULUS && leafEbx < U32_MODULUS
      modifies this
      ensures Registers32() && !interruptsEnabled && !directionFlag
      ensures gdtr == (31, 0x8010) && cr0 == old(cr0) + 1
      ensures cr3 == old(cr3) && cr4 == old(cr4) && efer == old(efer)
      ensures Faults(stub) ==> mode == Faulted && !started && cs == 0 && eip == 0x8040 && ds == 0
      ensures Faults(stub) ==> ss == old(ss) && esp == old(esp) && stack == old(stack) && memory == old(memory)
      ensures !Faults(stub) ==> mode == Protected32 && ds == 16 && ss == 16
      ensures !Faults(stub) ==>
        var id := leafEbx / 0x100_0000;
        var big := Is32Bit(stub.gdt, 16);
        esp == PushedEsp(ApStackPointer(Symbol(old(memory), "STACK_TOP"), id), big)
        && stack == old(stack) + [(StackAddress(SegmentBase(stub.gdt, 16), esp, big), id)]
      ensures !Faults(stub) ==> (started <==> exists i :: 0 <= i < |flagReads| && flagReads[i] % 0x100 != 0)
      ensures !Faults(stub) && started ==> cs == 8 && eip == Symbol(old(memory), "ap_startup") % U32_MODULUS
      ensures !Faults(stub) && started ==> memory == old(memory)["apprunning" := (Symbol(old(memory), "apprunning") + 1) % 0x100]
      ensures !Faults(stub) && !started ==> cs == 8 && eip == L8060 && memory == old(memory)
    {
      EnterProtectedMode();
      if mode == Faulted {
        return false;
      }
      started := RunProtected(leafEax, leafEbx, flagReads);
    }

    /** `_L8060` to the jump to `ap_startup`, entered in 32-bit protected mode at 0x8:0x8060. */
    method RunProtected(leafEax: nat, leafEbx: nat, flagReads: seq<nat>) returns (started: bool)
      requires Registers32() && mode == Protected32 && cs == 8 && eip == L8060 && cr0 % 2 == 1
      requires IsCode(stub.gdt, 8) && Is32Bit(stub.gdt, 8)
      requires leafEax < U32_MODULUS && leafEbx < U32_MODULUS
      modifies this`eax, this`ebx, this`edi, this`esp, this`ds, this`ss, this`stack, this`memory
      modifies this`cs, this`eip, this`mode
      ensures Registers32() && mode == Protected32 && ds == 16 && ss == 16
      ensures
        var id := leafEbx / 0x100_0000;
        var big := Is32Bit(stub.gdt, 16);
        esp == PushedEsp(ApStackPointer(Symbol(old(memory), "STACK_TOP"), id), big)
        && stack == old(stack) + [(StackAddress(SegmentBase(stub.gdt, 16), esp, big), id)]
      ensures started <==> exists i :: 0 <= i < |flagReads| && flagReads[i] % 0x100 != 0
      ensures started ==> cs == 8 && eip == Symbol(old(memory), "ap_startup") % U32_MODULUS
      ensures started ==> memory == old(memory)["apprunning" := (Symbol(old(memory), "apprunning") + 1) % 0x100]
      ensures !started ==> cs == 8 && eip == L8060 && memory == old(memory)
    {
      SetUpStack(leafEax, leafEbx);
      started := SpinWhileZero(flagReads);
      if !started {
        return;
      }
      LockIncByte("apprunning");
      JmpFarTo(8, "ap_startup");
    }

    /** `ap_init` and `_L8040`: real mode up to the jump into protected mode. */
    method EnterProtectedMode()
      requires Registers32() && mode == RealMode && cr0 % 2 == 0 && Runnable(stub)
      modifies this`interruptsEnabled, this`directionFlag, this`cs, this`eip, this`mode
      modifies this`eax, this`ds, this`gdtr, this`cr0
      ensures Registers32() && !interruptsEnabled && !directionFlag && ds == 0
      ensures gdtr == (GDT_LIMIT, GDT_BASE) && cr0 == old(cr0) + 1
      ensures mode == (if Faults(stub) then Faulted else Protected32)
      ensures Faults(stub) ==> cs == 0 && eip == 0x8040
      ensures !Faults(stub) ==> cs == 8 && eip == L8060
    {
      Cli();
      Cld();
      JmpFar(FarPointer(0, 0x8040));
      LoadGdtAndSetPe();
      PmJumpOutcome(stub, cr0);
      JmpFar(PmTarget(stub).value);
    }

    /** `_L8040` up to the far jump: DS cleared, the GDT loaded, CR0.PE set. */
    method LoadGdtAndSetPe()
      requires Registers32() && cr0 % 2 == 0
      modifies this`eax, this`ds, this`gdtr, this`cr0
      ensures Registers32() && ds == 0 && gdtr == (GDT_LIMIT, GDT_BASE) && cr0 == old(cr0) + 1
    {
      XorAxAx();
      MovDsAx();
      Lgdt();
      MovEaxCr0();
      OrEaxOne();
      MovCr0Eax();
    }

    /** `_L8060`: DS and SS get selector 16, the flat data segment. */
    method LoadDataSegments()
      requires Registers32()
      modifies this`eax, this`ds, this`ss
      ensures Registers32() && ds == 16 && ss == 16
    {
      MovAxImm(16);
      MovDsAx();
      MovSsAx();
    }

    /** `_L8060`: data segments, the APIC ID and the per-core stack. */
    method SetUpStack(leafEax: nat, leafEbx: nat)
      requires Registers32() && leafEax < U32_MODULUS && leafEbx < U32_MODULUS
      modifies this`eax, this`ebx, this`edi, this`esp, this`ds, this`ss, this`stack
      ensures Registers32() && ds == 16 && ss == 16
      ensures esp == PushedEsp(ApStackPointer(Symbol(memory, "STACK_TOP"), leafEbx / 0x100_0000), Is32Bit(stub.gdt, 16))
      ensures stack == old(stack) + [(StackAddress(SegmentBase(stub.gdt, 16), esp, Is32Bit(stub.gdt, 16)), leafEbx / 0x100_0000)]
    {
      LoadDataSegments();
      ReadApicId(leafEax, leafEbx);
      ScaleApicId();
      PushStack();
    }

    /** `mov eax, 1`, `cpuid`, `shr ebx, 24`, `mov edi, ebx`: EBX and EDI get the APIC ID. */
    method ReadApicId(leafEax: nat, leafEbx: nat)
      requires Registers32() && leafEax < U32_MODULUS && leafEbx < U32_MODULUS
      modifies this`eax, this`ebx, this`edi
      ensures Registers32() && ebx == edi == leafEbx / 0x100_0000 && ebx < 0x100
    {
      ApicIdShift(leafEbx);
      MovEaxImm(1);
      Cpuid(leafEax, leafEbx);
      ShrEbx(24);
      MovEdiEbx();
    }

    /** `shl ebx, 15`: the APIC ID times the 0x8000-byte stack size. */
    method ScaleApicId()
      requires Registers32() && ebx < 0x100
      modifies this`ebx
      ensures Registers32() && ebx == old(ebx) * 0x8000
    {
      ScaleFits(ebx);
      ShlEbx(15);
    }

    /** `mov esp, [STACK_TOP]`, `sub esp, ebx`, `push edi`. */
    method PushStack()
      requires Registers32() && ebx % 0x8000 == 0
      modifies this`esp, this`stack
      ensures Registers32()
      ensures esp == PushedEsp(ApStackPointer(Symbol(memory, "STACK_TOP"), ebx / 0x8000), Is32Bit(stub.gdt, ss))
      ensures stack == old(stack) + [(StackAddress(SegmentBase(stub.gdt, ss), esp, Is32Bit(stub.gdt, ss)), edi)]
    {
      MovEspFrom("STACK_TOP");
      SubEspEbx();
      assert esp == ApStackPointer(Symbol(memory, "STACK_TOP"), ebx / 0x8000);
      PushEdi();
    }
  }

  /**
   * The stub spins on and increments the lower-case symbols `bspdone` and `apprunning`,
   * not the `BSPDONE` and `APPRUNNING` statics the kernel defines: the increment leaves
   * those two cells as they were.
   */
  lemma LowerCaseSymbols(memory: map<string, nat>)
    ensures var after := memory["apprunning" := (Symbol(memory, "apprunning") + 1) % 0x100];
      Symbol(after, "APPRUNNING") == Symbol(memory, "APPRUNNING")
      && Symbol(after, "BSPDONE") == Symbol(memory, "BSPDONE")
      && Symbol(after, "apprunning") == (Symbol(memory, "apprunning") + 1) % 0x100
  {
    assert "apprunning" != "APPRUNNING" by { assert "apprunning"[0] != "APPRUNNING"[0]; }
    assert "apprunning" != "BSPDONE" by { assert "apprunning"[0] != "BSPDONE"[0]; }
  }

  /**
   * With `STACK_TOP` set by `init_stack_top` (8 bytes past the start of `AP_STACKS`) and
   * the array below 4 GiB, only the core with APIC ID 0 gets a stack pointer inside the
   * array; every other core's ESP lies below `AP_STACKS`.
   */
  lemma StackOutsideArray(apStacks: nat, apicId: nat)
    requires apStacks >= 0x8000 * 0x100 && Multicore.ApStacksEnd(apStacks) < U32_MODULUS && apicId < 0x100
    ensures var esp := ApStackPointer(Multicore.StackTopValue(apStacks), apicId);
      (apicId == 0 ==> esp == apStacks + 8)
      && (apicId >= 1 ==> esp < apStacks)
  {
  }
}
