/**
 * A bank of memory-mapped registers of one width (the local APIC's u32 slots, the I/O APIC
 * window, the HPET's u64 slots), together with the order in which it was written.
 * Volatile reads and writes become reads and updates of the array; the write log lets
 * the register sequences of the bring-up code be stated and compared.
 */
module Mmio {
  class RegisterFile<T> {
    const regs: array<T>
    var writes: seq<(nat, T)>

    constructor (init: seq<T>)
      ensures fresh(regs) && regs[..] == init && writes == []
    {
      regs := new T[|init|](i requires 0 <= i < |init| => init[i]);
      writes := [];
    }

    /** `write_volatile` to slot `slot`. */
    method Write(slot: nat, v: T)
      requires slot < regs.Length
      modifies this, regs
      ensures regs[..] == old(regs[..])[slot := v]
      ensures writes == old(writes) + [(slot, v)]
    {
      regs[slot] := v;
      writes := writes + [(slot, v)];
    }
  }
}
