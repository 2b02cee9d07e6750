/**
 * The kernel's large-allocation side table (kernel/src/allocator/alloc_info.rs): a fixed
 * array of 512 optional (address, page count) records, filled first-empty-first and never
 * checked for duplicate addresses.
 */
module AllocInfo {
  import opened Common

  const LARGE_ALLOC_SLOTS: nat := 512

  datatype AllocationInfo = AllocationInfo(numPages: nat)

  datatype LargeAlloc = LargeAlloc(addr: nat, info: AllocationInfo)

  /** The lowest index at or after `from` whose slot is empty. */
  function FirstEmpty(slots: seq<Option<LargeAlloc>>, from: nat): (r: Option<nat>)
    ensures r.Some? ==> from <= r.value < |slots| && slots[r.value].None?
                        && forall j :: from <= j < r.value ==> slots[j].Some?
    ensures r.None? ==> forall j :: from <= j < |slots| ==> slots[j].Some?
    decreases |slots| - from
  {
    if from >= |slots| then None
    else if slots[from].None? then Some(from)
    else FirstEmpty(slots, from + 1)
  }

  /** `large_alloc_insert`: the new table, or None for the "LARGE_ALLOCS is full!" panic. */
  function InsertSpec(slots: seq<Option<LargeAlloc>>, addr: nat, info: AllocationInfo): Option<seq<Option<LargeAlloc>>>
  {
    match FirstEmpty(slots, 0)
    case None => None
    case Some(i) => Some(slots[i := Some(LargeAlloc(addr, info))])
  }

  /**
   * Insertion panics exactly when every slot is taken. Otherwise it writes the record into
   * the lowest empty slot and changes nothing else; an address already present does not
   * stop it.
   */
  lemma InsertFillsLowestEmpty(slots: seq<Option<LargeAlloc>>, addr: nat, info: AllocationInfo)
    ensures InsertSpec(slots, addr, info).None? <==> forall j :: 0 <= j < |slots| ==> slots[j].Some?
    ensures InsertSpec(slots, addr, info).Some? ==>
      var s' := InsertSpec(slots, addr, info).value;
      |s'| == |slots|
      && exists i :: 0 <= i < |slots| && slots[i].None? && (forall j :: 0 <= j < i ==> slots[j].Some?)
                     && s'[i] == Some(LargeAlloc(addr, info))
                     && forall j :: 0 <= j < |slots| && j != i ==> s'[j] == slots[j]
  {
    var r := FirstEmpty(slots, 0);
    if r.Some? {
      var s' := InsertSpec(slots, addr, info).value;
      assert s'[r.value] == Some(LargeAlloc(addr, info));
    }
  }

  /** A record that was in the table stays in it after an insertion. */
  lemma InsertKeepsRecords(slots: seq<Option<LargeAlloc>>, addr: nat, info: AllocationInfo, j: nat)
    requires j < |slots| && slots[j].Some?
    requires InsertSpec(slots, addr, info).Some?
    ensures InsertSpec(slots, addr, info).value[j] == slots[j]
  {
  }

  /** `LARGE_ALLOCS`: 512 slots, all empty at start. */
  class LargeAllocTable {
    const slots: array<Option<LargeAlloc>>

    constructor ()
      ensures fresh(slots) && slots.Length == LARGE_ALLOC_SLOTS
      ensures forall i :: 0 <= i < slots.Length ==> slots[i] == None
    {
      slots := new Option<LargeAlloc>[LARGE_ALLOC_SLOTS](_ => None);
    }

    /** `large_alloc_insert`: the scan for the first empty slot; false where the source panics. */
    method Insert(addr: nat, info: AllocationInfo) returns (ok: bool)
      modifies slots
      ensures ok == InsertSpec(old(slots[..]), addr, info).Some?
      ensures ok ==> slots[..] == InsertSpec(old(slots[..]), addr, info).value
      ensures !ok ==> slots[..] == old(slots[..])
    {
      var i := 0;
      while i < slots.Length
        invariant 0 <= i <= slots.Length
        invariant forall j :: 0 <= j < i ==> slots[j].Some?
      {
        if slots[i].None? {
          assert FirstEmpty(slots[..], 0) == Some(i) by { FirstEmptyIs(slots[..], 0, i); }
          slots[i] := Some(LargeAlloc(addr, info));
          return true;
        }
        i := i + 1;
      }
      assert FirstEmpty(slots[..], 0) == None;
      ok := false;
    }
  }

  lemma {:induction false} FirstEmptyIs(slots: seq<Option<LargeAlloc>>, from: nat, i: nat)
    requires from <= i < |slots| && slots[i].None? && forall j :: from <= j < i ==> slots[j].Some?
    ensures FirstEmpty(slots, from) == Some(i)
    decreases i - from
  {
    if from < i {
      FirstEmptyIs(slots, from + 1, i);
    }
  }
}
