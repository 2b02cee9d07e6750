/**
 * The page-table mapper the kernel uses through the `x86_64` crate's `Mapper` trait,
 * reduced to what the allocators and mapping loops observe: a partial map from 4 KiB
 * page start addresses to frame start addresses. `map_to` refuses a page that is already
 * mapped, `unmap` refuses a page that is not.
 */
module Paging {
  import opened Common

  datatype MapToError = FrameAllocationFailed | PageAlreadyMapped(frame: nat)

  datatype UnmapError = PageNotMapped

  class PageTable {
    var entries: map<nat, nat>

    constructor (entries: map<nat, nat>)
      ensures this.entries == entries
    {
      this.entries := entries;
    }

    /** `translate_page`: the frame a page is mapped to, if any. */
    function Translate(page: nat): (r: Option<nat>)
      reads this
      ensures r.Some? <==> page in entries
      ensures r.Some? ==> r.value == entries[page]
    {
      if page in entries then Some(entries[page]) else None
    }

    /** `map_to`: None on success. */
    method MapTo(page: nat, frame: nat) returns (err: Option<MapToError>)
      modifies this
      ensures page in old(entries) ==> err == Some(PageAlreadyMapped(old(entries)[page])) && entries == old(entries)
      ensures page !in old(entries) ==> err == None && entries == old(entries)[page := frame]
    {
      if page in entries {
        err := Some(PageAlreadyMapped(entries[page]));
      } else {
        entries := entries[page := frame];
        err := None;
      }
    }

    /** `unmap`: the frame the page was mapped to. */
    method Unmap(page: nat) returns (r: Result<nat, UnmapError>)
      modifies this
      ensures page !in old(entries) ==> r == Err(PageNotMapped) && entries == old(entries)
      ensures page in old(entries) ==> r == Ok(old(entries)[page]) && entries == old(entries) - {page}
    {
      if page in entries {
        r := Ok(entries[page]);
        entries := entries - {page};
      } else {
        r := Err(PageNotMapped);
      }
    }
  }
}
