/**
 * The part of a process's address space the driver touches: a mapping
 * region (struct vm_area_struct) created by mmap on the privcmd device, and
 * the opaque payload the driver attaches to it (vm_private_data).
 */
module Mm {
  import opened Kernel

  /**
   * vm_private_data of a privcmd region: unset (NULL), the PRIV_VMA_LOCKED
   * marker, or the array of placeholder pages allocated for an
   * auto-translated guest, each given by its kernel page frame (the
   * hypercalls see them through page_to_xen_pfn).
   */
  datatype Payload = Unset | Locked | Pages(frames: seq<int>)

  /**
   * A mapping region [start, end). `privcmd` says whether its operations
   * are privcmd's own (vm_ops == &privcmd_vm_ops), that is, whether it was
   * created by mmap on this device.
   */
  datatype Vma = Vma(start: U64, end: U64, privcmd: bool, payload: Payload) {
    predicate Valid() {
      start < end
    }

    function WithPayload(p: Payload): (v: Vma)
      ensures v.start == start && v.end == end && v.privcmd == privcmd
      ensures v.payload == p
    {
      this.(payload := p)
    }
  }
}
