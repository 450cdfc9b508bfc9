# privcmd: a Dafny model of the Xen privileged-command driver's decision logic

`privcmd.c` is the Linux driver behind `/dev/xen/privcmd`. A toolstack or
device model uses it to issue hypercalls and to map a guest's memory into
its own address space. Underneath the kernel plumbing sit several
self-contained decision procedures. This project models them as pure
functions over immutable data, plus a few small methods where the driver
loops, and proves what they promise:

- **Paging** (`paging.dfy`). The paged staging of user arrays:
  - `gather_array` packs `PAGE_SIZE / size` records per page;
  - `traverse_pages` walks the list record by record;
  - `traverse_pages_block` walks it one page-sized block at a time.

  A page list is a `seq<seq<T>>`. `Chunk` is the reference packing, and
  `Walk` is the reference record walk that stops at the first non-zero
  result.
- **Restriction** (`restriction.dfy`). The per-handle domain restriction,
  `IOCTL_PRIVCMD_RESTRICT`, and the `HYPERCALL` refusal.
- **LegacyMmap** (`legacy_mmap.dfy`). `IOCTL_PRIVCMD_MMAP` with
  `mmap_gfn_range`: entries must tile the region contiguously, without
  wrapping.
- **MmapBatch** (`mmap_batch.dfy`) and **V1Markers** (`markers.dfy`). The two
  passes of `IOCTL_PRIVCMD_MMAPBATCH(_V2)`:
  - `mmap_batch_fn` folds each block's outcome into the tri-state
    `global_error`;
  - `mmap_return_error(s)` writes per-entry failures back to the caller, as
    a marker ORed into the gfn (V1) or as the error code (V2);
  - the result rule combines the two.
- **BatchIoctl** (`batch_ioctl.dfy`). `privcmd_ioctl_mmap_batch` itself:
  - request validation;
  - the rule that a fresh region must be covered exactly, while a populated
    one needs an unmapped hole;
  - the V2 `clear_user`;
  - the composition of the passes.
- **DmOp** (`dm_op.dfy`). `IOCTL_PRIVCMD_DM_OP`: buffer limits, the per-buffer
  page count, and the resumable pinning loop `lock_pages`. The driver's one
  loop, which stays on a buffer after a short count (`i += !off`), is written
  as `LockPages` over the buffers, each pinned by the recursive `PinRest`,
  which resumes at the page offset reached.
- **MmapResource** (`mmap_resource.dfy`). `IOCTL_PRIVCMD_MMAP_RESOURCE`:
  - the "addr and num both set or both unset" rule;
  - the size query;
  - the auto-translated pfn layout;
  - the selection of the result code.
- **Ioeventfd** (`ioeventfd.dfy`). `ioeventfd_interrupt`, which matches a
  pending MMIO write against the registered virtqueue notifications. Also the
  channel registry of `privcmd_ioeventfd_assign`, `get_ioreq` and
  `privcmd_ioeventfd_deassign`.
- **Irqfd** (`irqfd.dfy`). The irqfd registration list of
  `privcmd_irqfd_assign` and `privcmd_irqfd_deassign`, and what a wake-up
  does to a registration.
- **Kernel** (`kernel.dfy`) and **Mm** (`mm.dfy`). The shared vocabulary:
  - errno values and 64-bit wrap-around;
  - the page geometry, as `Platform(pfnPerPage, autoXlate)`, where
    `PAGE_SIZE = XEN_PAGE_SIZE * XEN_PFN_PER_PAGE`;
  - the mapping region: its bounds, whether it belongs to privcmd, and its
    payload (`vm_private_data`), which is unset, `PRIV_VMA_LOCKED` or a page
    array.

Everything outside the driver becomes a parameter:
- hypercalls (`xen_remap_*`, `HYPERVISOR_memory_op`, `HYPERVISOR_dm_op`,
  `privcmd_call`);
- user-memory copies;
- page allocation and pinning;
- `find_vma` and the page-table probe;
- eventfd lookup.

User-memory faults are modelled either as booleans or as "the first `n`
records are accessible" counts. Each hypercall parameter comes with a
well-formedness predicate stating what the driver relies on, for example
"one code per entry".

## Model

| member | source | states |
|---|---|---|
| Restriction.Open | privcmd.c:1545-1557 | a new handle is unrestricted and permits every domain |
| Restriction.Restrict | privcmd.c:713-728 | RESTRICT fails with -EFAULT on an unreadable argument and with -EINVAL when bound to another domain; it succeeds iff the handle permits the domain; failure and an already-bound handle leave the handle unchanged; on success the handle is restricted iff the domain is not DOMID_INVALID |
| Restriction.Hypercall | privcmd.c:76-97 | a restricted handle gets -EPERM before anything is read; otherwise -EFAULT on an unreadable request, else the hypercall's own result |
| Restriction.BindingIsPermanent | privcmd.c:721-725 | once bound, any sequence of later RESTRICT requests leaves the handle as it is |
| Restriction.FirstBindingWins | privcmd.c:721-725 | the first successful RESTRICT naming a real domain decides the binding for good |
| Restriction.RestrictOnBound | privcmd.c:721-727 | on a bound handle, re-restricting to the same domain returns 0 and changes nothing; another domain gives -EINVAL and changes nothing |
| Restriction.BoundRefusesOthers | privcmd.c:744-746 | after binding, the per-ioctl check refuses every other domain and accepts the bound one |
| Paging.Chunk | privcmd.c:128-148 | the reference packing flattens back to the input and is packed: non-empty pages of at most k records, all but the last full |
| Paging.PackedUnique | privcmd.c:128-148 | packing is unique: any packed page list is the packing of its own records, so Chunk and Flatten are inverse |
| Paging.SlotFull | privcmd.c:129-147 | with j records in the current page, the byte index j*size stays within the page, exceeds PAGE_SIZE - size exactly when the page holds PAGE_SIZE/size records, and divided by size names the next record's slot |
| Paging.GatherArray | privcmd.c:115-154 | size 0 or size > PAGE_SIZE gathers nothing and returns 0; otherwise it returns 0 iff every record is readable and enough pages can be allocated, then the pages are exactly Chunk(user, PAGE_SIZE/size); the earlier of the two failures decides -ENOMEM or -EFAULT; the partial list holds exactly the records copied before the failure, all pages but the last full |
| Paging.TraversePages | privcmd.c:160-190 | the page-by-page loop with its page index calls fn on the first nelem records in order and stops at the first non-zero result: it equals the reference Walk over the flattened records |
| Paging.BlockSizesSum | privcmd.c:206-218 | the block sizes the block walk hands out sum to nelem; each is positive and at most PAGE_SIZE/size; all but the last are exactly PAGE_SIZE/size |
| Paging.BlockSizesOfChunk | privcmd.c:206-218 | the block sizes of a walk over n records are the page sizes of the packing of those records |
| Paging.TraverseBlocksIsWalk | privcmd.c:196-221 | traverse_pages_block over a packed array calls fn once per page, in order, on the whole page, and stops at the first non-zero result |
| Paging.WalkFlatten | privcmd.c:196-221 | a block walk whose callback walks its block record by record equals the record walk over the whole array |
| Paging.WalkNeverFails | privcmd.c:160-190 | a walk whose callback always returns 0 visits every record and returns 0 |
| LegacyMmap.GfnRange | privcmd.c:229-257 | an entry is mapped iff its page count fits a long, the cursor is non-zero, the run does not reach the top of the address space, it starts at the cursor, it ends inside the region and the hypervisor accepts it; otherwise -EINVAL for each refused check (too many pages, wrap, cursor 0, non-contiguous start, beyond the region's end) or the hypervisor's own error; success advances the cursor by exactly npages pages and a failure leaves it |
| LegacyMmap.WalkTiles | privcmd.c:302-308 | a completed walk maps the entries back to back from the region's start, without gaps or overlaps, ending inside the region |
| LegacyMmap.TilesWalk | privcmd.c:229-257 | conversely, entries that tile a range inside the region from a non-zero start, each with a page count that fits a long and accepted by the hypervisor, are all mapped and the walk ends at the range's end |
| LegacyMmap.IoctlMmap | privcmd.c:259-318 | -ENOSYS on auto-translated guests, then -EFAULT, then -EPERM; then gather_array's -ENOMEM or -EFAULT; an empty request succeeds with nothing changed; -EINVAL with nothing changed when no region starts at the first entry's address or it already has a payload; otherwise the region is locked before the walk and stays locked, and the result is the first non-zero result of mapping the entries in order from the region's start (0 when all map); the region changed is that one, now locked; a successful non-empty request tiles the region with its entries, and entries that tile it from a non-zero start within the page-count bound always succeed |
| V1Markers.Markers.For | privcmd.c:392-394 | the V1 marker is the paged-out marker exactly when the error is -ENOENT, otherwise the generic one |
| MmapBatch.Classify | privcmd.c:360-369 | a full block leaves global_error alone; -ENOENT sets it to -ENOENT; any other shortfall sets 1 only if it was 0; the tri-state is preserved |
| MmapBatch.ClassifyAllSummary | privcmd.c:360-369 | after any sequence of blocks, global_error is -ENOENT iff it was or some block reported -ENOENT, otherwise 1 iff it was or some block fell short, otherwise 0, so -ENOENT is never downgraded |
| MmapBatch.BatchFn | privcmd.c:343-374 | one block: always returns 0; the block is remapped at the page holding the cursor (`st->va & PAGE_MASK`); the cursor advances by XEN_PAGE_SIZE per entry (mod 2^64) and the index by nr/XEN_PFN_PER_PAGE whatever the outcome; the block's report and codes are recorded; global_error is classified |
| MmapBatch.BatchWalkShape | privcmd.c:561-562 | the first pass never stops early and records one report and one page of codes per block, each the size of its block |
| MmapBatch.BatchWalkGlobalError | privcmd.c:561-562 | after the first pass, global_error is the fold of all block reports |
| MmapBatch.BatchWalkCursor | privcmd.c:370 | the first pass moves the cursor by XEN_PAGE_SIZE times the entry count, modulo 2^64 |
| MmapBatch.FirstPassFacts | privcmd.c:552-562 | from a fresh state, the codes are packed like the staged gfns with one code per gfn; global_error summarises the reports; the cursor ends num pages on |
| MmapBatch.ReturnError | privcmd.c:376-406 | a zero code only advances; a failure is ORed as a marker into the gfn (V1) or stored as the code (V2) at the current position, and nothing else changes; -EFAULT, with no change, exactly when a failure falls outside the caller's writable array |
| MmapBatch.ReturnErrorsWalk | privcmd.c:408-421 | the second pass reports every entry up to the first failure it cannot write back, and returns -EFAULT exactly when there is one |
| MmapBatch.SecondPassWalk | privcmd.c:570-571 | the block walk of the second pass is the entry-by-entry report over all codes |
| MmapBatch.Passes | privcmd.c:552-578 | the result is -ENOENT iff some block reported -ENOENT and the write-back completed; -EFAULT iff some block fell short and the write-back faulted; 0 otherwise, including when global_error is 1; the caller's arrays are touched only when global_error is set |
| MmapBatch.V2ReportsEveryCode | privcmd.c:500-506 | V2 with a zeroed, fully writable error array: never -EFAULT, the gfn array is untouched, and the error array ends holding exactly the per-entry codes when the second pass runs |
| MmapBatch.V1MarksEveryEntry | privcmd.c:380-397 | V1 with a fully writable gfn array: never -EFAULT, the error array is untouched; a mapped entry keeps its gfn and a failed one gets its marker ORed in |
| BatchIoctl.CheckRequest | privcmd.c:463-489 | the pre-checks pass iff the version is known, the header is readable, the result array is accessible, the handle permits the domain and 0 < num with the page count under LONG_MAX >> PAGE_SHIFT; an unknown version gives -EINVAL; with a known version, an unreadable header or inaccessible array gives -EFAULT, and then a refused domain gives -EPERM ahead of the num check |
| BatchIoctl.BoundHandleRefusesBatch | privcmd.c:484-485 | a handle bound to another domain refuses every batch, with -EPERM once the header and array check pass |
| BatchIoctl.AcceptRegion | privcmd.c:510-550 | accepted iff the region is privcmd's and either it is fresh, covered exactly and (auto-translated) its pages can be allocated, or it is populated, contains the range and nothing in the range is mapped; a fresh region gets its payload (page array or locked), a populated one is left unchanged; -ENOMEM exactly when allocation fails on a fresh one, -EINVAL otherwise; failures leave the region unchanged |
| BatchIoctl.FreshCoverageExact | privcmd.c:529-530 | accepting a fresh region means addr is its start and addr + nr_pages pages is exactly its end, with no wrap-around |
| BatchIoctl.PayloadSetOnce | privcmd.c:528-550 | once accepted, a second request keeps the payload; on the same range it succeeds iff no entry is mapped yet |
| BatchIoctl.ClearErrors | privcmd.c:500-505 | clear_user zeroes exactly the writable leading entries of the error array |
| BatchIoctl.NoFaultWhenWritable | privcmd.c:566-578 | when the array the version writes is fully writable, the passes never return -EFAULT |
| BatchIoctl.IoctlMmapBatch | privcmd.c:451-587 | pre-check failures pass through with nothing changed; then gather_array's -ENOMEM or -EFAULT, then V2 clear_user's -EFAULT (the writable leading entries zeroed), then the region's refusal, each leaving the region unchanged; only an unset region is given a payload; V1 never touches the error array and V2 never the gfn array; 0 or -ENOENT means every check passed and the region was accepted; on the full path the result is the two passes over the gathered gfns |
| DmOp.PagesOf | privcmd.c:675-677 | a buffer spans the fewest pages covering its in-page offset plus size; that is 0 exactly for an empty buffer at a page boundary |
| DmOp.ScanBufs | privcmd.c:664-678 | succeeds iff every buffer is within the size limit and accessible; the first bad buffer decides -E2BIG or -EFAULT; on success the page total is the sum of the per-buffer counts |
| DmOp.PinRest | privcmd.c:595-616 | resuming within one buffer: never positive; never pins more than the room left; success pins exactly the pages remaining; with enough room it never reports -ENOSPC |
| DmOp.PinAll | privcmd.c:589-620 | over the buffers from a given one on: never positive, never pins more than the slots left |
| DmOp.PinAllTotals | privcmd.c:589-620 | success pins exactly the total page count of those buffers; with room for that total the result is never -ENOSPC |
| DmOp.EmptyAlignedBufferFails | privcmd.c:599-608 | a zero-size buffer at a page boundary asks to pin 0 pages, so pinning fails |
| DmOp.LockPages | privcmd.c:589-620 | the loop over all buffers computes the reference PinAll |
| DmOp.IoctlDmOp | privcmd.c:627-711 | -EFAULT, then -EPERM, then 0 for no buffers, then -E2BIG for too many; then -ENOMEM if the buffer array cannot be allocated and -EFAULT if it cannot be copied; a failing validation loop is the result with nothing pinned, -E2BIG when the first refused buffer is oversized; -ENOMEM if the page or hypervisor arrays cannot be allocated; -ENOSPC only from the hypercall after pinning everything; never more pages pinned than counted; on the full path the result is the pinning failure or the hypercall's result |
| DmOp.ScanFirstFailure | privcmd.c:662-677 | the validation loop's result is decided by the first refused buffer: -E2BIG if it is oversized, -EFAULT otherwise |
| MmapResource.XenPfnsDecode | privcmd.c:790-795 | pfn i lies in page i / XEN_PFN_PER_PAGE at slot i % XEN_PFN_PER_PAGE |
| MmapResource.XenPfnsDistinct | privcmd.c:790-795 | distinct pages give distinct pfns for distinct entries |
| MmapResource.ScanErrors | privcmd.c:830-834 | the scan returns a negative code iff one occurs in the scanned range, and then it is the first such code |
| MmapResource.SelectResult | privcmd.c:825-836 | a negative count is the result; a full count gives 0; a short count gives an error iff one of the first count codes is negative, and the error is the first negative code; with none negative the result is the last code scanned (0 for a count of 0) |
| MmapResource.ShortfallReported | privcmd.c:825-836 | when the count is the number of successes and the last frame succeeded, a short count always yields an error |
| MmapResource.MmapResourceIoctl | privcmd.c:730-844 | -EFAULT, -EPERM, then -EINVAL unless addr and num are both set or both unset; a query returns the acquire error, or -EFAULT when the count cannot be written back, or 0 with the count reported; -EINVAL for a missing or foreign region, -ENOMEM when the frame array or the placeholder pages cannot be allocated, each with the region unchanged; the region changes only for a privcmd region with a frame array, its payload becoming the page array (auto-translated) or locked; on the mapping path the result is the acquire-and-map outcome |
| MmapResource.MapFrames | privcmd.c:799-837 | a failing XENMEM_acquire_resource is the result, whichever mapping path the guest would take |
| MmapResource.FrameArray | privcmd.c:778-797 | the frame list has one entry per requested frame |
| MmapResource.FrameArrayLayout | privcmd.c:778-797 | on an auto-translated guest entry i is slot i % XEN_PFN_PER_PAGE of placeholder page i / XEN_PFN_PER_PAGE; otherwise every entry is 0 |
| Ioeventfd.FirstMatch | privcmd.c:1152-1160 | the index of the first filter matching the address, size and virtqueue, or the list length when none does |
| Ioeventfd.Interrupt | privcmd.c:1127-1178 | a slot that is not a ready copy write is left alone with IRQ_NONE; otherwise the first matching filter, and only it, is signalled, the slot becomes IORESP_READY and the result is IRQ_HANDLED; with no match the slot goes back to READY and the result is IRQ_NONE |
| Ioeventfd.Assign | privcmd.c:1266-1379 | a wrapping range, a length outside {1, 2, 4, 8} and a vcpu count outside [1, 4096] give -EINVAL, then -ENOMEM, then the descriptor's error; a channel on the page with another domain or vcpu count gives -EINVAL; on a matching channel the result is -EBUSY exactly when the eventfd is registered there, 0 otherwise; with no channel on the page the result is that of allocating one; every failure leaves the registry unchanged |
| Ioeventfd.Deassign | privcmd.c:1381-1428 | the descriptor's error when it is no eventfd; otherwise -ENODEV exactly when no channel has the request's domain, page and vcpu count or the first such channel does not hold the eventfd, 0 otherwise; failures change nothing |
| Ioeventfd.DeassignUnregisters | privcmd.c:1381-1428 | on a valid registry a successful deassign removes exactly the eventfd's registration on the request's page: every other registration stays on its page and the channels of other pages are untouched |
| Ioeventfd.IoctlIoeventfd | privcmd.c:1430-1450 | -EFAULT, then -EINVAL for unknown flags, then -EPERM; then deassign or assign by the flag |
| Ioeventfd.AssignRegisters | privcmd.c:1267-1366 | after a successful assign, the page's channel has the request's domain and vcpu count and its registrations are the old ones followed by exactly one carrying the eventfd and the request's address, length and virtqueue (or only that one on a new channel appended at the end); every other channel is unchanged |
| Ioeventfd.AssignPreservesValid | privcmd.c:1267-1305 | assign keeps one channel per ioreq page, non-empty channels, vcpu counts in range, valid filters and each eventfd at most once per channel |
| Ioeventfd.DeassignPreservesValid | privcmd.c:1404-1413 | deassign keeps the invariant; a channel whose last filter goes is freed |
| Ioeventfd.AssignThenDeassign | privcmd.c:1381-1428 | deassigning the eventfd just assigned restores the registry exactly, whether assign joined a channel or created one |
| Irqfd.Assign | privcmd.c:932-1012 | -ENOMEM, -EFAULT, the descriptor's error, then -EBUSY when the eventfd is already listed; success iff allocation and copy succeed, the descriptor is an eventfd and it is not yet listed; success appends exactly one registration carrying the request |
| Irqfd.Deassign | privcmd.c:1014-1045 | returns 0 whenever the descriptor is an eventfd, matched or not, and the descriptor's own error otherwise; an unlisted eventfd leaves the list unchanged |
| Irqfd.IoctlIrqfd | privcmd.c:1047-1067 | -EFAULT, then -EINVAL for unknown flags, then -EPERM; then deassign or assign by the flag |
| Irqfd.UnlinkRemoves | privcmd.c:1025-1030 | unlinking removes the eventfd's registration and no other, keeping the list free of duplicates |
| Irqfd.AssignPreservesUnique | privcmd.c:977-985 | assign keeps every eventfd listed at most once |
| Irqfd.DeassignPreservesUnique | privcmd.c:1014-1045 | deassign keeps the list free of duplicates and leaves the eventfd unlisted |
| Irqfd.AssignThenDeassign | privcmd.c:932-1045 | deassigning the eventfd just assigned restores the list exactly |
| Irqfd.DeassignIdempotent | privcmd.c:1014-1045 | a second deassign of the same eventfd changes nothing |
| Irqfd.InjectLogsOncePerRun | privcmd.c:882-900 | in a run of failing injections, only the first logs an error, and only if the previous injection succeeded |
| Irqfd.Wakeup | privcmd.c:902-921 | without EPOLLHUP the list keeps its shape and every other registration |
| Irqfd.WakeupHangupUnlinks | privcmd.c:912-918 | on EPOLLHUP the woken registration leaves the list and every other one stays |

## Left out

- Locking, memory barriers, `mmap_write_lock` and the irqfd cleanup workqueue. The model is sequential, so each operation is one atomic step.
- Hypercalls, user copies, page allocation and pinning, `find_vma` and the page-table probe. They are parameters; each hypercall comes with a predicate stating only what the driver relies on.
- Event-channel binding in `alloc_ioreq` (the per-vcpu port copy and interrupt binding). It is reduced to its result code.
- The `notify_remote_via_evtchn` call of the interrupt handler. It always goes with `IRQ_HANDLED`, and the model does not return it separately.
- Device and module lifecycle: `privcmd_init`/`exit`, `privcmd_release`, `privcmd_mmap`, `privcmd_fault`, `privcmd_close` and the `privcmd_ioctl` dispatcher. These are registration plumbing.
- `free_page_list` and the freeing done on error paths. Freeing is not observable in a value model.
- V1Markers.Mark: the OR of a marker into a gfn is stated through `Mark` and not decoded bit by bit. The marker constants come from a header that is not part of this model, so they are parameters.
- `num` and `nr_pages` are unbounded naturals rather than 32-bit values. The 64-bit cursor arithmetic is modelled with explicit wrap-around.
- The `BUG_ON(vma->vm_private_data != NULL)` in `alloc_empty_pages`. On a PV guest `IOCTL_PRIVCMD_MMAP_RESOURCE` sets the payload without a check (privcmd.c:797). On an auto-translated guest an existing payload oopses the kernel (privcmd.c:443); the model overwrites it instead.
- MmapResource.SelectResult: the scan of the first `count` codes is exact only when the last frame succeeded, which is what `ShortfallReported` states. Whether the remap wrappers can report a short count while the last frame failed depends on `xen_remap_domain_mfn_array`, which is not part of this model. The model takes that wrapper's count to be at most the number of frames, since the scan reads the codes below the count from an array of that length.
- MmapResource.MapFrames: the contract covers only a failing acquire. After a successful acquire the result is the remap wrapper's outcome (through `SelectResult` on a PV guest), and those wrappers are parameters.
- `CONFIG_XEN_AUTO_XLATE` is taken as enabled whenever the guest is auto-translated.
- DmOp: `pin_user_pages_fast` is a parameter that returns at most the requested count and never -ENOSPC. Which pages it pins is not modelled.
- `clear_user` clearing part of the V2 error array before faulting is modelled as "the writable leading entries are zeroed".
- Irqfd: the eventfd counter read and the dm_op buffer contents are opaque. The model keeps only whether the last injection failed.

The model follows the code in two places where a reader might expect otherwise. A block reporting -ENOENT always sets `global_error` to -ENOENT, even when an earlier block had already set it to 1 (privcmd.c:361-363). `privcmd_irqfd_deassign` returns 0 whether or not the eventfd was registered (privcmd.c:1044).
