/**
 * The request side of IOCTL_PRIVCMD_MMAPBATCH and IOCTL_PRIVCMD_MMAPBATCH_V2
 * (privcmd_ioctl_mmap_batch): the checks made before anything is mapped, the
 * acceptance of the target region, and the whole request put together with
 * the two passes.
 */
module BatchIoctl {
  import opened Kernel
  import opened Mm
  import opened Paging
  import opened Restriction
  import opened V1Markers
  import opened MmapBatch

  /**
   * The checks made before the gfn array is read: a known version, a
   * readable request header and an accessible result array, the handle's
   * restriction, and a non-empty request whose page count fits a long.
   */
  function CheckRequest(h: Handle, p: Platform, version: int, headerOk: bool, accessOk: bool,
                        dom: DomId, num: nat): (r: int)
    requires p.Valid()
    ensures r == 0 <==> && (version == 1 || version == 2) && headerOk && accessOk && h.Permits(dom)
                        && 0 < num && CeilDiv(num, p.pfnPerPage) <= p.MaxPages()
    ensures r == 0 || r == -EINVAL || r == -EFAULT || r == -EPERM
    ensures version != 1 && version != 2 ==> r == -EINVAL
    ensures r == -EFAULT ==> !(headerOk && accessOk)
    ensures r == -EPERM ==> !h.Permits(dom)
    ensures (version == 1 || version == 2) && !(headerOk && accessOk) ==> r == -EFAULT
    ensures (version == 1 || version == 2) && headerOk && accessOk && !h.Permits(dom) ==> r == -EPERM
  {
    if version != 1 && version != 2 then -EINVAL
    else if !headerOk || !accessOk then -EFAULT
    else if !h.Permits(dom) then -EPERM
    else if num == 0 || CeilDiv(num, p.pfnPerPage) > p.MaxPages() then -EINVAL
    else 0
  }

  /**
   * A handle bound to one domain refuses every batch naming another one: the
   * request fails before anything is read or mapped, with -EPERM once the
   * header could be read.
   */
  lemma BoundHandleRefusesBatch(h: Handle, p: Platform, version: int, accessOk: bool, dom: DomId, num: nat)
    requires p.Valid() && h.Restricted() && dom != h.domid
    ensures CheckRequest(h, p, version, true, accessOk, dom, num) != 0
    ensures (version == 1 || version == 2) && accessOk ==> CheckRequest(h, p, version, true, accessOk, dom, num) == -EPERM
  {
  }

  /** The end of the requested range, `addr + (nr_pages << PAGE_SHIFT)` in an `unsigned long`. */
  function RangeEnd(p: Platform, addr: U64, nrPages: nat): U64
    requires p.Valid()
  {
    Wrap64(addr + p.PagesToBytes(nrPages))
  }

  /**
   * Acceptance of the region find_vma returned for `addr` (`found`). It must
   * be a privcmd region. A fresh one (no payload) must be covered exactly and
   * gets its payload now: the placeholder pages from `alloc` on an
   * auto-translated guest (None when the allocation fails), the locked
   * marker otherwise. A region that already has a payload only takes a
   * retry inside its bounds over a range the page-table probe
   * (privcmd_vma_range_is_mapped, here `rangeMapped`) finds wholly unmapped.
   * Returns the result and the region afterwards.
   */
  function AcceptRegion(p: Platform, found: Option<Vma>, addr: U64, nrPages: nat,
                        rangeMapped: bool, alloc: Option<seq<int>>): (r: (int, Option<Vma>))
    requires p.Valid()
    ensures r.0 == 0 || r.0 == -EINVAL || r.0 == -ENOMEM
    ensures r.0 != 0 ==> r.1 == found
    ensures r.0 == 0 ==> && found.Some? && found.value.privcmd
                         && r.1.Some? && r.1.value.WithPayload(found.value.payload) == found.value
    ensures r.0 == 0 && found.value.payload == Unset ==>
              && addr == found.value.start && RangeEnd(p, addr, nrPages) == found.value.end
              && (p.autoXlate ==> alloc.Some? && r.1.value.payload == Pages(alloc.value))
              && (!p.autoXlate ==> r.1.value.payload == Locked)
    ensures r.0 == 0 && found.value.payload != Unset ==>
              && found.value.start <= addr && RangeEnd(p, addr, nrPages) <= found.value.end
              && !rangeMapped && r.1 == found
    ensures r.0 == 0 <==> && found.Some? && found.value.privcmd
                          && if found.value.payload == Unset then
                               && addr == found.value.start && RangeEnd(p, addr, nrPages) == found.value.end
                               && (p.autoXlate ==> alloc.Some?)
                             else
                               && found.value.start <= addr && RangeEnd(p, addr, nrPages) <= found.value.end
                               && !rangeMapped
    ensures r.0 == -ENOMEM <==> && found.Some? && found.value.privcmd && found.value.payload == Unset
                                && addr == found.value.start && RangeEnd(p, addr, nrPages) == found.value.end
                                && p.autoXlate && alloc.None?
  {
    if found.None? || !found.value.privcmd then (-EINVAL, found)
    else
      var v := found.value;
      var end := RangeEnd(p, addr, nrPages);
      if v.payload == Unset then
        if addr != v.start || end != v.end then (-EINVAL, found)
        else if p.autoXlate then
          if alloc.None? then (-ENOMEM, found) else (0, Some(v.WithPayload(Pages(alloc.value))))
        else (0, Some(v.WithPayload(Locked)))
      else if addr < v.start || end > v.end then (-EINVAL, found)
      else if rangeMapped then (-EINVAL, found)
      else (0, found)
  }

  /**
   * A fresh region is only ever accepted when the request covers it exactly,
   * with no wrap-around: the range [addr, addr + nr_pages pages) is the
   * region itself.
   */
  lemma FreshCoverageExact(p: Platform, found: Option<Vma>, addr: U64, nrPages: nat,
                           rangeMapped: bool, alloc: Option<seq<int>>)
    requires p.Valid() && nrPages <= p.MaxPages()
    requires found.Some? && found.value.Valid() && found.value.payload == Unset
    ensures AcceptRegion(p, found, addr, nrPages, rangeMapped, alloc).0 == 0 ==>
              addr + nrPages * p.PageSize() == found.value.end
  {
    BoundedPagesBytes(p, nrPages);
  }

  /**
   * The payload is set once: after a region has been accepted, no later
   * request changes it, and a later request on the same range is taken
   * exactly when none of its pages is mapped yet (the retry of paged-out
   * frames).
   */
  lemma PayloadSetOnce(p: Platform, found: Option<Vma>, addr: U64, nrPages: nat,
                       rangeMapped: bool, alloc: Option<seq<int>>,
                       addr2: U64, nrPages2: nat, rangeMapped2: bool, alloc2: Option<seq<int>>)
    requires p.Valid()
    requires AcceptRegion(p, found, addr, nrPages, rangeMapped, alloc).0 == 0
    ensures var v := AcceptRegion(p, found, addr, nrPages, rangeMapped, alloc).1;
            var r2 := AcceptRegion(p, v, addr2, nrPages2, rangeMapped2, alloc2);
            && r2.1 == v
            && (addr2 == addr && nrPages2 == nrPages ==> (r2.0 == 0 <==> !rangeMapped2))
  {
    var v := AcceptRegion(p, found, addr, nrPages, rangeMapped, alloc).1;
    assert v.value.payload != Unset;
  }

  /**
   * The caller's memory as the request sees it: whether the header could be
   * copied in and the result array passed access_ok; how many leading gfns
   * can be read; how many leading entries of the array the version writes
   * back into (the gfn array for V1, the error array for V2) can be written;
   * and how many pages gather_array can allocate.
   */
  datatype UserMemory = UserMemory(headerOk: bool, accessOk: bool, readable: nat, writable: nat, pageBudget: nat)

  /**
   * The caller's request: the version, the domain, the start address, the
   * `num` gfns, and (V2) the `num` entries of the error array.
   */
  datatype BatchRequest = BatchRequest(version: int, dom: DomId, addr: U64, gfns: seq<Gfn>, errArr: seq<int>)

  /** clear_user on the error array: the writable leading entries are zeroed. */
  function ClearErrors(errArr: seq<int>, writable: nat): (e: seq<int>)
    ensures |e| == |errArr|
    ensures forall i :: 0 <= i < |e| ==> e[i] == (if i < writable then 0 else errArr[i])
  {
    seq(|errArr|, i requires 0 <= i < |errArr| => if i < writable then 0 else errArr[i])
  }

  /** The write-back state the second pass starts from: V2's error array has been zeroed. */
  function StartOf(req: BatchRequest): (wb: WriteBack)
    ensures wb.pos == 0 && wb.arr == req.gfns
  {
    WriteBack(0, req.gfns, if req.version == 2 then Zeros(|req.gfns|) else req.errArr)
  }

  /**
   * Once the error array is cleared (V2) or the whole gfn array is writable
   * (V1), the passes cannot fault.
   */
  lemma NoFaultWhenWritable(p: Platform, req: BatchRequest, writable: nat, markers: Markers, remap: RemapArray)
    requires p.Valid() && RemapWellFormed(remap)
    requires req.version == 2 ==> writable >= |req.gfns|
    ensures var rp := Reporting(req.version, markers, writable);
            req.version == 2 || (req.version == 1 && writable >= |req.gfns|) ==>
              Passes(p, req.dom, remap, req.gfns, req.addr, rp, StartOf(req)).0 != -EFAULT
  {
    var rp := Reporting(req.version, markers, writable);
    if req.version == 2 {
      V2ReportsEveryCode(p, req.dom, remap, req.gfns, req.addr, rp, req.gfns);
    } else if req.version == 1 && writable >= |req.gfns| {
      V1MarksEveryEntry(p, req.dom, remap, req.gfns, req.addr, rp, req.errArr);
    }
  }

  /**
   * privcmd_ioctl_mmap_batch. `found` is what find_vma returns for the
   * start address, `rangeMapped` the page-table probe's answer for the
   * requested range, `alloc` the placeholder pages (None when allocation
   * fails), `markers` the V1 sentinels and `remap` the mapping hypercall.
   * Returns the result, the region afterwards, and the caller's gfn and
   * error arrays afterwards.
   */
  method IoctlMmapBatch(h: Handle, p: Platform, req: BatchRequest, mem: UserMemory, markers: Markers,
                        found: Option<Vma>, rangeMapped: bool, alloc: Option<seq<int>>, remap: RemapArray)
    returns (ret: int, vma: Option<Vma>, arr: seq<Gfn>, errArr: seq<int>)
    requires p.Valid() && RemapWellFormed(remap)
    requires req.version == 2 ==> |req.errArr| == |req.gfns|
    ensures var num := |req.gfns|;
            var pre := CheckRequest(h, p, req.version, mem.headerOk, mem.accessOk, req.dom, num);
            pre != 0 ==> ret == pre && vma == found && arr == req.gfns && errArr == req.errArr
    ensures vma != found ==> && found.Some? && found.value.payload == Unset
                             && vma.Some? && vma.value.payload != Unset
                             && vma.value.WithPayload(Unset) == found.value
    ensures req.version != 2 ==> errArr == req.errArr
    ensures req.version == 2 ==> arr == req.gfns
    ensures var num := |req.gfns|;
            var pre := CheckRequest(h, p, req.version, mem.headerOk, mem.accessOk, req.dom, num);
            var region := AcceptRegion(p, found, req.addr, CeilDiv(num, p.pfnPerPage), rangeMapped, alloc);
            ret == 0 || ret == -ENOENT ==> pre == 0 && region.0 == 0 && vma == region.1
    ensures var num := |req.gfns|;
            var k := PerPage(p.PageSize(), PFN_SIZE);
            var pre := CheckRequest(h, p, req.version, mem.headerOk, mem.accessOk, req.dom, num);
            var region := AcceptRegion(p, found, req.addr, CeilDiv(num, p.pfnPerPage), rangeMapped, alloc);
            var rp := Reporting(req.version, markers, mem.writable);
            var passes := Passes(p, req.dom, remap, req.gfns, req.addr, rp, StartOf(req));
            pre == 0 && mem.readable >= num && mem.pageBudget * k >= num
            && (req.version == 2 ==> mem.writable >= num) && region.0 == 0 ==>
              && vma == region.1
              && ret == passes.0 && arr == passes.1.arr && errArr == passes.1.errArr
              && (req.version == 2 || mem.writable >= num ==> ret != -EFAULT)
    ensures var num := |req.gfns|;
            var k := PerPage(p.PageSize(), PFN_SIZE);
            var pre := CheckRequest(h, p, req.version, mem.headerOk, mem.accessOk, req.dom, num);
            pre == 0 && !(mem.readable >= num && mem.pageBudget * k >= num) ==>
              && ret == (if mem.pageBudget * k <= mem.readable then -ENOMEM else -EFAULT)
              && vma == found && arr == req.gfns && errArr == req.errArr
    ensures var num := |req.gfns|;
            var k := PerPage(p.PageSize(), PFN_SIZE);
            var pre := CheckRequest(h, p, req.version, mem.headerOk, mem.accessOk, req.dom, num);
            pre == 0 && mem.readable >= num && mem.pageBudget * k >= num && req.version == 2 && mem.writable < num ==>
              && ret == -EFAULT && vma == found && arr == req.gfns
              && errArr == ClearErrors(req.errArr, mem.writable)
    ensures var num := |req.gfns|;
            var k := PerPage(p.PageSize(), PFN_SIZE);
            var pre := CheckRequest(h, p, req.version, mem.headerOk, mem.accessOk, req.dom, num);
            var region := AcceptRegion(p, found, req.addr, CeilDiv(num, p.pfnPerPage), rangeMapped, alloc);
            pre == 0 && mem.readable >= num && mem.pageBudget * k >= num
            && (req.version == 2 ==> mem.writable >= num) && region.0 != 0 ==>
              && ret == region.0 && vma == found && arr == req.gfns
  {
    var num := |req.gfns|;
    ret := CheckRequest(h, p, req.version, mem.headerOk, mem.accessOk, req.dom, num);
    vma, arr, errArr := found, req.gfns, req.errArr;
    if ret != 0 {
      return;
    }
    var nrPages := CeilDiv(num, p.pfnPerPage);
    var pages: seq<seq<Gfn>>;
    ret, pages := GatherArray(req.gfns, PFN_SIZE, p.PageSize(), mem.readable, mem.pageBudget);
    if ret != 0 {
      return;
    }
    if pages == [] {
      ret := -EINVAL;
      return;
    }
    if req.version == 2 {
      errArr := ClearErrors(req.errArr, mem.writable);
      if mem.writable < num {
        ret := -EFAULT;
        return;
      }
      assert errArr == Zeros(num);
    }
    var region := AcceptRegion(p, found, req.addr, nrPages, rangeMapped, alloc);
    if region.0 != 0 {
      ret := region.0;
      return;
    }
    vma := region.1;
    var rp := Reporting(req.version, markers, mem.writable);
    var passes := Passes(p, req.dom, remap, req.gfns, req.addr, rp, StartOf(req));
    NoFaultWhenWritable(p, req, mem.writable, markers, remap);
    ret, arr, errArr := passes.0, passes.1.arr, passes.1.errArr;
  }
}
