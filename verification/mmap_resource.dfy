/**
 * IOCTL_PRIVCMD_MMAP_RESOURCE (privcmd_ioctl_mmap_resource): map the frames
 * of a hypervisor resource belonging to a guest (XENMEM_acquire_resource)
 * into a privcmd region, or, with neither address nor count given, ask how
 * many frames the resource has.
 */
module MmapResource {
  import opened Kernel
  import opened Mm
  import opened Paging
  import opened Restriction

  /** struct privcmd_mmap_resource: domain, resource type and id, first frame, frame count, address. */
  datatype ResourceRequest = ResourceRequest(dom: DomId, typ: nat, id: nat, idx: nat, num: nat, addr: U64)

  /** The fields of struct xen_mem_acquire_resource the driver fills in. */
  datatype AcquireArgs = AcquireArgs(dom: DomId, typ: nat, id: nat, frame: nat, nrFrames: nat, frameList: seq<int>)

  /**
   * What XENMEM_acquire_resource gives back: the result, the frame count (the
   * answer to a query), the frame list as the hypervisor left it, and whether
   * the frames are owned by the caller (XENMEM_rsrc_acq_caller_owned).
   */
  datatype AcquireOut = AcquireOut(rc: int, nrFrames: nat, frameList: seq<int>, callerOwned: bool)

  type Acquire = AcquireArgs -> AcquireOut

  /** The hypervisor fills in the frame list it is given, entry for entry. */
  ghost predicate AcquireWellFormed(acquire: Acquire) {
    forall args :: |acquire(args).frameList| == |args.frameList|
  }

  /** What xen_remap_domain_mfn_array reports: the count of frames mapped or an error, and a code per frame. */
  datatype MfnOut = MfnOut(ret: int, errs: seq<int>)

  /** xen_remap_domain_mfn_array: (page-aligned address, frames, owning domain). */
  type RemapMfns = (U64, seq<int>, DomId) -> MfnOut

  /**
   * The per-frame codes are written over the frame array itself: one per
   * frame; the count mapped is at most the number of frames.
   */
  ghost predicate RemapMfnsWellFormed(remap: RemapMfns) {
    forall a, frames, dom :: |remap(a, frames, dom).errs| == |frames| && remap(a, frames, dom).ret <= |frames|
  }

  /** xen_remap_vma_range: (address, length in bytes) to a result. */
  type RemapRange = (U64, U64) -> int

  // ---------------------------------------------------------------------
  // The pfn layout on an auto-translated guest
  // ---------------------------------------------------------------------

  lemma SlotOf(a: nat, r: nat, k: nat)
    requires 0 <= r < k
    ensures (a * k + r) / k == a && (a * k + r) % k == r
  {
    var q := (a * k + r) / k;
    DivBounds(a * k + r, k);
    if q >= a + 1 {
      MulMono(a + 1, q, k);
      MulSucc(a, k);
    } else if q + 1 <= a {
      MulMono(q + 1, a, k);
    }
  }

  lemma SlotInRange(i: nat, k: nat, n: nat)
    requires k > 0 && i < n * k
    ensures i / k < n
  {
    DivBounds(i, k);
    if i / k >= n {
      MulMono(n, i / k, k);
    }
  }

  /**
   * The Xen frame numbers handed to the hypervisor: entry `i` is slot
   * `i % k` of the kernel page `pages[i / k]`, where `k` is the number of
   * Xen pages per kernel page and a kernel page `pfn` starts at Xen frame
   * `pfn * k`.
   */
  function XenPfns(pages: seq<nat>, num: nat, k: nat): (pfns: seq<int>)
    requires k > 0 && num <= |pages| * k
    ensures |pfns| == num
  {
    seq(num, i requires 0 <= i < num => SlotInRange(i, k, |pages|); pages[i / k] * k + i % k)
  }

  /** Each Xen frame number names its kernel page and its slot in it. */
  lemma XenPfnsDecode(pages: seq<nat>, num: nat, k: nat, i: nat)
    requires k > 0 && num <= |pages| * k && i < num
    ensures i / k < |pages| && XenPfns(pages, num, k)[i] / k == pages[i / k]
    ensures XenPfns(pages, num, k)[i] % k == i % k
  {
    SlotInRange(i, k, |pages|);
    SlotOf(pages[i / k], i % k, k);
  }

  /** Two numbers with the same quotient and remainder by `k` are equal. */
  lemma SameSlot(x: int, y: int, k: nat)
    requires k > 0 && x / k == y / k && x % k == y % k
    ensures x == y
  {
  }

  /** Distinct kernel pages give distinct Xen frame numbers, one per entry. */
  lemma XenPfnsDistinct(pages: seq<nat>, num: nat, k: nat, i: nat, j: nat)
    requires k > 0 && num <= |pages| * k && i < num && j < num && i != j
    requires forall a, b :: 0 <= a < b < |pages| ==> pages[a] != pages[b]
    ensures XenPfns(pages, num, k)[i] != XenPfns(pages, num, k)[j]
  {
    XenPfnsDecode(pages, num, k, i);
    XenPfnsDecode(pages, num, k, j);
    var x, y := XenPfns(pages, num, k)[i], XenPfns(pages, num, k)[j];
    if i / k == j / k {
      if x == y {
        SameSlot(i, j, k);
      }
    } else if i / k < j / k {
      assert pages[i / k] != pages[j / k];
    } else {
      assert pages[j / k] != pages[i / k];
    }
  }

  // ---------------------------------------------------------------------
  // Result selection after xen_remap_domain_mfn_array
  // ---------------------------------------------------------------------

  /**
   * The loop over the per-frame codes: from entry `i` below `upto`, the
   * first negative code, or else the last code looked at (`rc` when none).
   */
  function ScanErrors(errs: seq<int>, i: nat, upto: nat, rc: int): (r: int)
    requires upto <= |errs|
    ensures r < 0 <==> (rc < 0 && i >= upto) || exists j :: i <= j < upto && errs[j] < 0
    ensures i < upto && r < 0 ==> exists j :: && i <= j < upto && errs[j] == r
                                              && forall l :: i <= l < j ==> errs[l] >= 0
    ensures (forall j :: i <= j < upto ==> errs[j] >= 0) ==> r == (if i < upto then errs[upto - 1] else rc)
    decreases upto - i
  {
    if i >= upto then rc
    else if errs[i] < 0 then errs[i]
    else ScanErrors(errs, i + 1, upto, errs[i])
  }

  /**
   * The result of the mapping step on a guest that is not auto-translated:
   * the hypercall's own error; success when every frame was mapped;
   * otherwise the first negative code among the first `ret` entries
   * (where `ret` is the count the call reported), or the last of those
   * codes when none is negative.
   */
  function SelectResult(ret: int, n: nat, errs: seq<int>): (rc: int)
    requires |errs| == n && ret <= n
    ensures ret < 0 ==> rc == ret
    ensures ret == n ==> rc == 0
    ensures 0 <= ret < n ==> (rc < 0 <==> exists j :: 0 <= j < ret && errs[j] < 0)
    ensures 0 <= ret < n && rc < 0 ==> exists j :: && 0 <= j < ret && errs[j] == rc
                                                   && forall l :: 0 <= l < j ==> errs[l] >= 0
    ensures 0 <= ret < n && (forall j :: 0 <= j < ret ==> errs[j] >= 0) ==>
              rc == (if ret == 0 then 0 else errs[ret - 1])
  {
    if ret < 0 then ret
    else if ret != n then ScanErrors(errs, 0, ret, 0)
    else 0
  }

  /** How many frames a code list reports as mapped. */
  function Successes(errs: seq<int>): nat
    decreases |errs|
  {
    if errs == [] then 0 else (if errs[0] >= 0 then 1 else 0) + Successes(errs[1..])
  }

  lemma {:induction false} SuccessesSplit(errs: seq<int>, m: nat)
    requires m <= |errs|
    ensures Successes(errs) == Successes(errs[..m]) + Successes(errs[m..])
    decreases m
  {
    if m > 0 {
      SuccessesSplit(errs[1..], m - 1);
      assert errs[1..][..m - 1] == errs[..m][1..];
      assert errs[1..][m - 1..] == errs[m..];
    }
  }

  lemma {:induction false} SuccessesBound(errs: seq<int>)
    ensures Successes(errs) <= |errs|
    ensures Successes(errs) == |errs| <==> forall i :: 0 <= i < |errs| ==> errs[i] >= 0
    ensures Successes(errs) == 0 <==> forall i :: 0 <= i < |errs| ==> errs[i] < 0
    decreases |errs|
  {
    if errs != [] {
      SuccessesBound(errs[1..]);
      assert forall i :: 1 <= i < |errs| ==> errs[i] == errs[1..][i - 1];
    }
  }

  /**
   * The scan only looks at the first `ret` codes, but when `ret` is the number
   * of frames mapped and the last frame was mapped (as
   * xen_remap_domain_mfn_array reports: a failing last frame makes the whole
   * call return that error), a shortfall always shows among them, so a
   * partial mapping is never reported as success.
   */
  lemma {:induction false} ShortfallReported(ret: int, n: nat, errs: seq<int>)
    requires |errs| == n && 0 <= ret < n
    requires Successes(errs) == ret && errs[n - 1] >= 0
    ensures SelectResult(ret, n, errs) < 0
  {
    SuccessesSplit(errs, ret);
    SuccessesBound(errs[..ret]);
    SuccessesBound(errs[ret..]);
    assert errs[ret..][n - 1 - ret] == errs[n - 1];
    var j :| 0 <= j < ret && errs[..ret][j] < 0;
    assert errs[j] < 0;
  }

  // ---------------------------------------------------------------------
  // The request
  // ---------------------------------------------------------------------

  /**
   * What the request leaves behind: the result, the region afterwards, and,
   * for a size query, the frame count written back to the caller.
   */
  datatype ResourceOutcome = ResourceOutcome(rc: int, vma: Option<Vma>, reported: Option<nat>)

  /**
   * privcmd_ioctl_mmap_resource. `headerOk` and `putOk` say whether the
   * request can be copied in and the answer to a query copied out, `found` is
   * what find_vma returns for the address, `pfnsOk` whether the frame array
   * can be allocated and `alloc` the placeholder kernel pages of an
   * auto-translated guest (None when allocation fails).
   */
  function MmapResourceIoctl(h: Handle, p: Platform, headerOk: bool, req: ResourceRequest, putOk: bool,
                             found: Option<Vma>, pfnsOk: bool, alloc: Option<seq<nat>>,
                             acquire: Acquire, remapRange: RemapRange, remapMfns: RemapMfns): (r: ResourceOutcome)
    requires p.Valid()
    requires AcquireWellFormed(acquire) && RemapMfnsWellFormed(remapMfns)
    requires alloc.Some? ==> |alloc.value| == CeilDiv(req.num, p.pfnPerPage)
    ensures !headerOk ==> r.rc == -EFAULT
    ensures headerOk && !h.Permits(req.dom) ==> r.rc == -EPERM
    ensures headerOk && h.Permits(req.dom) && (req.addr == 0) != (req.num == 0) ==> r.rc == -EINVAL
    ensures r.reported.Some? <==> && headerOk && h.Permits(req.dom) && req.addr == 0 && req.num == 0
                                  && r.rc == 0
    ensures r.reported.Some? ==> r.reported.value == acquire(AcquireArgs(req.dom, req.typ, req.id, 0, 0, [])).nrFrames
    ensures r.vma != found ==> && req.num != 0 && found.Some? && found.value.privcmd && pfnsOk
                               && r.vma.Some? && r.vma.value == found.value.WithPayload(r.vma.value.payload)
                               && (p.autoXlate ==> alloc.Some? && r.vma.value.payload == Pages(alloc.value))
                               && (!p.autoXlate ==> r.vma.value.payload == Locked)
    ensures && headerOk && h.Permits(req.dom) && req.addr != 0 && req.num != 0
            && found.Some? && found.value.privcmd && pfnsOk && (p.autoXlate ==> alloc.Some?) ==>
              && r.rc == MapFrames(p, req, alloc, acquire, remapRange, remapMfns)
              && r.vma.Some? && r.vma.value.WithPayload(Unset) == found.value.WithPayload(Unset)
              && r.vma.value.payload != Unset
    ensures r.rc == 0 && req.num != 0 ==> && found.Some? && found.value.privcmd && r.vma.Some?
                                          && r.vma.value.payload != Unset
    ensures headerOk && h.Permits(req.dom) && req.addr == 0 && req.num == 0 ==>
              var q := acquire(AcquireArgs(req.dom, req.typ, req.id, 0, 0, []));
              && r.vma == found
              && (q.rc != 0 ==> r.rc == q.rc)
              && (q.rc == 0 && !putOk ==> r.rc == -EFAULT)
              && (q.rc == 0 && putOk ==> r.rc == 0 && r.reported == Some(q.nrFrames))
    ensures headerOk && h.Permits(req.dom) && req.addr != 0 && req.num != 0 ==>
              && (found.None? || !found.value.privcmd ==> r.rc == -EINVAL && r.vma == found)
              && (found.Some? && found.value.privcmd && !pfnsOk ==> r.rc == -ENOMEM && r.vma == found)
              && (found.Some? && found.value.privcmd && pfnsOk && p.autoXlate && alloc.None? ==>
                    r.rc == -ENOMEM && r.vma == found)
  {
    if !headerOk then ResourceOutcome(-EFAULT, found, None)
    else if !h.Permits(req.dom) then ResourceOutcome(-EPERM, found, None)
    else if (req.addr != 0) != (req.num != 0) then ResourceOutcome(-EINVAL, found, None)
    else if req.addr == 0 && req.num == 0 then
      var q := acquire(AcquireArgs(req.dom, req.typ, req.id, 0, 0, []));
      if q.rc != 0 then ResourceOutcome(q.rc, found, None)
      else if !putOk then ResourceOutcome(-EFAULT, found, None)
      else ResourceOutcome(0, found, Some(q.nrFrames))
    else if found.None? || !found.value.privcmd then ResourceOutcome(-EINVAL, found, None)
    else if !pfnsOk then ResourceOutcome(-ENOMEM, found, None)
    else if p.autoXlate && alloc.None? then ResourceOutcome(-ENOMEM, found, None)
    else
      var payload := if p.autoXlate then Pages(alloc.value) else Locked;
      ResourceOutcome(MapFrames(p, req, alloc, acquire, remapRange, remapMfns),
                      Some(found.value.WithPayload(payload)), None)
  }

  /**
   * The mapping step once the region has its payload: acquire the frames
   * into the frame array (the placeholder pages' Xen frames on an
   * auto-translated guest, zeroes otherwise), then map them, owned by the
   * caller's own domain when the hypervisor says the caller owns them.
   */
  function MapFrames(p: Platform, req: ResourceRequest, alloc: Option<seq<nat>>,
                     acquire: Acquire, remapRange: RemapRange, remapMfns: RemapMfns): (rc: int)
    requires p.Valid() && RemapMfnsWellFormed(remapMfns) && AcquireWellFormed(acquire)
    requires p.autoXlate ==> alloc.Some? && |alloc.value| == CeilDiv(req.num, p.pfnPerPage)
    ensures acquire(AcquireArgs(req.dom, req.typ, req.id, req.idx, req.num, FrameArray(p, req, alloc))).rc != 0 ==>
              rc == acquire(AcquireArgs(req.dom, req.typ, req.id, req.idx, req.num, FrameArray(p, req, alloc))).rc
  {
    var a := acquire(AcquireArgs(req.dom, req.typ, req.id, req.idx, req.num, FrameArray(p, req, alloc)));
    if a.rc != 0 then a.rc
    else if p.autoXlate then remapRange(req.addr, p.PagesToBytes(req.num))
    else
      var owner := if a.callerOwned then DOMID_SELF else req.dom;
      var m := remapMfns(p.PageAlignDown(req.addr), a.frameList, owner);
      SelectResult(m.ret, req.num, m.errs)
  }

  /** The frame array handed to XENMEM_acquire_resource. */
  function FrameArray(p: Platform, req: ResourceRequest, alloc: Option<seq<nat>>): (pfns: seq<int>)
    requires p.Valid()
    requires p.autoXlate ==> alloc.Some? && |alloc.value| == CeilDiv(req.num, p.pfnPerPage)
    ensures |pfns| == req.num
  {
    if p.autoXlate then XenPfns(alloc.value, req.num, p.pfnPerPage) else seq(req.num, i => 0)
  }

  /**
   * Entry `i` of the frame array: on an auto-translated guest, slot
   * `i % XEN_PFN_PER_PAGE` of placeholder page `i / XEN_PFN_PER_PAGE`;
   * otherwise 0, left for the hypervisor to fill in.
   */
  lemma FrameArrayLayout(p: Platform, req: ResourceRequest, alloc: Option<seq<nat>>, i: nat)
    requires p.Valid()
    requires p.autoXlate ==> alloc.Some? && |alloc.value| == CeilDiv(req.num, p.pfnPerPage)
    requires i < req.num
    ensures !p.autoXlate ==> FrameArray(p, req, alloc)[i] == 0
    ensures p.autoXlate ==> && i / p.pfnPerPage < |alloc.value|
                            && FrameArray(p, req, alloc)[i] / p.pfnPerPage == alloc.value[i / p.pfnPerPage]
                            && FrameArray(p, req, alloc)[i] % p.pfnPerPage == i % p.pfnPerPage
  {
    if p.autoXlate {
      XenPfnsDecode(alloc.value, req.num, p.pfnPerPage, i);
    }
  }
}
