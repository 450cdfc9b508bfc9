/**
 * IOCTL_PRIVCMD_DM_OP (privcmd_ioctl_dm_op with lock_pages): a device-model
 * operation on a guest, passed to the hypervisor together with a small
 * number of caller buffers. The buffers are validated against two tunable
 * limits, the pages backing them are pinned (possibly a few at a time, as
 * the pinning call may pin fewer pages than asked for), and the hypercall
 * is made only when every page is pinned.
 */
module DmOp {
  import opened Kernel
  import opened Restriction

  /** struct privcmd_dm_op_buf: a user address and a size in bytes. */
  datatype DmOpBuf = DmOpBuf(uptr: U64, size: nat)

  /**
   * The module parameters dm_op_max_nr_bufs and dm_op_buf_max_size: how many
   * buffers a request may carry and how large each may be.
   */
  datatype Limits = Limits(maxNum: nat, maxSize: nat)

  /** The limits the module loads with. */
  const DEFAULT_LIMITS: Limits := Limits(16, 4096)

  /**
   * The number of pages a buffer touches: DIV_ROUND_UP of its offset in its
   * first page plus its size. A zero-size buffer starting on a page boundary
   * touches none.
   */
  function PagesOf(p: Platform, b: DmOpBuf): (n: nat)
    requires p.Valid()
    ensures n * p.PageSize() >= b.uptr % p.PageSize() + b.size
    ensures n == 0 || (n - 1) * p.PageSize() < b.uptr % p.PageSize() + b.size
    ensures n == 0 <==> b.uptr % p.PageSize() == 0 && b.size == 0
  {
    CeilDiv(b.uptr % p.PageSize() + b.size, p.PageSize())
  }

  /** The size of the page array: the pages of all buffers together. */
  function TotalPages(p: Platform, bufs: seq<DmOpBuf>): nat
    requires p.Valid()
    decreases |bufs|
  {
    if bufs == [] then 0 else PagesOf(p, bufs[0]) + TotalPages(p, bufs[1..])
  }

  /** A buffer the validation loop lets through: within the size limit and passing access_ok. */
  predicate BufOk(lim: Limits, accessible: DmOpBuf -> bool, b: DmOpBuf) {
    b.size <= lim.maxSize && accessible(b)
  }

  /**
   * The validation loop over the buffers: the first buffer over the size
   * limit fails the request with -E2BIG, the first one access_ok refuses
   * with -EFAULT, whichever comes first; otherwise it yields the size of
   * the page array.
   */
  function ScanBufs(p: Platform, lim: Limits, accessible: DmOpBuf -> bool, bufs: seq<DmOpBuf>): (r: (int, nat))
    requires p.Valid()
    ensures r.0 == 0 <==> forall i :: 0 <= i < |bufs| ==> BufOk(lim, accessible, bufs[i])
    ensures r.0 == 0 ==> r.1 == TotalPages(p, bufs)
    ensures r.0 != 0 ==> exists i :: && 0 <= i < |bufs|
                                     && (forall j :: 0 <= j < i ==> BufOk(lim, accessible, bufs[j]))
                                     && !BufOk(lim, accessible, bufs[i])
                                     && r.0 == (if bufs[i].size > lim.maxSize then -E2BIG else -EFAULT)
    decreases |bufs|
  {
    if bufs == [] then (0, 0)
    else if bufs[0].size > lim.maxSize then (-E2BIG, 0)
    else if !accessible(bufs[0]) then (-EFAULT, 0)
    else
      var r := ScanBufs(p, lim, accessible, bufs[1..]);
      if r.0 != 0 then
        ghost var i :| && 0 <= i < |bufs| - 1
                       && (forall j :: 0 <= j < i ==> BufOk(lim, accessible, bufs[1..][j]))
                       && !BufOk(lim, accessible, bufs[1..][i])
                       && r.0 == (if bufs[1..][i].size > lim.maxSize then -E2BIG else -EFAULT);
        assert forall j :: 0 <= j < i + 1 ==> BufOk(lim, accessible, bufs[j]) by {
          forall j | 0 <= j < i + 1
            ensures BufOk(lim, accessible, bufs[j])
          {
            if j > 0 {
              assert bufs[j] == bufs[1..][j - 1];
            }
          }
        }
        assert bufs[i + 1] == bufs[1..][i];
        r
      else
        assert forall i :: 0 <= i < |bufs| ==> BufOk(lim, accessible, bufs[i]) by {
          forall i | 0 <= i < |bufs|
            ensures BufOk(lim, accessible, bufs[i])
          {
            if i > 0 {
              assert bufs[i] == bufs[1..][i - 1];
            }
          }
        }
        (0, PagesOf(p, bufs[0]) + r.1)
  }

  /**
   * pin_user_pages_fast as a parameter. It is asked for `count` pages
   * starting `off` pages past the buffer address `uptr` (the address
   * `uptr + off * PAGE_SIZE`), given here as (uptr, off, count), and returns
   * the number of pages pinned or a negative error.
   */
  type Pin = (U64, nat, nat) -> int

  /**
   * The pinning call never reports more pages than it was asked for, and
   * -ENOSPC is not among its errors.
   */
  ghost predicate PinWellBehaved(pin: Pin) {
    forall a, off, n :: pin(a, off, n) <= n && pin(a, off, n) != -ENOSPC
  }

  /**
   * Reference definition of pinning the pages [off, total) of one buffer
   * with `room` free slots left in the page array: ask for all of them; on a
   * short count, ask again for the rest. Returns the result and how many
   * pages were pinned (they stay pinned on failure, for the caller to
   * release). A call that pins nothing fails with -EFAULT.
   */
  function PinRest(p: Platform, uptr: U64, total: nat, off: nat, room: nat, pin: Pin): (r: (int, nat))
    requires p.Valid() && PinWellBehaved(pin) && off <= total
    ensures r.0 <= 0
    ensures r.1 <= room
    ensures r.0 == 0 ==> r.1 == total - off
    ensures room >= total - off ==> r.0 != -ENOSPC
    decreases total - off
  {
    var requested := total - off;
    if requested > room then (-ENOSPC, 0)
    else
      var c := pin(uptr, off, requested);
      if c <= 0 then (if c == 0 then -EFAULT else c, 0)
      else if c == requested then (0, c)
      else
        var r := PinRest(p, uptr, total, off + c, room - c, pin);
        (r.0, c + r.1)
  }

  /**
   * Reference definition of lock_pages from buffer `i` on: pin every buffer
   * in turn, stopping at the first failure.
   */
  function PinAll(p: Platform, bufs: seq<DmOpBuf>, i: nat, room: nat, pin: Pin): (r: (int, nat))
    requires p.Valid() && PinWellBehaved(pin) && i <= |bufs|
    ensures r.0 <= 0
    ensures r.1 <= room
    decreases |bufs| - i
  {
    if i == |bufs| then (0, 0)
    else
      var r := PinRest(p, bufs[i].uptr, PagesOf(p, bufs[i]), 0, room, pin);
      if r.0 != 0 then r
      else After(r.1, PinAll(p, bufs, i + 1, room - r.1, pin))
  }

  /**
   * Success pins exactly the pages of the buffers from `i` on, and with
   * room for all of them no request fails for want of room.
   */
  lemma PinAllTotals(p: Platform, bufs: seq<DmOpBuf>, i: nat, room: nat, pin: Pin)
    requires p.Valid() && PinWellBehaved(pin) && i <= |bufs|
    ensures var r := PinAll(p, bufs, i, room, pin);
            && (r.0 == 0 ==> r.1 == TotalPages(p, bufs[i..]))
            && (room >= TotalPages(p, bufs[i..]) ==> r.0 != -ENOSPC)
    decreases |bufs| - i
  {
    if i < |bufs| {
      assert bufs[i..][0] == bufs[i] && bufs[i..][1..] == bufs[i + 1..];
      var r := PinRest(p, bufs[i].uptr, PagesOf(p, bufs[i]), 0, room, pin);
      if r.0 == 0 {
        PinAllTotals(p, bufs, i + 1, room - r.1, pin);
      }
    }
  }

  /** A pinning outcome preceded by `n` pages already pinned. */
  function After(n: nat, r: (int, nat)): (int, nat)
  {
    (r.0, n + r.1)
  }

  /**
   * A zero-size buffer on a page boundary asks the pinning call for no pages
   * at all; the call cannot pin any, so the request fails.
   */
  lemma EmptyAlignedBufferFails(p: Platform, b: DmOpBuf, room: nat, pin: Pin)
    requires p.Valid() && PinWellBehaved(pin)
    requires b.size == 0 && b.uptr % p.PageSize() == 0
    ensures PinRest(p, b.uptr, PagesOf(p, b), 0, room, pin).0 < 0
  {
    assert pin(b.uptr, 0, 0) <= 0;
  }

  /**
   * lock_pages: pin the pages of all buffers into an array of `nrPages`
   * slots, each buffer by PinRest (its retries on a short count). A request
   * for more pages than the slots left fails with -ENOSPC. Returns the result and the number of pages pinned, which the
   * caller releases whatever the result.
   */
  method LockPages(p: Platform, bufs: seq<DmOpBuf>, nrPages: nat, pin: Pin) returns (rc: int, pinned: nat)
    requires p.Valid() && PinWellBehaved(pin)
    ensures (rc, pinned) == PinAll(p, bufs, 0, nrPages, pin)
  {
    var i: nat := 0;
    var room: nat := nrPages;
    pinned := 0;
    while i < |bufs|
      invariant i <= |bufs| && room + pinned == nrPages
      invariant PinAll(p, bufs, 0, nrPages, pin) == After(pinned, PinAll(p, bufs, i, room, pin))
    {
      var r := PinRest(p, bufs[i].uptr, PagesOf(p, bufs[i]), 0, room, pin);
      var n: nat;
      rc, n := r.0, r.1;
      LockPagesStep(p, bufs, i, room, pinned, nrPages, pin, rc, n);
      if rc != 0 {
        return rc, pinned + n;
      }
      pinned := pinned + n;
      room := room - n;
      i := i + 1;
    }
    rc := 0;
  }

  /**
   * One buffer of LockPages: a failure is the overall outcome; a buffer
   * pinned in full leaves the invariant holding for the next one.
   */
  lemma LockPagesStep(p: Platform, bufs: seq<DmOpBuf>, i: nat, room: nat, pinned: nat, nrPages: nat, pin: Pin,
                      rc: int, n: nat)
    requires p.Valid() && PinWellBehaved(pin) && i < |bufs|
    requires (rc, n) == PinRest(p, bufs[i].uptr, PagesOf(p, bufs[i]), 0, room, pin)
    requires PinAll(p, bufs, 0, nrPages, pin) == After(pinned, PinAll(p, bufs, i, room, pin))
    ensures rc != 0 ==> PinAll(p, bufs, 0, nrPages, pin) == (rc, pinned + n)
    ensures rc == 0 ==> n <= room && PinAll(p, bufs, 0, nrPages, pin) == After(pinned + n, PinAll(p, bufs, i + 1, room - n, pin))
  {
  }

  /**
   * The validation loop's outcome is decided by the first buffer it
   * refuses: -E2BIG when that buffer is over the size limit, -EFAULT when
   * access_ok refuses it.
   */
  lemma ScanFirstFailure(p: Platform, lim: Limits, accessible: DmOpBuf -> bool, bufs: seq<DmOpBuf>, i: nat)
    requires p.Valid() && i < |bufs| && !BufOk(lim, accessible, bufs[i])
    requires forall j :: 0 <= j < i ==> BufOk(lim, accessible, bufs[j])
    ensures ScanBufs(p, lim, accessible, bufs).0 == (if bufs[i].size > lim.maxSize then -E2BIG else -EFAULT)
  {
    var r := ScanBufs(p, lim, accessible, bufs);
    var k :| && 0 <= k < |bufs|
             && (forall j :: 0 <= j < k ==> BufOk(lim, accessible, bufs[j]))
             && !BufOk(lim, accessible, bufs[k])
             && r.0 == (if bufs[k].size > lim.maxSize then -E2BIG else -EFAULT);
    assert k == i;
  }

  /**
   * IOCTL_PRIVCMD_DM_OP. `headerOk` and `bufsOk` say whether the request
   * and its buffer array could be copied in, `kbufsOk` whether the kernel
   * copy of the buffer array could be allocated and `arraysOk` whether the
   * page array and the hypervisor's buffer array could; `accessible` is
   * access_ok on a buffer, `pin` the pinning call and `dmOp` the hypercall.
   * Returns the result and how many pages were pinned (and released again)
   * along the way.
   */
  method IoctlDmOp(h: Handle, p: Platform, lim: Limits, headerOk: bool, dom: DomId, bufs: seq<DmOpBuf>,
                   kbufsOk: bool, bufsOk: bool, arraysOk: bool, accessible: DmOpBuf -> bool, pin: Pin,
                   dmOp: (DomId, seq<DmOpBuf>) -> int)
    returns (rc: int, pinned: nat)
    requires p.Valid() && PinWellBehaved(pin)
    ensures !headerOk ==> rc == -EFAULT
    ensures headerOk && !h.Permits(dom) ==> rc == -EPERM
    ensures headerOk && h.Permits(dom) && bufs == [] ==> rc == 0
    ensures headerOk && h.Permits(dom) && |bufs| > lim.maxNum ==> rc == -E2BIG
    ensures headerOk && h.Permits(dom) && 0 < |bufs| <= lim.maxNum ==>
              && (!kbufsOk ==> rc == -ENOMEM && pinned == 0)
              && (kbufsOk && !bufsOk ==> rc == -EFAULT && pinned == 0)
    ensures && headerOk && h.Permits(dom) && 0 < |bufs| <= lim.maxNum && kbufsOk && bufsOk
            && ScanBufs(p, lim, accessible, bufs).0 != 0 ==>
              rc == ScanBufs(p, lim, accessible, bufs).0 && pinned == 0
    ensures forall i :: && headerOk && h.Permits(dom) && 0 < |bufs| <= lim.maxNum && kbufsOk && bufsOk
                        && 0 <= i < |bufs| && bufs[i].size > lim.maxSize
                        && (forall j :: 0 <= j < i ==> BufOk(lim, accessible, bufs[j])) ==>
              rc == -E2BIG && pinned == 0
    ensures && headerOk && h.Permits(dom) && 0 < |bufs| <= lim.maxNum && kbufsOk && bufsOk && !arraysOk
            && (forall i :: 0 <= i < |bufs| ==> BufOk(lim, accessible, bufs[i])) ==>
              rc == -ENOMEM && pinned == 0
    ensures rc != -ENOSPC || (dmOp(dom, bufs) == -ENOSPC && pinned == TotalPages(p, bufs))
    ensures pinned <= TotalPages(p, bufs)
    ensures && headerOk && h.Permits(dom) && 0 < |bufs| <= lim.maxNum && kbufsOk && bufsOk && arraysOk
            && (forall i :: 0 <= i < |bufs| ==> BufOk(lim, accessible, bufs[i])) ==>
              var l := PinAll(p, bufs, 0, TotalPages(p, bufs), pin);
              && (l.0 != 0 ==> rc == l.0 && pinned == l.1)
              && (l.0 == 0 ==> rc == dmOp(dom, bufs) && pinned == TotalPages(p, bufs))
    ensures rc == 0 && bufs != [] ==> rc == dmOp(dom, bufs)
  {
    pinned := 0;
    if !headerOk {
      return -EFAULT, 0;
    }
    if !h.Permits(dom) {
      return -EPERM, 0;
    }
    if |bufs| == 0 {
      return 0, 0;
    }
    if |bufs| > lim.maxNum {
      return -E2BIG, 0;
    }
    if !kbufsOk {
      return -ENOMEM, 0;
    }
    if !bufsOk {
      return -EFAULT, 0;
    }
    var scan := ScanBufs(p, lim, accessible, bufs);
    forall i | 0 <= i < |bufs| && bufs[i].size > lim.maxSize && (forall j :: 0 <= j < i ==> BufOk(lim, accessible, bufs[j]))
      ensures scan.0 == -E2BIG
    {
      ScanFirstFailure(p, lim, accessible, bufs, i);
    }
    if scan.0 != 0 {
      return scan.0, 0;
    }
    if !arraysOk {
      return -ENOMEM, 0;
    }
    assert bufs[0..] == bufs;
    PinAllTotals(p, bufs, 0, scan.1, pin);
    rc, pinned := LockPages(p, bufs, scan.1, pin);
    if rc < 0 {
      return;
    }
    rc := dmOp(dom, bufs);
  }
}
