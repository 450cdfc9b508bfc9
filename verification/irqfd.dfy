/**
 * IOCTL_PRIVCMD_IRQFD (privcmd_ioctl_irqfd with privcmd_irqfd_assign and
 * privcmd_irqfd_deassign) and what an eventfd wake-up does to a
 * registration (irqfd_wakeup, irqfd_inject).
 *
 * A device model registers an eventfd together with a prepared dm_op
 * buffer; whenever the eventfd is signalled the buffer is issued to the
 * guest's domain, typically to raise an interrupt. The registrations form
 * one list, with each eventfd at most once.
 */
module Irqfd {
  import opened Kernel
  import opened Restriction

  /**
   * struct privcmd_kernel_irqfd: the eventfd, the guest domain, the dm_op
   * buffer copied in at registration, and whether the last injection failed.
   */
  datatype Registration = Registration(eventfd: EventFd, dom: DomId, dmOp: seq<int>, failed: bool)

  /** irqfds_list. */
  type Registrations = seq<Registration>

  /** The list invariant: no eventfd is registered twice. */
  predicate Unique(regs: Registrations) {
    forall i, j :: 0 <= i < j < |regs| ==> regs[i].eventfd != regs[j].eventfd
  }

  predicate Registered(regs: Registrations, e: EventFd) {
    exists i :: 0 <= i < |regs| && regs[i].eventfd == e
  }

  /** The index of the first registration of `e`, or |regs|. */
  function Find(regs: Registrations, e: EventFd): (r: nat)
    ensures r <= |regs|
    ensures forall j :: 0 <= j < r ==> regs[j].eventfd != e
    ensures r < |regs| ==> regs[r].eventfd == e
    ensures r == |regs| <==> !Registered(regs, e)
    decreases |regs|
  {
    if regs == [] then 0
    else if regs[0].eventfd == e then 0
    else 1 + Find(regs[1..], e)
  }

  /** irqfd_deactivate on the first registration of `e`, if any. */
  function Unlink(regs: Registrations, e: EventFd): Registrations
  {
    var i := Find(regs, e);
    if i == |regs| then regs else regs[..i] + regs[i + 1..]
  }

  /** struct privcmd_irqfd: the request. */
  datatype IrqfdReq = IrqfdReq(fd: int, dom: DomId, dmOp: seq<int>)

  /**
   * irqfd_inject: issue the registration's dm_op buffer; `rc` is what the
   * hypercall returns. Gives the updated registration and whether an error
   * is logged, which happens only for the first of consecutive failures.
   */
  function Inject(k: Registration, rc: int): (r: (Registration, bool))
  {
    (k.(failed := rc != 0), rc != 0 && !k.failed)
  }

  /** A run of failing injections logs one error, at its start. */
  lemma InjectLogsOncePerRun(k: Registration, rcs: seq<int>)
    requires forall i :: 0 <= i < |rcs| ==> rcs[i] != 0
    ensures forall i :: 0 < i < |rcs| ==> !Inject(Injected(k, rcs[..i]), rcs[i]).1
    ensures |rcs| > 0 ==> (Inject(k, rcs[0]).1 <==> !k.failed)
  {
    forall i | 0 < i < |rcs|
      ensures Injected(k, rcs[..i]).failed
    {
      assert rcs[..i] == rcs[..i - 1] + [rcs[i - 1]];
      InjectedSnoc(k, rcs[..i - 1], rcs[i - 1]);
    }
  }

  /** The registration after a sequence of injections. */
  function Injected(k: Registration, rcs: seq<int>): (r: Registration)
    ensures r.eventfd == k.eventfd && r.dom == k.dom && r.dmOp == k.dmOp
    decreases |rcs|
  {
    if rcs == [] then k else Injected(Inject(k, rcs[0]).0, rcs[1..])
  }

  /** Only the last injection decides whether a registration is marked failed. */
  lemma {:induction false} InjectedSnoc(k: Registration, rcs: seq<int>, rc: int)
    ensures Injected(k, rcs + [rc]).failed == (rc != 0)
    decreases |rcs|
  {
    if rcs == [] {
      assert Injected(k, [rc]) == Injected(Inject(k, rc).0, []);
    } else {
      assert (rcs + [rc])[1..] == rcs[1..] + [rc];
      InjectedSnoc(Inject(k, rcs[0]).0, rcs[1..], rc);
    }
  }

  /** What signals an eventfd wake-up carries. */
  datatype Wake = Wake(pollIn: bool, pollHup: bool)

  /**
   * irqfd_wakeup on the registration at index `i`: inject on EPOLLIN (with
   * `rc` the hypercall's result), then on EPOLLHUP unlink the registration.
   */
  function Wakeup(regs: Registrations, i: nat, w: Wake, rc: int): (r: Registrations)
    requires i < |regs|
    ensures !w.pollHup ==> |r| == |regs| && r[i].eventfd == regs[i].eventfd
                           && forall j :: 0 <= j < |regs| && j != i ==> r[j] == regs[j]
  {
    var regs' := if w.pollIn then regs[i := Inject(regs[i], rc).0] else regs;
    if w.pollHup then Unlink(regs', regs[i].eventfd) else regs'
  }

  /** On EPOLLHUP the woken registration leaves the list, and no other does. */
  lemma WakeupHangupUnlinks(regs: Registrations, i: nat, w: Wake, rc: int)
    requires i < |regs| && Unique(regs) && w.pollHup
    ensures var r := Wakeup(regs, i, w, rc);
            && |r| == |regs| - 1 && Unique(r) && !Registered(r, regs[i].eventfd)
            && forall f :: f != regs[i].eventfd ==> (Registered(r, f) <==> Registered(regs, f))
  {
    var regs' := if w.pollIn then regs[i := Inject(regs[i], rc).0] else regs;
    assert forall j :: 0 <= j < |regs| ==> regs'[j].eventfd == regs[j].eventfd;
    assert regs'[i].eventfd == regs[i].eventfd;
    UnlinkRemoves(regs', regs[i].eventfd);
  }

  /**
   * privcmd_irqfd_assign. `allocOk` says whether the registration can be
   * allocated, `copyOk` whether the dm_op buffer can be read from the
   * caller, `pending` whether the eventfd already had an event when it was
   * registered, and `rc` the result of the injection that event triggers.
   */
  function Assign(regs: Registrations, req: IrqfdReq, allocOk: bool, copyOk: bool, ev: FdLookup,
                  pending: bool, rc: int): (r: (int, Registrations))
    ensures r.0 == 0 || r.0 == -ENOMEM || r.0 == -EFAULT || r.0 == -EBADF || r.0 == -EINVAL || r.0 == -EBUSY
    ensures r.0 != 0 ==> r.1 == regs
    ensures r.0 == 0 <==> allocOk && copyOk && ev.Ctx? && !Registered(regs, ev.eventfd)
    ensures r.0 == 0 ==> && |r.1| == |regs| + 1 && r.1[..|regs|] == regs
                         && r.1[|regs|].eventfd == ev.eventfd && r.1[|regs|].dom == req.dom
                         && r.1[|regs|].dmOp == req.dmOp
                         && r.1[|regs|].failed == (pending && rc != 0)
    ensures ev.Ctx? && allocOk && copyOk && Registered(regs, ev.eventfd) ==> r.0 == -EBUSY
    ensures !allocOk ==> r.0 == -ENOMEM
    ensures allocOk && !copyOk ==> r.0 == -EFAULT
    ensures allocOk && copyOk && !ev.Ctx? ==> r.0 == FdError(ev)
  {
    if !allocOk then (-ENOMEM, regs)
    else if !copyOk then (-EFAULT, regs)
    else if !ev.Ctx? then (FdError(ev), regs)
    else if Find(regs, ev.eventfd) < |regs| then (-EBUSY, regs)
    else
      var k := Registration(ev.eventfd, req.dom, req.dmOp, false);
      var k' := if pending then Inject(k, rc).0 else k;
      (0, regs + [k'])
  }

  /**
   * privcmd_irqfd_deassign: unlink the eventfd's registration if there is
   * one. Succeeds whether or not the eventfd was registered.
   */
  function Deassign(regs: Registrations, ev: FdLookup): (r: (int, Registrations))
    ensures r.0 == 0 <==> ev.Ctx?
    ensures !ev.Ctx? ==> r.0 == FdError(ev)
    ensures r.0 != 0 ==> r.1 == regs
    ensures ev.Ctx? && !Registered(regs, ev.eventfd) ==> r.1 == regs
  {
    if !ev.Ctx? then (FdError(ev), regs) else (0, Unlink(regs, ev.eventfd))
  }

  /** PRIVCMD_IRQFD_FLAG_DEASSIGN, the only flag the request may carry. */
  const FLAG_DEASSIGN: nat := 1

  /**
   * privcmd_ioctl_irqfd: reject unknown flags and requests on another
   * domain than the handle is bound to, then assign or deassign.
   */
  function IoctlIrqfd(h: Handle, copyOk: bool, flags: nat, req: IrqfdReq, regs: Registrations,
                      allocOk: bool, bufOk: bool, ev: FdLookup, pending: bool, rc: int): (r: (int, Registrations))
    ensures !copyOk ==> r == (-EFAULT, regs)
    ensures copyOk && flags > FLAG_DEASSIGN ==> r == (-EINVAL, regs)
    ensures copyOk && flags <= FLAG_DEASSIGN && !h.Permits(req.dom) ==> r == (-EPERM, regs)
    ensures copyOk && flags == FLAG_DEASSIGN && h.Permits(req.dom) ==> r == Deassign(regs, ev)
    ensures copyOk && flags == 0 && h.Permits(req.dom) ==> r == Assign(regs, req, allocOk, bufOk, ev, pending, rc)
  {
    if !copyOk then (-EFAULT, regs)
    else if flags > FLAG_DEASSIGN then (-EINVAL, regs)
    else if !h.Permits(req.dom) then (-EPERM, regs)
    else if flags == FLAG_DEASSIGN then Deassign(regs, ev)
    else Assign(regs, req, allocOk, bufOk, ev, pending, rc)
  }

  // ---------------------------------------------------------------------
  // Properties of the list
  // ---------------------------------------------------------------------

  /** Unlinking keeps the other registrations, in order, and leaves the eventfd unregistered. */
  lemma UnlinkRemoves(regs: Registrations, e: EventFd)
    requires Unique(regs)
    ensures Unique(Unlink(regs, e))
    ensures !Registered(Unlink(regs, e), e)
    ensures Registered(regs, e) ==> |Unlink(regs, e)| == |regs| - 1
    ensures forall f :: f != e ==> (Registered(Unlink(regs, e), f) <==> Registered(regs, f))
  {
    var i := Find(regs, e);
    var r := Unlink(regs, e);
    if i < |regs| {
      assert forall a :: 0 <= a < |r| ==> r[a] == regs[if a < i then a else a + 1];
      forall f | f != e && Registered(regs, f)
        ensures Registered(r, f)
      {
        var j :| 0 <= j < |regs| && regs[j].eventfd == f;
        assert j != i;
        if j < i {
          assert r[j] == regs[j];
        } else {
          assert r[j - 1] == regs[j];
        }
      }
    }
  }

  /** Assign keeps the list invariant. */
  lemma AssignPreservesUnique(regs: Registrations, req: IrqfdReq, allocOk: bool, copyOk: bool, ev: FdLookup,
                              pending: bool, rc: int)
    requires Unique(regs)
    ensures Unique(Assign(regs, req, allocOk, copyOk, ev, pending, rc).1)
  {
    var r := Assign(regs, req, allocOk, copyOk, ev, pending, rc);
    if r.0 == 0 {
      forall i, j | 0 <= i < j < |r.1|
        ensures r.1[i].eventfd != r.1[j].eventfd
      {
        assert r.1[i] == regs[i];
        if j < |regs| {
          assert r.1[j] == regs[j];
        }
      }
    }
  }

  /** Deassign keeps the list invariant and leaves the eventfd unregistered. */
  lemma DeassignPreservesUnique(regs: Registrations, ev: FdLookup)
    requires Unique(regs)
    ensures Unique(Deassign(regs, ev).1)
    ensures ev.Ctx? ==> !Registered(Deassign(regs, ev).1, ev.eventfd)
  {
    if ev.Ctx? {
      UnlinkRemoves(regs, ev.eventfd);
    }
  }

  /** Deassigning an eventfd just assigned gives back the list as it was. */
  lemma AssignThenDeassign(regs: Registrations, req: IrqfdReq, allocOk: bool, copyOk: bool, e: EventFd,
                           pending: bool, rc: int)
    requires Assign(regs, req, allocOk, copyOk, Ctx(e), pending, rc).0 == 0
    ensures Deassign(Assign(regs, req, allocOk, copyOk, Ctx(e), pending, rc).1, Ctx(e)) == (0, regs)
  {
    var regs' := Assign(regs, req, allocOk, copyOk, Ctx(e), pending, rc).1;
    var i := Find(regs', e);
    assert regs'[|regs|].eventfd == e;
    assert regs'[..|regs|] + regs'[|regs| + 1..] == regs;
  }

  /** Deassign is idempotent: a second deassign of the same eventfd changes nothing. */
  lemma DeassignIdempotent(regs: Registrations, ev: FdLookup)
    requires Unique(regs)
    ensures Deassign(Deassign(regs, ev).1, ev) == Deassign(regs, ev)
  {
    DeassignPreservesUnique(regs, ev);
  }
}
