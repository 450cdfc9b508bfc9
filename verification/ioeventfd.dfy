/**
 * IOCTL_PRIVCMD_IOEVENTFD (privcmd_ioctl_ioeventfd with
 * privcmd_ioeventfd_assign, get_ioreq, privcmd_ioeventfd_deassign) and the
 * interrupt handler ioeventfd_interrupt.
 *
 * A device model registers eventfds that should fire when a guest writes a
 * virtqueue index to the QueueNotify register of a virtio MMIO device. The
 * registrations are grouped into channels, one per ioreq page (keyed by the
 * page's user address), each carrying the guest's domain and vcpu count.
 * When a vcpu's ioreq slot holds a pending MMIO write, the handler looks
 * for the first registration it matches, signals it and completes the
 * request.
 */
module Ioeventfd {
  import opened Kernel
  import opened Restriction

  /**
   * Offset of the QueueNotify register in the virtio MMIO register layout
   * (section 4.2.2 of the VIRTIO 1.1 specification).
   */
  const VIRTIO_MMIO_QUEUE_NOTIFY: nat := 0x050

  /** QUEUE_NOTIFY_VQ_MASK: the low 16 bits of the written value name the virtqueue. */
  const QUEUE_NOTIFY_VQ_MODULUS: nat := 0x1_0000

  /** The largest vcpu count a channel may have. */
  const MAX_VCPUS: nat := 4096

  /** struct privcmd_kernel_ioeventfd: a registration for one virtqueue's notify register. */
  datatype Filter = Filter(eventfd: EventFd, addr: U64, addrLen: nat, vq: nat)

  /** struct privcmd_kernel_ioreq: the registrations on one ioreq page. */
  datatype Channel = Channel(dom: DomId, vcpus: nat, uioreq: U64, filters: seq<Filter>)

  /** ioreq_list. */
  datatype Registry = Registry(channels: seq<Channel>)

  // ---------------------------------------------------------------------
  // The interrupt handler
  // ---------------------------------------------------------------------

  /** The states of an ioreq slot the handler distinguishes (STATE_IOREQ_* / STATE_IORESP_READY). */
  datatype IoreqState = NoReq | Ready | InProcess | RespReady

  /**
   * One vcpu's struct ioreq: its state, whether it is a copy (MMIO) request
   * and a write, the guest address, the access size and the data written.
   */
  datatype Ioreq = Ioreq(state: IoreqState, isCopy: bool, isWrite: bool, addr: U64, size: nat, data: nat)

  /** Whether a pending write is a notification for the filter's virtqueue. */
  predicate Matches(req: Ioreq, f: Filter) {
    && req.addr == Wrap64(f.addr + VIRTIO_MMIO_QUEUE_NOTIFY)
    && req.size == f.addrLen
    && req.data % QUEUE_NOTIFY_VQ_MODULUS == f.vq
  }

  /** The index of the first filter the request matches, or |filters| if there is none. */
  function FirstMatch(filters: seq<Filter>, req: Ioreq): (r: nat)
    ensures r <= |filters|
    ensures forall j :: 0 <= j < r ==> !Matches(req, filters[j])
    ensures r < |filters| ==> Matches(req, filters[r])
    decreases |filters|
  {
    if filters == [] then 0
    else if Matches(req, filters[0]) then 0
    else 1 + FirstMatch(filters[1..], req)
  }

  /** IRQ_HANDLED or IRQ_NONE. */
  datatype IrqReturn = IrqNone | IrqHandled

  /**
   * What ioeventfd_interrupt does for one vcpu's slot: whether it handled
   * the interrupt, the slot afterwards, and the eventfd it signalled, if
   * any. Notifying the event channel goes with IrqHandled.
   */
  datatype InterruptOutcome = InterruptOutcome(irq: IrqReturn, req: Ioreq, signalled: Option<EventFd>)

  /** ioeventfd_interrupt. */
  function Interrupt(ch: Channel, req: Ioreq): (r: InterruptOutcome)
    ensures !(req.state == Ready && req.isCopy && req.isWrite) ==> r == InterruptOutcome(IrqNone, req, None)
    ensures r.irq == IrqHandled <==> r.signalled.Some?
    ensures r.req == req || r.req == req.(state := RespReady)
    ensures r.signalled.Some? <==> && req.state == Ready && req.isCopy && req.isWrite
                                   && exists i :: 0 <= i < |ch.filters| && Matches(req, ch.filters[i])
    ensures r.signalled.Some? ==> exists i :: && 0 <= i < |ch.filters| && Matches(req, ch.filters[i])
                                             && r.signalled.value == ch.filters[i].eventfd
                                             && forall j :: 0 <= j < i ==> !Matches(req, ch.filters[j])
    ensures req.state == Ready ==> (r.signalled.Some? <==> r.req.state == RespReady)
  {
    if req.state != Ready || !req.isCopy || !req.isWrite then InterruptOutcome(IrqNone, req, None)
    else
      var i := FirstMatch(ch.filters, req);
      if i < |ch.filters| then InterruptOutcome(IrqHandled, req.(state := RespReady), Some(ch.filters[i].eventfd))
      else InterruptOutcome(IrqNone, req.(state := Ready), None)
  }

  // ---------------------------------------------------------------------
  // The registry
  // ---------------------------------------------------------------------

  /** A registration as assign accepts it: a non-wrapping range of length 1, 2, 4 or 8. */
  predicate FilterValid(f: Filter) {
    && Wrap64(f.addr + f.addrLen) >= f.addr
    && (f.addrLen == 1 || f.addrLen == 2 || f.addrLen == 4 || f.addrLen == 8)
  }

  predicate Registered(filters: seq<Filter>, e: EventFd) {
    exists i :: 0 <= i < |filters| && filters[i].eventfd == e
  }

  /**
   * A channel as the driver keeps it: a vcpu count in range, at least one
   * registration (an empty channel is freed), and each eventfd at most once.
   */
  predicate ChannelValid(ch: Channel) {
    && 1 <= ch.vcpus <= MAX_VCPUS
    && |ch.filters| > 0
    && (forall i :: 0 <= i < |ch.filters| ==> FilterValid(ch.filters[i]))
    && (forall i, j :: 0 <= i < j < |ch.filters| ==> ch.filters[i].eventfd != ch.filters[j].eventfd)
  }

  /** The registry invariant: valid channels, at most one per ioreq page. */
  predicate Valid(reg: Registry) {
    && (forall i :: 0 <= i < |reg.channels| ==> ChannelValid(reg.channels[i]))
    && (forall i, j :: 0 <= i < j < |reg.channels| ==> reg.channels[i].uioreq != reg.channels[j].uioreq)
  }

  /** The index of the first channel on the ioreq page `uioreq`, or |chs|. */
  function FindPage(chs: seq<Channel>, uioreq: U64): (r: nat)
    ensures r <= |chs|
    ensures forall j :: 0 <= j < r ==> chs[j].uioreq != uioreq
    ensures r < |chs| ==> chs[r].uioreq == uioreq
    decreases |chs|
  {
    if chs == [] then 0
    else if chs[0].uioreq == uioreq then 0
    else 1 + FindPage(chs[1..], uioreq)
  }

  /** The index of the first channel with the given domain, page and vcpu count, or |chs|. */
  function FindExact(chs: seq<Channel>, dom: DomId, uioreq: U64, vcpus: nat): (r: nat)
    ensures r <= |chs|
    ensures forall j :: 0 <= j < r ==> !(chs[j].dom == dom && chs[j].uioreq == uioreq && chs[j].vcpus == vcpus)
    ensures r < |chs| ==> chs[r].dom == dom && chs[r].uioreq == uioreq && chs[r].vcpus == vcpus
    decreases |chs|
  {
    if chs == [] then 0
    else if chs[0].dom == dom && chs[0].uioreq == uioreq && chs[0].vcpus == vcpus then 0
    else 1 + FindExact(chs[1..], dom, uioreq, vcpus)
  }

  /** The index of the first registration of eventfd `e`, or |filters|. */
  function FindFd(filters: seq<Filter>, e: EventFd): (r: nat)
    ensures r <= |filters|
    ensures forall j :: 0 <= j < r ==> filters[j].eventfd != e
    ensures r < |filters| ==> filters[r].eventfd == e
    decreases |filters|
  {
    if filters == [] then 0
    else if filters[0].eventfd == e then 0
    else 1 + FindFd(filters[1..], e)
  }

  /** struct privcmd_ioeventfd: the request. */
  datatype IoeventfdReq = IoeventfdReq(dom: DomId, uioreq: U64, vcpus: nat, addr: U64, addrLen: nat, vq: nat)

  /** The request passes assign's three range checks. */
  predicate RequestChecked(req: IoeventfdReq) {
    && Wrap64(req.addr + req.addrLen) >= req.addr
    && (req.addrLen == 1 || req.addrLen == 2 || req.addrLen == 4 || req.addrLen == 8)
    && 1 <= req.vcpus <= MAX_VCPUS
  }

  /**
   * privcmd_ioeventfd_assign with get_ioreq. `allocOk` says whether the
   * registration record can be allocated; `newChannel` is the result of
   * alloc_ioreq (0, or the error of its allocation, vma lookup, port copy or
   * interrupt binding) should a new channel be needed, so never positive.
   * Returns the result and the registry afterwards. A channel on the
   * request's page with another domain or vcpu count refuses the request
   * with -EINVAL, and one that already holds the eventfd with -EBUSY.
   */
  function Assign(reg: Registry, req: IoeventfdReq, ev: FdLookup, allocOk: bool, newChannel: int): (r: (int, Registry))
    requires newChannel <= 0
    ensures r.0 != 0 ==> r.1 == reg
    ensures Wrap64(req.addr + req.addrLen) < req.addr ==> r.0 == -EINVAL
    ensures !(req.addrLen == 1 || req.addrLen == 2 || req.addrLen == 4 || req.addrLen == 8) ==> r.0 == -EINVAL
    ensures !(1 <= req.vcpus <= MAX_VCPUS) ==> r.0 == -EINVAL
    ensures RequestChecked(req) && !allocOk ==> r.0 == -ENOMEM
    ensures RequestChecked(req) && allocOk && !ev.Ctx? ==> r.0 == FdError(ev)
    ensures RequestChecked(req) && allocOk && ev.Ctx? ==>
              var chs := reg.channels;
              var c := FindPage(chs, req.uioreq);
              && (c < |chs| && (chs[c].dom != req.dom || chs[c].vcpus != req.vcpus) ==> r.0 == -EINVAL)
              && (c < |chs| && chs[c].dom == req.dom && chs[c].vcpus == req.vcpus ==>
                    r.0 == (if Registered(chs[c].filters, ev.eventfd) then -EBUSY else 0))
              && (c == |chs| ==> r.0 == newChannel)
  {
    if Wrap64(req.addr + req.addrLen) < req.addr then (-EINVAL, reg)
    else if !(req.addrLen == 1 || req.addrLen == 2 || req.addrLen == 4 || req.addrLen == 8) then (-EINVAL, reg)
    else if req.vcpus == 0 || req.vcpus > MAX_VCPUS then (-EINVAL, reg)
    else if !allocOk then (-ENOMEM, reg)
    else if !ev.Ctx? then (FdError(ev), reg)
    else
      var f := Filter(ev.eventfd, req.addr, req.addrLen, req.vq);
      var chs := reg.channels;
      var c := FindPage(chs, req.uioreq);
      if c < |chs| then
        if chs[c].dom != req.dom || chs[c].vcpus != req.vcpus then (-EINVAL, reg)
        else if FindFd(chs[c].filters, ev.eventfd) < |chs[c].filters| then (-EBUSY, reg)
        else (0, Registry(chs[c := chs[c].(filters := chs[c].filters + [f])]))
      else if newChannel != 0 then (newChannel, reg)
      else (0, Registry(chs + [Channel(req.dom, req.vcpus, req.uioreq, [f])]))
  }

  /**
   * privcmd_ioeventfd_deassign: in the first channel with the request's
   * domain, page and vcpu count, drop the eventfd's registration, and the
   * channel with it if that was its last. -ENODEV when there is no such
   * channel or the eventfd is not registered on it.
   */
  function Deassign(reg: Registry, req: IoeventfdReq, ev: FdLookup): (r: (int, Registry))
    ensures r.0 != 0 ==> r.1 == reg
    ensures r.0 == 0 || r.0 == -ENODEV || (!ev.Ctx? && r.0 == FdError(ev))
    ensures !ev.Ctx? ==> r.0 == FdError(ev)
    ensures ev.Ctx? ==>
              var chs := reg.channels;
              var c := FindExact(chs, req.dom, req.uioreq, req.vcpus);
              (r.0 == -ENODEV <==> c == |chs| || !Registered(chs[c].filters, ev.eventfd))
  {
    if !ev.Ctx? then (FdError(ev), reg)
    else
      var chs := reg.channels;
      var c := FindExact(chs, req.dom, req.uioreq, req.vcpus);
      if c == |chs| then (-ENODEV, reg)
      else
        var fs := chs[c].filters;
        var i := FindFd(fs, ev.eventfd);
        if i == |fs| then (-ENODEV, reg)
        else
          var rest := fs[..i] + fs[i + 1..];
          if rest == [] then (0, Registry(chs[..c] + chs[c + 1..]))
          else (0, Registry(chs[c := chs[c].(filters := rest)]))
  }

  /** PRIVCMD_IOEVENTFD_FLAG_DEASSIGN, the only flag the request may carry. */
  const FLAG_DEASSIGN: nat := 1

  /**
   * privcmd_ioctl_ioeventfd: reject unknown flags and requests on another
   * domain than the handle is bound to, then assign or deassign.
   */
  function IoctlIoeventfd(h: Handle, copyOk: bool, flags: nat, req: IoeventfdReq, reg: Registry,
                          ev: FdLookup, allocOk: bool, newChannel: int): (r: (int, Registry))
    requires newChannel <= 0
    ensures !copyOk ==> r == (-EFAULT, reg)
    ensures copyOk && flags > FLAG_DEASSIGN ==> r == (-EINVAL, reg)
    ensures copyOk && flags <= FLAG_DEASSIGN && !h.Permits(req.dom) ==> r == (-EPERM, reg)
    ensures copyOk && flags == FLAG_DEASSIGN && h.Permits(req.dom) ==> r == Deassign(reg, req, ev)
    ensures copyOk && flags == 0 && h.Permits(req.dom) ==> r == Assign(reg, req, ev, allocOk, newChannel)
  {
    if !copyOk then (-EFAULT, reg)
    else if flags > FLAG_DEASSIGN then (-EINVAL, reg)
    else if !h.Permits(req.dom) then (-EPERM, reg)
    else if flags == FLAG_DEASSIGN then Deassign(reg, req, ev)
    else Assign(reg, req, ev, allocOk, newChannel)
  }

  // ---------------------------------------------------------------------
  // Properties of the registry
  // ---------------------------------------------------------------------

  /**
   * A successful assign registers the eventfd on the one channel of the
   * request's page, with the request's address, length and virtqueue: it is
   * appended to the page's existing channel, or is the only registration of
   * a new channel put at the end. Every other channel stays as it was.
   */
  lemma AssignRegisters(reg: Registry, req: IoeventfdReq, ev: FdLookup, allocOk: bool, newChannel: int)
    requires Valid(reg) && newChannel <= 0
    ensures var r := Assign(reg, req, ev, allocOk, newChannel);
            r.0 == 0 ==> && ev.Ctx?
                         && var f := Filter(ev.eventfd, req.addr, req.addrLen, req.vq);
                            var c0 := FindPage(reg.channels, req.uioreq);
                            var c := FindPage(r.1.channels, req.uioreq);
                            && c == c0 < |r.1.channels|
                            && r.1.channels[c].dom == req.dom && r.1.channels[c].vcpus == req.vcpus
                            && Registered(r.1.channels[c].filters, ev.eventfd)
                            && r.1.channels[c].filters == (if c0 < |reg.channels| then reg.channels[c0].filters else []) + [f]
                            && |r.1.channels| == |reg.channels| + (if c0 < |reg.channels| then 0 else 1)
                            && forall j :: 0 <= j < |reg.channels| && j != c ==> r.1.channels[j] == reg.channels[j]
  {
    var r := Assign(reg, req, ev, allocOk, newChannel);
    if r.0 == 0 {
      var chs := reg.channels;
      var c := FindPage(chs, req.uioreq);
      var f := Filter(ev.eventfd, req.addr, req.addrLen, req.vq);
      if c < |chs| {
        FindPageUpdate(chs, req.uioreq, c, chs[c].(filters := chs[c].filters + [f]));
        assert r.1.channels[c].filters[|chs[c].filters|] == f;
      } else {
        FindPageAppend(chs, req.uioreq, Channel(req.dom, req.vcpus, req.uioreq, [f]));
        assert r.1.channels[|chs|].filters[0] == f;
      }
    }
  }

  /** Replacing channel `c` by one on the same page leaves the page lookup where it was. */
  lemma FindPageUpdate(chs: seq<Channel>, uioreq: U64, c: nat, ch: Channel)
    requires c == FindPage(chs, uioreq) < |chs| && ch.uioreq == uioreq
    ensures FindPage(chs[c := ch], uioreq) == c
  {
    var r := FindPage(chs[c := ch], uioreq);
    assert chs[c := ch][c].uioreq == uioreq;
  }

  /** Appending a channel for a page no channel has makes it the page's channel. */
  lemma FindPageAppend(chs: seq<Channel>, uioreq: U64, ch: Channel)
    requires FindPage(chs, uioreq) == |chs| && ch.uioreq == uioreq
    ensures FindPage(chs + [ch], uioreq) == |chs|
  {
    var r := FindPage(chs + [ch], uioreq);
    assert (chs + [ch])[|chs|].uioreq == uioreq;
  }

  /** Assign keeps the registry invariant. */
  lemma AssignPreservesValid(reg: Registry, req: IoeventfdReq, ev: FdLookup, allocOk: bool, newChannel: int)
    requires Valid(reg) && newChannel <= 0
    ensures Valid(Assign(reg, req, ev, allocOk, newChannel).1)
  {
    var r := Assign(reg, req, ev, allocOk, newChannel);
    if r.0 == 0 {
      var chs := reg.channels;
      var c := FindPage(chs, req.uioreq);
      var f := Filter(ev.eventfd, req.addr, req.addrLen, req.vq);
      if c < |chs| {
        AppendFilterValid(chs[c], f);
        UpdateChannelValid(reg, c, chs[c].(filters := chs[c].filters + [f]));
      } else {
        var ch := Channel(req.dom, req.vcpus, req.uioreq, [f]);
        assert ChannelValid(ch);
        AppendChannelValid(reg, ch);
      }
    }
  }

  lemma AppendFilterValid(ch: Channel, f: Filter)
    requires ChannelValid(ch) && FilterValid(f) && FindFd(ch.filters, f.eventfd) == |ch.filters|
    ensures ChannelValid(ch.(filters := ch.filters + [f]))
  {
    var fs := ch.filters + [f];
    forall i, j | 0 <= i < j < |fs|
      ensures fs[i].eventfd != fs[j].eventfd
    {
      if j == |ch.filters| {
        assert fs[i] == ch.filters[i];
      } else {
        assert fs[i] == ch.filters[i] && fs[j] == ch.filters[j];
      }
    }
  }

  lemma UpdateChannelValid(reg: Registry, c: nat, ch: Channel)
    requires Valid(reg) && c < |reg.channels| && ChannelValid(ch) && ch.uioreq == reg.channels[c].uioreq
    ensures Valid(Registry(reg.channels[c := ch]))
  {
    var chs := reg.channels[c := ch];
    forall i, j | 0 <= i < j < |chs|
      ensures chs[i].uioreq != chs[j].uioreq
    {
      assert chs[i].uioreq == reg.channels[i].uioreq && chs[j].uioreq == reg.channels[j].uioreq;
    }
  }

  lemma AppendChannelValid(reg: Registry, ch: Channel)
    requires Valid(reg) && ChannelValid(ch) && FindPage(reg.channels, ch.uioreq) == |reg.channels|
    ensures Valid(Registry(reg.channels + [ch]))
  {
    var chs := reg.channels + [ch];
    forall i, j | 0 <= i < j < |chs|
      ensures chs[i].uioreq != chs[j].uioreq
    {
      assert chs[i] == reg.channels[i];
    }
  }

  /** Deassign keeps the registry invariant; in particular no empty channel is left behind. */
  lemma DeassignPreservesValid(reg: Registry, req: IoeventfdReq, ev: FdLookup)
    requires Valid(reg)
    ensures Valid(Deassign(reg, req, ev).1)
  {
    var r := Deassign(reg, req, ev);
    if r.0 == 0 {
      var chs := reg.channels;
      var c := FindExact(chs, req.dom, req.uioreq, req.vcpus);
      var fs := chs[c].filters;
      var i := FindFd(fs, ev.eventfd);
      var rest := fs[..i] + fs[i + 1..];
      if rest == [] {
        RemoveChannelValid(reg, c);
      } else {
        RemoveFilterValid(chs[c], i);
        UpdateChannelValid(reg, c, chs[c].(filters := rest));
      }
    }
  }

  lemma RemoveFilterValid(ch: Channel, i: nat)
    requires ChannelValid(ch) && i < |ch.filters| && |ch.filters| > 1
    ensures ChannelValid(ch.(filters := ch.filters[..i] + ch.filters[i + 1..]))
  {
    var fs := ch.filters[..i] + ch.filters[i + 1..];
    assert forall a :: 0 <= a < |fs| ==> fs[a] == ch.filters[if a < i then a else a + 1];
  }

  lemma RemoveChannelValid(reg: Registry, c: nat)
    requires Valid(reg) && c < |reg.channels|
    ensures Valid(Registry(reg.channels[..c] + reg.channels[c + 1..]))
  {
    var chs := reg.channels[..c] + reg.channels[c + 1..];
    assert forall a :: 0 <= a < |chs| ==> chs[a] == reg.channels[if a < c then a else a + 1];
  }

  /** Whether some channel on ioreq page `page` holds the registration `g`. */
  ghost predicate Holds(reg: Registry, page: U64, g: Filter) {
    exists k :: 0 <= k < |reg.channels| && reg.channels[k].uioreq == page && g in reg.channels[k].filters
  }

  /**
   * `reg'` is `reg` without the registrations of eventfd `e` on ioreq page
   * `page`: every other registration stays on its page, and the channels of
   * other pages are untouched.
   */
  ghost predicate Unregistered(reg: Registry, reg': Registry, page: U64, e: EventFd) {
    && (forall page', g :: Holds(reg', page', g) <==> Holds(reg, page', g) && !(page' == page && g.eventfd == e))
    && (forall ch: Channel :: ch.uioreq != page ==> (ch in reg'.channels <==> ch in reg.channels))
  }

  /**
   * A successful deassign removes exactly the eventfd's registration on the
   * request's page.
   */
  lemma DeassignUnregisters(reg: Registry, req: IoeventfdReq, ev: FdLookup)
    requires Valid(reg)
    ensures var r := Deassign(reg, req, ev);
            r.0 == 0 ==> ev.Ctx? && Unregistered(reg, r.1, req.uioreq, ev.eventfd)
  {
    var r := Deassign(reg, req, ev);
    if r.0 == 0 {
      var e := ev.eventfd;
      var chs := reg.channels;
      var c := FindExact(chs, req.dom, req.uioreq, req.vcpus);
      var fs := chs[c].filters;
      var i := FindFd(fs, e);
      var rest := fs[..i] + fs[i + 1..];
      assert ChannelValid(chs[c]);
      RestFilters(fs, i, e);
      if rest == [] {
        assert forall g :: g in fs ==> g.eventfd == e;
        RemoveChannelHolds(reg, c, e);
      } else {
        ReplaceFiltersHolds(reg, c, e, rest);
      }
    }
  }

  /** Freeing a channel that holds only registrations of `e` unregisters `e` from its page. */
  lemma RemoveChannelHolds(reg: Registry, c: nat, e: EventFd)
    requires Valid(reg) && c < |reg.channels|
    requires forall g :: g in reg.channels[c].filters ==> g.eventfd == e
    ensures Unregistered(reg, Registry(reg.channels[..c] + reg.channels[c + 1..]), reg.channels[c].uioreq, e)
  {
    var chs := reg.channels;
    var reg' := Registry(chs[..c] + chs[c + 1..]);
    forall page', g
      ensures Holds(reg', page', g) <==> Holds(reg, page', g) && !(page' == chs[c].uioreq && g.eventfd == e)
    {
      RemovedHolds(reg, c, e, page', g);
    }
    forall ch: Channel | ch.uioreq != chs[c].uioreq
      ensures ch in reg'.channels <==> ch in chs
    {
      RemovedChannel(chs, c, ch);
    }
  }

  lemma RemovedHolds(reg: Registry, c: nat, e: EventFd, page: U64, g: Filter)
    requires Valid(reg) && c < |reg.channels|
    requires forall g :: g in reg.channels[c].filters ==> g.eventfd == e
    ensures var reg' := Registry(reg.channels[..c] + reg.channels[c + 1..]);
            Holds(reg', page, g) <==> Holds(reg, page, g) && !(page == reg.channels[c].uioreq && g.eventfd == e)
  {
    var chs := reg.channels;
    var reg' := Registry(chs[..c] + chs[c + 1..]);
    if Holds(reg', page, g) {
      var a :| 0 <= a < |reg'.channels| && reg'.channels[a].uioreq == page && g in reg'.channels[a].filters;
      var k := RemovedIndex(chs, c, a);
      PageUnique(reg, k, c);
    }
    if Holds(reg, page, g) && !(page == chs[c].uioreq && g.eventfd == e) {
      var k :| 0 <= k < |chs| && chs[k].uioreq == page && g in chs[k].filters;
      var a := if k < c then k else k - 1;
      assert RemovedIndex(chs, c, a) == k;
    }
  }

  lemma RemovedChannel(chs: seq<Channel>, c: nat, ch: Channel)
    requires c < |chs| && ch.uioreq != chs[c].uioreq
    ensures ch in chs[..c] + chs[c + 1..] <==> ch in chs
  {
    var chs' := chs[..c] + chs[c + 1..];
    if ch in chs' {
      var a :| 0 <= a < |chs'| && chs'[a] == ch;
      var k := RemovedIndex(chs, c, a);
    }
    if ch in chs {
      var k :| 0 <= k < |chs| && chs[k] == ch;
      var a := if k < c then k else k - 1;
      assert RemovedIndex(chs, c, a) == k;
    }
  }

  /** Where the element at `a` of `chs` without its element `c` came from. */
  function RemovedIndex(chs: seq<Channel>, c: nat, a: nat): (k: nat)
    requires c < |chs| && a < |chs| - 1
    ensures k < |chs| && k != c && (chs[..c] + chs[c + 1..])[a] == chs[k]
    ensures k == a || k == a + 1
  {
    if a < c then a else a + 1
  }

  /** Replacing a channel's registrations by those of other eventfds unregisters `e` from its page. */
  lemma ReplaceFiltersHolds(reg: Registry, c: nat, e: EventFd, rest: seq<Filter>)
    requires Valid(reg) && c < |reg.channels|
    requires forall g :: g in rest <==> g in reg.channels[c].filters && g.eventfd != e
    ensures Unregistered(reg, Registry(reg.channels[c := reg.channels[c].(filters := rest)]), reg.channels[c].uioreq, e)
  {
    var chs := reg.channels;
    var chs' := chs[c := chs[c].(filters := rest)];
    var reg' := Registry(chs');
    var page := chs[c].uioreq;
    forall page', g
      ensures Holds(reg', page', g) <==> Holds(reg, page', g) && !(page' == page && g.eventfd == e)
    {
      if Holds(reg', page', g) {
        var a :| 0 <= a < |chs'| && chs'[a].uioreq == page' && g in chs'[a].filters;
        if a != c {
          PageUnique(reg, a, c);
        }
      }
      if Holds(reg, page', g) && !(page' == page && g.eventfd == e) {
        var k :| 0 <= k < |chs| && chs[k].uioreq == page' && g in chs[k].filters;
        if k != c {
          assert chs'[k] == chs[k];
        } else {
          assert g in chs'[c].filters;
        }
      }
    }
    forall ch: Channel | ch.uioreq != page
      ensures ch in chs' <==> ch in chs
    {
      if ch in chs' {
        var a :| 0 <= a < |chs'| && chs'[a] == ch;
        assert a != c;
      }
      if ch in chs {
        var k :| 0 <= k < |chs| && chs[k] == ch;
        assert k != c && chs'[k] == ch;
      }
    }
  }

  /** On a valid registry two different channels are on different pages. */
  lemma PageUnique(reg: Registry, a: nat, b: nat)
    requires Valid(reg) && a < |reg.channels| && b < |reg.channels| && a != b
    ensures reg.channels[a].uioreq != reg.channels[b].uioreq
  {
    if a > b {
      PageUnique(reg, b, a);
    }
  }

  /**
   * Dropping the first registration of `e` from a list where each eventfd
   * appears at most once leaves exactly the registrations of other eventfds.
   */
  lemma RestFilters(fs: seq<Filter>, i: nat, e: EventFd)
    requires i == FindFd(fs, e) < |fs|
    requires forall a, b :: 0 <= a < b < |fs| ==> fs[a].eventfd != fs[b].eventfd
    ensures forall g :: g in fs[..i] + fs[i + 1..] <==> g in fs && g.eventfd != e
  {
    var rest := fs[..i] + fs[i + 1..];
    assert forall a :: 0 <= a < |rest| ==> rest[a] == fs[if a < i then a else a + 1];
    forall g | g in fs && g.eventfd != e
      ensures g in rest
    {
      var a :| 0 <= a < |fs| && fs[a] == g;
      assert rest[if a < i then a else a - 1] == g;
    }
  }

  /**
   * Deassign undoes assign: on a valid registry, removing the eventfd just
   * registered gives back the registry as it was, whether assign joined an
   * existing channel or opened a new one.
   */
  lemma AssignThenDeassign(reg: Registry, req: IoeventfdReq, e: EventFd, allocOk: bool, newChannel: int)
    requires Valid(reg) && newChannel <= 0
    requires Assign(reg, req, Ctx(e), allocOk, newChannel).0 == 0
    ensures Deassign(Assign(reg, req, Ctx(e), allocOk, newChannel).1, req, Ctx(e)) == (0, reg)
  {
    var chs := reg.channels;
    var c := FindPage(chs, req.uioreq);
    var f := Filter(e, req.addr, req.addrLen, req.vq);
    var reg' := Assign(reg, req, Ctx(e), allocOk, newChannel).1;
    if c < |chs| {
      var ch' := chs[c].(filters := chs[c].filters + [f]);
      FindExactIsPage(reg, c, ch', req.dom, req.vcpus);
      assert FindFd(chs[c].filters, e) == |chs[c].filters|;
      FindFdAppended(chs[c].filters, f);
      var fs' := chs[c].filters + [f];
      assert fs'[..|chs[c].filters|] + fs'[|chs[c].filters| + 1..] == chs[c].filters;
      assert ChannelValid(chs[c]);
      assert ch'.(filters := chs[c].filters) == chs[c];
      assert chs[c := ch'][c := chs[c]] == chs;
    } else {
      var ch := Channel(req.dom, req.vcpus, req.uioreq, [f]);
      FindExactAppended(reg, ch);
      assert (chs + [ch])[..|chs|] + (chs + [ch])[|chs| + 1..] == chs;
    }
  }

  /** With one channel per page, the exact lookup finds the page's channel. */
  lemma FindExactIsPage(reg: Registry, c: nat, ch: Channel, dom: DomId, vcpus: nat)
    requires Valid(reg) && c < |reg.channels| && ch.uioreq == reg.channels[c].uioreq
    requires ch.dom == dom && ch.vcpus == vcpus
    ensures FindExact(reg.channels[c := ch], dom, ch.uioreq, vcpus) == c
  {
    var chs := reg.channels[c := ch];
    var r := FindExact(chs, dom, ch.uioreq, vcpus);
    assert chs[c] == ch;
  }

  lemma FindExactAppended(reg: Registry, ch: Channel)
    requires Valid(reg) && FindPage(reg.channels, ch.uioreq) == |reg.channels|
    ensures FindExact(reg.channels + [ch], ch.dom, ch.uioreq, ch.vcpus) == |reg.channels|
  {
    var chs := reg.channels + [ch];
    var r := FindExact(chs, ch.dom, ch.uioreq, ch.vcpus);
    assert chs[|reg.channels|] == ch;
  }

  lemma FindFdAppended(fs: seq<Filter>, f: Filter)
    requires FindFd(fs, f.eventfd) == |fs|
    ensures FindFd(fs + [f], f.eventfd) == |fs|
  {
    var r := FindFd(fs + [f], f.eventfd);
    assert (fs + [f])[|fs|] == f;
  }
}
