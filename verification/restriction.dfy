/**
 * Per-handle restriction (privcmd_ioctl_restrict and the domid checks of
 * every ioctl). An open handle is either unrestricted, holding
 * DOMID_INVALID, or bound to one domain; once bound it stays bound to that
 * domain, and every privileged request must name it.
 */
module Restriction {
  import opened Kernel

  /** The per-open-file state (struct privcmd_data). */
  datatype Handle = Handle(domid: DomId) {
    predicate Restricted() {
      domid != DOMID_INVALID
    }

    /** The check each ioctl makes before acting on domain `dom`. */
    predicate Permits(dom: DomId) {
      !Restricted() || domid == dom
    }
  }

  /** privcmd_open: a fresh handle is unrestricted. */
  function Open(): (h: Handle)
    ensures !h.Restricted()
    ensures forall dom: DomId :: h.Permits(dom)
  {
    Handle(DOMID_INVALID)
  }

  /**
   * IOCTL_PRIVCMD_RESTRICT. `copyOk` says whether the domid could be read
   * from user memory. Returns the ioctl result and the handle afterwards.
   */
  function Restrict(h: Handle, dom: DomId, copyOk: bool): (r: (int, Handle))
    ensures r.0 in {0, -EINVAL, -EFAULT}
    ensures r.0 == 0 <==> copyOk && h.Permits(dom)
    ensures r.0 != 0 ==> r.1 == h
    ensures h.Restricted() ==> r.1 == h
    ensures r.0 == 0 ==> r.1.Permits(dom) && (r.1.Restricted() <==> dom != DOMID_INVALID)
  {
    if !copyOk then (-EFAULT, h)
    else if h.domid == DOMID_INVALID then (0, Handle(dom))
    else if h.domid != dom then (-EINVAL, h)
    else (0, h)
  }

  /**
   * IOCTL_PRIVCMD_HYPERCALL: arbitrary hypercalls are refused on a
   * restricted handle before anything is read. The hypercall itself is the
   * parameter `call`, applied to the words copied from user memory.
   */
  function Hypercall(h: Handle, copyOk: bool, args: seq<int>, call: seq<int> -> int): (r: int)
    ensures h.Restricted() ==> r == -EPERM
    ensures !h.Restricted() && !copyOk ==> r == -EFAULT
    ensures !h.Restricted() && copyOk ==> r == call(args)
  {
    if h.domid != DOMID_INVALID then -EPERM
    else if !copyOk then -EFAULT
    else call(args)
  }

  /** A sequence of RESTRICT requests, each a (copyOk, domid) pair, applied in order. */
  function RestrictAll(h: Handle, reqs: seq<(bool, DomId)>): Handle
    decreases |reqs|
  {
    if reqs == [] then h else RestrictAll(Restrict(h, reqs[0].1, reqs[0].0).1, reqs[1..])
  }

  /** Once bound, a handle keeps its domain whatever RESTRICT requests follow. */
  lemma {:induction false} BindingIsPermanent(h: Handle, reqs: seq<(bool, DomId)>)
    requires h.Restricted()
    ensures RestrictAll(h, reqs) == h
    decreases |reqs|
  {
    if reqs != [] {
      BindingIsPermanent(Restrict(h, reqs[0].1, reqs[0].0).1, reqs[1..]);
    }
  }

  /**
   * The first successful RESTRICT naming a real domain decides the binding:
   * after it, later requests change nothing.
   */
  lemma FirstBindingWins(h: Handle, dom: DomId, reqs: seq<(bool, DomId)>)
    requires !h.Restricted() && dom != DOMID_INVALID
    ensures RestrictAll(h, [(true, dom)] + reqs) == Handle(dom)
  {
    assert ([(true, dom)] + reqs)[1..] == reqs;
    BindingIsPermanent(Handle(dom), reqs);
  }

  /** Re-restricting to the bound domain succeeds and changes nothing; another domain is refused. */
  lemma RestrictOnBound(h: Handle, dom: DomId)
    requires h.Restricted()
    ensures Restrict(h, dom, true) == (if dom == h.domid then (0, h) else (-EINVAL, h))
  {
  }

  /** Once bound, every other domain is refused by the per-ioctl check. */
  lemma BoundRefusesOthers(h: Handle, bound: DomId, other: DomId)
    requires !h.Restricted() && bound != DOMID_INVALID && other != bound
    ensures !Restrict(h, bound, true).1.Permits(other)
    ensures Restrict(h, bound, true).1.Permits(bound)
  {
  }
}
