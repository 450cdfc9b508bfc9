/**
 * Kernel-wide vocabulary shared by the privcmd model: errno values (returned
 * negated, as the driver does), Xen domain ids, 64-bit unsigned wrap-around
 * and the page geometry of the platform the driver runs on.
 */
module Kernel {

  // errno values from the Linux uapi headers
  const EPERM: int := 1
  const ENOENT: int := 2
  const E2BIG: int := 7
  const EBADF: int := 9
  const ENOMEM: int := 12
  const EFAULT: int := 14
  const EBUSY: int := 16
  const ENODEV: int := 19
  const EINVAL: int := 22
  const ENOSPC: int := 28
  const ENOSYS: int := 38

  /** Xen's domid_t is a 16-bit unsigned integer. */
  type DomId = d: int | 0 <= d < 0x1_0000

  /** The domid that stands for "no domain"; a handle holding it is unrestricted. */
  const DOMID_INVALID: DomId := 0x7FF4
  /** The domid a caller uses to name itself. */
  const DOMID_SELF: DomId := 0x7FF0

  const U64_MODULUS: int := 0x1_0000_0000_0000_0000
  const LONG_MAX: int := 0x7FFF_FFFF_FFFF_FFFF

  /** An `unsigned long` value on a 64-bit kernel. */
  predicate IsU64(x: int) {
    0 <= x < U64_MODULUS
  }

  type U64 = x: int | 0 <= x < U64_MODULUS

  /** The value an `unsigned long` expression takes after wrap-around. */
  function Wrap64(x: int): (r: U64)
    ensures IsU64(x) ==> r == x
    ensures 0 <= x < 2 * U64_MODULUS && !IsU64(x) ==> r == x - U64_MODULUS
  {
    x % U64_MODULUS
  }

  /** Unsigned negation `-x` on an `unsigned long`. */
  function NegU64(x: U64): (r: U64)
    ensures x == 0 ==> r == 0
    ensures x != 0 ==> r + x == U64_MODULUS
  {
    if x == 0 then 0 else U64_MODULUS - x
  }

  /** Size of a Xen page (XEN_PAGE_SIZE), fixed by the hypervisor ABI. */
  const XEN_PAGE_SIZE: nat := 4096

  /**
   * What the driver sees of the platform: how many Xen pages fit in one
   * kernel page (XEN_PFN_PER_PAGE) and whether the guest is auto-translated
   * (XENFEAT_auto_translated_physmap).
   */
  datatype Platform = Platform(pfnPerPage: nat, autoXlate: bool) {
    predicate Valid() {
      pfnPerPage >= 1
    }

    /** PAGE_SIZE: a kernel page is a whole number of Xen pages. */
    function PageSize(): (r: nat)
      requires Valid()
      ensures r >= XEN_PAGE_SIZE
    {
      XEN_PAGE_SIZE * pfnPerPage
    }

    /** `x << PAGE_SHIFT` evaluated in an `unsigned long`. */
    function PagesToBytes(x: nat): (r: U64)
      requires Valid()
      ensures x * PageSize() < U64_MODULUS ==> r == x * PageSize()
    {
      Wrap64(x * PageSize())
    }

    /** `addr & PAGE_MASK`: the start of the page holding `addr`. */
    function PageAlignDown(addr: U64): (r: U64)
      requires Valid()
      ensures r <= addr < r + PageSize()
    {
      addr - addr % PageSize()
    }

    /** `LONG_MAX >> PAGE_SHIFT`: the largest page count whose byte size fits a long. */
    function MaxPages(): (r: nat)
      requires Valid()
      ensures r * PageSize() <= LONG_MAX
    {
      LONG_MAX / PageSize()
    }
  }

  /** A page count that passes the `LONG_MAX >> PAGE_SHIFT` test has an exact byte size. */
  lemma BoundedPagesBytes(p: Platform, x: nat)
    requires p.Valid() && x <= p.MaxPages()
    ensures x * p.PageSize() <= LONG_MAX
    ensures p.PagesToBytes(x) == x * p.PageSize()
  {
    MulMono(x, p.MaxPages(), p.PageSize());
  }

  datatype Option<T> = None | Some(value: T)

  function Min(a: int, b: int): (r: int)
    ensures r <= a && r <= b
    ensures r == a || r == b
  {
    if a <= b then a else b
  }

  /** DIV_ROUND_UP for non-negative operands. */
  function CeilDiv(n: nat, d: nat): (r: nat)
    requires d > 0
    ensures r * d >= n
    ensures r == 0 || (r - 1) * d < n
  {
    (n + d - 1) / d
  }

  // ---------------------------------------------------------------------
  // eventfd_ctx_fdget, shared by irqfd and ioeventfd
  // ---------------------------------------------------------------------

  /** An eventfd context, known only by identity. */
  type EventFd = nat

  /**
   * How the request's file descriptor resolves: not a file (fdget fails),
   * a file that is not an eventfd, or an eventfd context.
   */
  datatype FdLookup = BadFd | NotEventfd | Ctx(eventfd: EventFd)

  /** The error a failed descriptor lookup gives. */
  function FdError(ev: FdLookup): (e: int)
    requires !ev.Ctx?
    ensures e == -EBADF || e == -EINVAL
  {
    if ev.BadFd? then -EBADF else -EINVAL
  }

  // ---------------------------------------------------------------------
  // Arithmetic helpers
  // ---------------------------------------------------------------------

  lemma DivBounds(a: nat, b: nat)
    requires b > 0
    ensures (a / b) * b <= a < (a / b + 1) * b
  {
  }

  lemma MulDiv(j: nat, size: nat)
    requires size > 0
    ensures (j * size) / size == j
  {
    var q := (j * size) / size;
    DivBounds(j * size, size);
    if q >= j + 1 {
      MulMono(j + 1, q, size);
      MulSucc(j, size);
    } else if q + 1 <= j {
      MulMono(q + 1, j, size);
    }
  }

  lemma MulSucc(j: nat, size: nat)
    ensures j * size + size == (j + 1) * size
  {
  }

  lemma MulMono(a: nat, b: nat, c: nat)
    requires a <= b
    ensures a * c <= b * c
  {
  }
}
