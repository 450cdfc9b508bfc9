/**
 * The legacy IOCTL_PRIVCMD_MMAP request (privcmd_ioctl_mmap with its
 * per-entry callback mmap_gfn_range): an array of (va, mfn, npages) entries
 * maps runs of foreign frames into one fresh region, each run starting
 * exactly where the previous one ended.
 */
module LegacyMmap {
  import opened Kernel
  import opened Mm
  import opened Paging
  import opened Restriction

  /** struct privcmd_mmap_entry: three 64-bit words. */
  datatype MmapEntry = MmapEntry(va: U64, mfn: U64, npages: U64)

  /** sizeof(struct privcmd_mmap_entry). */
  const MMAP_ENTRY_SIZE: nat := 24

  /** xen_remap_domain_gfn_range: (page-aligned va, first mfn, npages, domain) to a result code. */
  type RemapRange = (U64, U64, U64, DomId) -> int

  /**
   * The first test of mmap_gfn_range: a page count whose byte size fits a
   * long, and a run that does not reach the top of the address space from
   * the cursor. A cursor of 0 fails it, since `-0` is 0 in unsigned
   * arithmetic.
   */
  predicate NoWrap(p: Platform, e: MmapEntry, va: U64)
    requires p.Valid()
  {
    e.npages <= p.MaxPages() && va != 0 && va + e.npages * p.PageSize() < U64_MODULUS
  }

  /**
   * mmap_gfn_range: map one entry at the cursor `va`, or refuse it. Returns
   * the callback's result and the cursor afterwards.
   */
  function GfnRange(p: Platform, vmEnd: U64, dom: DomId, remap: RemapRange, e: MmapEntry, va: U64): (r: (int, U64))
    requires p.Valid()
    ensures r.0 == 0 <==> && NoWrap(p, e, va) && e.va == va && va + e.npages * p.PageSize() <= vmEnd
                          && remap(p.PageAlignDown(va), e.mfn, e.npages, dom) >= 0
    ensures r.0 == 0 ==> r.1 == va + e.npages * p.PageSize()
    ensures r.0 != 0 ==> r.1 == va
    ensures !NoWrap(p, e, va) ==> r.0 == -EINVAL
    ensures e.va != va ==> r.0 == -EINVAL
    ensures NoWrap(p, e, va) && va + e.npages * p.PageSize() > vmEnd ==> r.0 == -EINVAL
    ensures && NoWrap(p, e, va) && e.va == va && va + e.npages * p.PageSize() <= vmEnd
            && remap(p.PageAlignDown(va), e.mfn, e.npages, dom) < 0 ==>
              r.0 == remap(p.PageAlignDown(va), e.mfn, e.npages, dom)
    ensures r.0 <= 0
  {
    if e.npages > p.MaxPages() || p.PagesToBytes(e.npages) >= NegU64(va) then
      (-EINVAL, va)
    else
      BoundedPagesBytes(p, e.npages);
      if e.va != va || Wrap64(e.va + p.PagesToBytes(e.npages)) > vmEnd then (-EINVAL, va)
      else
        var rc := remap(p.PageAlignDown(e.va), e.mfn, e.npages, dom);
        if rc < 0 then (rc, va) else (0, Wrap64(va + p.PagesToBytes(e.npages)))
  }

  /** The callback handed to traverse_pages, closed over the request's region and domain. */
  function GfnFn(p: Platform, vmEnd: U64, dom: DomId, remap: RemapRange): (MmapEntry, U64) -> (int, U64)
    requires p.Valid()
  {
    (e: MmapEntry, va: U64) => GfnRange(p, vmEnd, dom, remap, e, va)
  }

  /**
   * The entries map [start, end) with no gap and no overlap, in order, and
   * the hypervisor accepted every run.
   */
  ghost predicate Tiles(p: Platform, dom: DomId, remap: RemapRange, entries: seq<MmapEntry>, start: int, end: int)
    requires p.Valid()
    decreases |entries|
  {
    if entries == [] then start == end
    else
      && entries[0].va == start
      && 0 <= start
      && remap(p.PageAlignDown(entries[0].va), entries[0].mfn, entries[0].npages, dom) >= 0
      && Tiles(p, dom, remap, entries[1..], start + entries[0].npages * p.PageSize(), end)
  }

  /** A walk that completes maps the entries contiguously from the start cursor, inside the region. */
  lemma {:induction false} WalkTiles(p: Platform, vmEnd: U64, dom: DomId, remap: RemapRange,
                                     entries: seq<MmapEntry>, va: U64)
    requires p.Valid()
    ensures var r := Walk<MmapEntry, U64>(entries, GfnFn(p, vmEnd, dom, remap), va);
            r.0 == 0 ==> Tiles(p, dom, remap, entries, va, r.1) && (entries != [] ==> r.1 <= vmEnd)
    ensures Walk<MmapEntry, U64>(entries, GfnFn(p, vmEnd, dom, remap), va).0 <= 0
    decreases |entries|
  {
    if entries != [] {
      var fn := GfnFn(p, vmEnd, dom, remap);
      var step := fn(entries[0], va);
      assert step == GfnRange(p, vmEnd, dom, remap, entries[0], va);
      if step.0 == 0 {
        WalkTiles(p, vmEnd, dom, remap, entries[1..], step.1);
      }
    }
  }

  /**
   * The converse of WalkTiles: entries that tile [va, end) inside the region
   * from a non-zero cursor, each with a page count whose byte size fits a
   * long, are all mapped, and the walk ends at `end`.
   */
  lemma {:induction false} TilesWalk(p: Platform, vmEnd: U64, dom: DomId, remap: RemapRange,
                                     entries: seq<MmapEntry>, va: U64, end: int)
    requires p.Valid()
    ensures && va != 0 && end <= vmEnd
            && (forall i :: 0 <= i < |entries| ==> entries[i].npages <= p.MaxPages())
            && Tiles(p, dom, remap, entries, va, end) ==>
              Walk<MmapEntry, U64>(entries, GfnFn(p, vmEnd, dom, remap), va) == (0, end)
    decreases |entries|
  {
    if && va != 0 && end <= vmEnd && entries != []
       && (forall i :: 0 <= i < |entries| ==> entries[i].npages <= p.MaxPages())
       && Tiles(p, dom, remap, entries, va, end) {
      var e := entries[0];
      var va1 := va + e.npages * p.PageSize();
      TilesMonotone(p, dom, remap, entries[1..], va1, end);
      assert NoWrap(p, e, va);
      var fn := GfnFn(p, vmEnd, dom, remap);
      assert fn(e, va) == GfnRange(p, vmEnd, dom, remap, e, va) == (0, va1);
      assert forall i :: 0 <= i < |entries[1..]| ==> entries[1..][i].npages <= p.MaxPages() by {
        forall i | 0 <= i < |entries[1..]| ensures entries[1..][i].npages <= p.MaxPages() {
          assert entries[1..][i] == entries[i + 1];
        }
      }
      TilesWalk(p, vmEnd, dom, remap, entries[1..], va1, end);
    }
  }

  /** A tiling never ends before it starts. */
  lemma {:induction false} TilesMonotone(p: Platform, dom: DomId, remap: RemapRange, entries: seq<MmapEntry>, start: int, end: int)
    requires p.Valid() && Tiles(p, dom, remap, entries, start, end)
    ensures start <= end
    decreases |entries|
  {
    if entries != [] {
      TilesMonotone(p, dom, remap, entries[1..], start + entries[0].npages * p.PageSize(), end);
    }
  }

  /**
   * The region IOCTL_PRIVCMD_MMAP may use: one exists at the first entry's
   * address, starts there, and carries no payload yet.
   */
  predicate RegionFree(found: Option<Vma>, va: U64) {
    found.Some? && va == found.value.start && found.value.payload == Unset
  }

  /**
   * IOCTL_PRIVCMD_MMAP. `copyOk` says whether the request header could be
   * read; `readable` and `pageBudget` are the faults of gather_array;
   * `lookup` is vma_lookup on the caller's address space. Returns the result
   * and the region as the call leaves it, if the call changed one.
   */
  method IoctlMmap(h: Handle, p: Platform, copyOk: bool, dom: DomId, entries: seq<MmapEntry>,
                   readable: nat, pageBudget: nat, lookup: U64 -> Option<Vma>, remap: RemapRange)
    returns (ret: int, updated: Option<Vma>)
    requires p.Valid()
    ensures p.autoXlate ==> ret == -ENOSYS
    ensures !p.autoXlate && !copyOk ==> ret == -EFAULT
    ensures !p.autoXlate && copyOk && !h.Permits(dom) ==> ret == -EPERM
    ensures updated.Some? ==> && entries != []
                              && lookup(entries[0].va) == Some(updated.value.WithPayload(Unset))
                              && updated.value.payload == Locked
    ensures ret == 0 && entries != [] ==>
              && updated.Some?
              && exists end :: end <= updated.value.end && Tiles(p, dom, remap, entries, updated.value.start, end)
    ensures ret <= 0
    ensures var k := PerPage(p.PageSize(), MMAP_ENTRY_SIZE);
            && !p.autoXlate && copyOk && h.Permits(dom)
            && !(readable >= |entries| && pageBudget * k >= |entries|) ==>
              ret == (if pageBudget * k <= readable then -ENOMEM else -EFAULT) && updated.None?
    ensures var k := PerPage(p.PageSize(), MMAP_ENTRY_SIZE);
            && !p.autoXlate && copyOk && h.Permits(dom)
            && readable >= |entries| && pageBudget * k >= |entries| ==>
              && (entries == [] ==> ret == 0 && updated.None?)
              && (entries != [] && !RegionFree(lookup(entries[0].va), entries[0].va) ==> ret == -EINVAL && updated.None?)
              && (entries != [] && RegionFree(lookup(entries[0].va), entries[0].va) ==>
                    && ret == Walk(entries, GfnFn(p, lookup(entries[0].va).value.end, dom, remap), entries[0].va).0
                    && updated == Some(lookup(entries[0].va).value.WithPayload(Locked)))
              && (&& entries != [] && RegionFree(lookup(entries[0].va), entries[0].va)
                  && entries[0].va != 0
                  && (forall i :: 0 <= i < |entries| ==> entries[i].npages <= p.MaxPages())
                  && (exists end :: end <= lookup(entries[0].va).value.end && Tiles(p, dom, remap, entries, entries[0].va, end)) ==>
                    ret == 0 && updated == Some(lookup(entries[0].va).value.WithPayload(Locked)))
  {
    if p.autoXlate {
      return -ENOSYS, None;
    }
    if !copyOk {
      return -EFAULT, None;
    }
    if !h.Permits(dom) {
      return -EPERM, None;
    }
    var pages: seq<seq<MmapEntry>>;
    ret, pages := GatherArray(entries, MMAP_ENTRY_SIZE, p.PageSize(), readable, pageBudget);
    if ret != 0 || pages == [] {
      return ret, None;
    }
    var k := PerPage(p.PageSize(), MMAP_ENTRY_SIZE);
    assert Flatten(pages) == entries;
    assert entries != [];
    assert pages[0][0] == entries[0] by {
      assert Flatten(pages) == pages[0] + Flatten(pages[1..]);
    }
    var msg: MmapEntry := pages[0][0];
    var found := lookup(msg.va);
    if !RegionFree(found, msg.va) {
      return -EINVAL, None;
    }
    var vma := found.value.WithPayload(Locked);
    assert vma.WithPayload(Unset) == found.value;
    updated := Some(vma);
    var cursor: U64;
    ret, cursor := TraversePages<MmapEntry, U64>(pages, |entries|, MMAP_ENTRY_SIZE, p.PageSize(),
                                 GfnFn(p, vma.end, dom, remap), vma.start);
    assert entries[..|entries|] == entries;
    WalkTiles(p, vma.end, dom, remap, entries, vma.start);
    if && msg.va != 0 && (forall i :: 0 <= i < |entries| ==> entries[i].npages <= p.MaxPages())
       && (exists end :: end <= vma.end && Tiles(p, dom, remap, entries, msg.va, end)) {
      var end :| end <= vma.end && Tiles(p, dom, remap, entries, msg.va, end);
      TilesWalk(p, vma.end, dom, remap, entries, vma.start, end);
    }
  }
}
