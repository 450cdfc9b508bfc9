/**
 * IOCTL_PRIVCMD_MMAPBATCH and IOCTL_PRIVCMD_MMAPBATCH_V2
 * (privcmd_ioctl_mmap_batch with mmap_batch_fn, mmap_return_error and
 * mmap_return_errors).
 *
 * An array of guest frame numbers is staged into pages, mapped one page-sized
 * block per hypercall (first pass), and, only if some entry failed, the
 * per-entry outcome is written back to the caller (second pass): V1 marks
 * the failed entries of the frame array itself with a sentinel, V2 fills a
 * separate, zeroed array of error codes.
 */
module MmapBatch {
  import opened Kernel
  import opened Mm
  import opened Paging
  import opened Restriction
  import opened V1Markers

  /** sizeof(xen_pfn_t). */
  const PFN_SIZE: nat := 8

  /**
   * What xen_remap_domain_gfn_array reports for one block: the number of
   * entries mapped or a negative error, and one result code per entry.
   */
  datatype RemapOut = RemapOut(ret: int, errs: seq<int>)

  /**
   * xen_remap_domain_gfn_array as a parameter: (block of gfns, page-aligned
   * virtual address, domain, index into the region's placeholder pages on an
   * auto-translated guest).
   */
  type RemapArray = (seq<Gfn>, U64, DomId, Option<nat>) -> RemapOut

  /** The hypercall reports one code per entry of the block it is given. */
  ghost predicate RemapWellFormed(remap: RemapArray)
  {
    forall b, va, dom, idx :: |remap(b, va, dom, idx).errs| == |b|
  }

  // ---------------------------------------------------------------------
  // First pass: mmap_batch_fn
  // ---------------------------------------------------------------------

  /**
   * The tri-state global_error: 0 when nothing failed, 1 when some block fell
   * short without -ENOENT, -ENOENT once any block reported -ENOENT.
   */
  predicate IsGlobalError(ge: int) {
    ge == 0 || ge == 1 || ge == -ENOENT
  }

  /** The adjustment of global_error after one block of `nr` entries whose hypercall returned `ret`. */
  function Classify(ge: int, ret: int, nr: nat): (ge': int)
    requires IsGlobalError(ge)
    ensures IsGlobalError(ge')
    ensures ret == nr ==> ge' == ge
    ensures ret != nr && ret == -ENOENT ==> ge' == -ENOENT
    ensures ret != nr && ret != -ENOENT ==> ge' == (if ge == 0 then 1 else ge)
  {
    if ret != nr then
      if ret == -ENOENT then -ENOENT
      else if ge == 0 then 1 else ge
    else ge
  }

  /** global_error after a whole sequence of (hypercall result, block size) reports. */
  function ClassifyAll(ge: int, reports: seq<(int, nat)>): (ge': int)
    requires IsGlobalError(ge)
    ensures IsGlobalError(ge')
    decreases |reports|
  {
    if reports == [] then ge
    else ClassifyAll(Classify(ge, reports[0].0, reports[0].1), reports[1..])
  }

  ghost predicate AnyPagedOut(reports: seq<(int, nat)>) {
    exists i :: 0 <= i < |reports| && reports[i].0 == -ENOENT && reports[i].0 != reports[i].1
  }

  ghost predicate AnyShortfall(reports: seq<(int, nat)>) {
    exists i :: 0 <= i < |reports| && reports[i].0 != reports[i].1
  }

  /**
   * The ordering rule of global_error, stated without the step function:
   * -ENOENT wins as soon as one block reported it, whatever came before or
   * after; otherwise any shortfall gives 1; otherwise nothing changes.
   */
  lemma {:induction false} ClassifyAllSummary(ge: int, reports: seq<(int, nat)>)
    requires IsGlobalError(ge)
    ensures ClassifyAll(ge, reports) ==
              if ge == -ENOENT || AnyPagedOut(reports) then -ENOENT
              else if ge == 1 || AnyShortfall(reports) then 1
              else 0
    decreases |reports|
  {
    if reports != [] {
      var ge' := Classify(ge, reports[0].0, reports[0].1);
      ClassifyAllSummary(ge', reports[1..]);
      assert AnyPagedOut(reports) <==> (reports[0].0 == -ENOENT && reports[0].0 != reports[0].1) || AnyPagedOut(reports[1..]) by {
        if AnyPagedOut(reports[1..]) {
          var i :| 0 <= i < |reports[1..]| && reports[1..][i].0 == -ENOENT && reports[1..][i].0 != reports[1..][i].1;
          assert reports[i + 1] == reports[1..][i];
        }
        if AnyPagedOut(reports) {
          var i :| 0 <= i < |reports| && reports[i].0 == -ENOENT && reports[i].0 != reports[i].1;
          if i > 0 {
            assert reports[1..][i - 1] == reports[i];
          }
        }
      }
      assert AnyShortfall(reports) <==> reports[0].0 != reports[0].1 || AnyShortfall(reports[1..]) by {
        if AnyShortfall(reports[1..]) {
          var i :| 0 <= i < |reports[1..]| && reports[1..][i].0 != reports[1..][i].1;
          assert reports[i + 1] == reports[1..][i];
        }
        if AnyShortfall(reports) {
          var i :| 0 <= i < |reports| && reports[i].0 != reports[i].1;
          if i > 0 {
            assert reports[1..][i - 1] == reports[i];
          }
        }
      }
    }
  }

  /**
   * struct mmap_batch_state as far as the first pass uses it: the virtual
   * cursor, the index into the placeholder pages, global_error, and what the
   * pass has produced so far: the per-entry codes the hypercall left in each
   * page, and the (result, size) report of each block.
   */
  datatype BatchState = BatchState(va: U64, index: nat, globalError: int,
                                   codes: seq<seq<int>>, reports: seq<(int, nat)>)

  /**
   * mmap_batch_fn: map one block of gfns at the page holding the cursor
   * (`st->va & PAGE_MASK`), fold the outcome into
   * global_error and advance the cursor and index whatever happened. It
   * always returns 0, so the first pass visits every block.
   */
  function BatchFn(p: Platform, dom: DomId, remap: RemapArray, block: seq<Gfn>, st: BatchState): (r: (int, BatchState))
    requires p.Valid()
    ensures r.0 == 0
    ensures r.1.va == Wrap64(st.va + XEN_PAGE_SIZE * |block|)
    ensures r.1.index == st.index + |block| / p.pfnPerPage
    ensures r.1.reports == st.reports + [(remap(block, p.PageAlignDown(st.va), dom, if p.autoXlate then Some(st.index) else None).ret, |block|)]
    ensures r.1.codes == st.codes + [remap(block, p.PageAlignDown(st.va), dom, if p.autoXlate then Some(st.index) else None).errs]
    ensures IsGlobalError(st.globalError) ==>
              r.1.globalError == Classify(st.globalError, r.1.reports[|st.reports|].0, |block|)
  {
    var curPages := if p.autoXlate then Some(st.index) else None;
    var out := remap(block, p.PageAlignDown(st.va), dom, curPages);
    var nr := |block|;
    var ge :=
      if out.ret != nr then
        if out.ret == -ENOENT then -ENOENT
        else if st.globalError == 0 then 1 else st.globalError
      else st.globalError;
    (0, BatchState(Wrap64(st.va + XEN_PAGE_SIZE * nr), st.index + nr / p.pfnPerPage, ge,
                   st.codes + [out.errs], st.reports + [(out.ret, nr)]))
  }

  function BatchFnOf(p: Platform, dom: DomId, remap: RemapArray): (seq<Gfn>, BatchState) -> (int, BatchState)
    requires p.Valid()
  {
    (block: seq<Gfn>, st: BatchState) => BatchFn(p, dom, remap, block, st)
  }

  /** The first pass over the staged gfns: traverse_pages_block with mmap_batch_fn. */
  function FirstPass(p: Platform, dom: DomId, remap: RemapArray, gfns: seq<Gfn>, addr: U64): BatchState
    requires p.Valid()
  {
    var k := PerPage(p.PageSize(), PFN_SIZE);
    TraverseBlocks(Chunk(gfns, k), |gfns|, k, BatchFnOf(p, dom, remap), BatchState(addr, 0, 0, [], [])).1
  }

  /**
   * What the first pass accomplishes, as a walk over the blocks: it never
   * stops early, and it adds one report and one page of codes per block, in
   * order, each the size of its block.
   */
  lemma {:induction false} BatchWalkShape(p: Platform, dom: DomId, remap: RemapArray, blocks: seq<seq<Gfn>>, st: BatchState)
    requires p.Valid() && RemapWellFormed(remap)
    ensures var r := Walk(blocks, BatchFnOf(p, dom, remap), st);
      && r.0 == 0
      && |r.1.reports| == |st.reports| + |blocks|
      && |r.1.codes| == |st.codes| + |blocks|
      && st.reports <= r.1.reports
      && st.codes <= r.1.codes
      && (forall i :: 0 <= i < |blocks| ==>
            r.1.reports[|st.reports| + i].1 == |blocks[i]| && |r.1.codes[|st.codes| + i]| == |blocks[i]|)
    decreases |blocks|
  {
    var fn := BatchFnOf(p, dom, remap);
    if blocks != [] {
      var step := fn(blocks[0], st);
      assert step == BatchFn(p, dom, remap, blocks[0], st);
      var s1 := step.1;
      BatchWalkShape(p, dom, remap, blocks[1..], s1);
      var r := Walk(blocks, fn, st);
      assert r == Walk(blocks[1..], fn, s1);
      forall i | 0 <= i < |blocks|
        ensures r.1.reports[|st.reports| + i].1 == |blocks[i]|
        ensures |r.1.codes[|st.codes| + i]| == |blocks[i]|
      {
        if i > 0 {
          assert blocks[1..][i - 1] == blocks[i];
        } else {
          assert r.1.reports[|st.reports|] == s1.reports[|st.reports|];
          assert r.1.codes[|st.codes|] == s1.codes[|st.codes|];
        }
      }
    }
  }

  /** After the first pass, global_error is the fold of the block reports it made. */
  lemma {:induction false} BatchWalkGlobalError(p: Platform, dom: DomId, remap: RemapArray, blocks: seq<seq<Gfn>>, st: BatchState)
    requires p.Valid() && RemapWellFormed(remap) && IsGlobalError(st.globalError)
    ensures var r := Walk(blocks, BatchFnOf(p, dom, remap), st);
      && |st.reports| <= |r.1.reports|
      && r.1.globalError == ClassifyAll(st.globalError, r.1.reports[|st.reports|..])
    decreases |blocks|
  {
    BatchWalkShape(p, dom, remap, blocks, st);
    var fn := BatchFnOf(p, dom, remap);
    if blocks == [] {
      assert st.reports[|st.reports|..] == [];
    } else {
      var step := fn(blocks[0], st);
      assert step == BatchFn(p, dom, remap, blocks[0], st);
      var s1 := step.1;
      BatchWalkShape(p, dom, remap, blocks[1..], s1);
      BatchWalkGlobalError(p, dom, remap, blocks[1..], s1);
      var r := Walk(blocks, fn, st);
      assert r == Walk(blocks[1..], fn, s1);
      var tail := r.1.reports[|st.reports|..];
      assert tail[0] == s1.reports[|st.reports|];
      assert tail[1..] == r.1.reports[|s1.reports|..];
    }
  }

  /** The first pass advances the cursor by XEN_PAGE_SIZE per entry, modulo 2^64. */
  lemma BatchWalkCursor(p: Platform, dom: DomId, remap: RemapArray, blocks: seq<seq<Gfn>>, st: BatchState)
    requires p.Valid()
    ensures Walk(blocks, BatchFnOf(p, dom, remap), st).1.va == Wrap64(st.va + XEN_PAGE_SIZE * |Flatten(blocks)|)
  {
    var fn := BatchFnOf(p, dom, remap);
    forall b, s ensures fn(b, s).0 == 0 && fn(b, s).1.va == Wrap64(s.va + XEN_PAGE_SIZE * |b|) {
      assert fn(b, s) == BatchFn(p, dom, remap, b, s);
    }
    WalkCursor(blocks, fn, st);
  }

  /** A step that never fails and advances the cursor by XEN_PAGE_SIZE per entry, modulo 2^64. */
  ghost predicate AdvancesCursor(fn: (seq<Gfn>, BatchState) -> (int, BatchState)) {
    forall b, s :: fn(b, s).0 == 0 && fn(b, s).1.va == Wrap64(s.va + XEN_PAGE_SIZE * |b|)
  }

  lemma {:induction false} WalkCursor(blocks: seq<seq<Gfn>>, fn: (seq<Gfn>, BatchState) -> (int, BatchState), st: BatchState)
    requires AdvancesCursor(fn)
    ensures Walk(blocks, fn, st).1.va == Wrap64(st.va + XEN_PAGE_SIZE * |Flatten(blocks)|)
    decreases |blocks|
  {
    if blocks != [] {
      var rest := blocks[1..];
      var s1 := fn(blocks[0], st).1;
      assert Walk(blocks, fn, st) == Walk(rest, fn, s1);
      WalkCursor(rest, fn, s1);
      var a := |blocks[0]|;
      var b := |Flatten(rest)|;
      assert |Flatten(blocks)| == a + b by {
        assert Flatten(blocks) == blocks[0] + Flatten(rest);
      }
      CursorAdd(st.va, a, b, |Flatten(blocks)|, s1.va, Walk(rest, fn, s1).1.va);
    } else {
      assert |Flatten(blocks)| == 0;
    }
  }

  /** Two advances of the cursor, each modulo 2^64, are one advance over both. */
  lemma CursorAdd(va: int, a: nat, b: nat, n: nat, v1: int, v2: int)
    requires n == a + b
    requires v1 == Wrap64(va + XEN_PAGE_SIZE * a)
    requires v2 == Wrap64(v1 + XEN_PAGE_SIZE * b)
    ensures v2 == Wrap64(va + XEN_PAGE_SIZE * n)
  {
    assert XEN_PAGE_SIZE * n == XEN_PAGE_SIZE * a + XEN_PAGE_SIZE * b;
  }

  // ---------------------------------------------------------------------
  // Second pass: mmap_return_errors and mmap_return_error
  // ---------------------------------------------------------------------

  /**
   * The caller's arrays as the second pass writes them: the gfn array (V1)
   * and the error array (V2), and the index of the entry reported next
   * (the advance of user_gfn / user_err).
   */
  datatype WriteBack = WriteBack(pos: nat, arr: seq<Gfn>, errArr: seq<int>)

  /**
   * How failures are reported: the request version, the V1 markers, and how
   * many leading entries of the array the version writes into the caller
   * can actually access.
   */
  datatype Reporting = Reporting(version: int, markers: Markers, writable: nat)

  /** The number of leading entries of its target array the second pass can write. */
  function Room(rp: Reporting, st: WriteBack): nat
  {
    if rp.version == 1 then Min(rp.writable, |st.arr|) else Min(rp.writable, |st.errArr|)
  }

  /**
   * mmap_return_error: report one entry's code. A zero code only advances
   * the position; a failure is written at the position (V1: the marker ORed
   * into the gfn read back from the caller; V2: the code itself), or, when
   * that entry of the caller's array cannot be accessed, the walk stops with
   * -EFAULT.
   */
  function ReturnError(rp: Reporting, err: int, st: WriteBack): (r: (int, WriteBack))
    ensures r.0 == 0 || r.0 == -EFAULT
    ensures r.0 == -EFAULT <==> err != 0 && st.pos >= Room(rp, st)
    ensures r.0 == -EFAULT ==> r.1 == st
    ensures r.0 == 0 ==> r.1.pos == st.pos + 1 && Room(rp, r.1) == Room(rp, st)
    ensures r.0 == 0 && (err == 0 || rp.version != 1) ==> r.1.arr == st.arr
    ensures r.0 == 0 && (err == 0 || rp.version == 1) ==> r.1.errArr == st.errArr
    ensures r.0 == 0 && err != 0 && rp.version == 1 ==>
              r.1.arr == st.arr[st.pos := rp.markers.Mark(st.arr[st.pos], err)]
    ensures r.0 == 0 && err != 0 && rp.version != 1 ==> r.1.errArr == st.errArr[st.pos := err]
  {
    if rp.version == 1 then
      if err != 0 then
        if st.pos >= rp.writable || st.pos >= |st.arr| then (-EFAULT, st)
        else (0, st.(pos := st.pos + 1, arr := st.arr[st.pos := rp.markers.Mark(st.arr[st.pos], err)]))
      else (0, st.(pos := st.pos + 1))
    else
      if err != 0 then
        if st.pos >= rp.writable || st.pos >= |st.errArr| then (-EFAULT, st)
        else (0, st.(pos := st.pos + 1, errArr := st.errArr[st.pos := err]))
      else (0, st.(pos := st.pos + 1))
  }

  function ReturnErrorFn(rp: Reporting): (int, WriteBack) -> (int, WriteBack)
  {
    (err: int, st: WriteBack) => ReturnError(rp, err, st)
  }

  /**
   * The index of the first entry the second pass cannot report, looking
   * from `from` on: the first failed entry at or beyond the writable room,
   * or |codes| when there is none.
   */
  function FirstUnreportable(codes: seq<int>, room: nat, from: nat): (r: nat)
    requires from <= |codes|
    ensures from <= r <= |codes|
    ensures forall i :: from <= i < r ==> codes[i] == 0 || i < room
    ensures r < |codes| ==> codes[r] != 0 && r >= room
    decreases |codes| - from
  {
    if from == |codes| then from
    else if codes[from] != 0 && from >= room then from
    else FirstUnreportable(codes, room, from + 1)
  }

  /**
   * The reference outcome of reporting the first `upto` entries of `codes`
   * into the arrays of `st`: every failed entry below `upto` is marked (V1)
   * or has its code stored (V2); every other entry is as it was.
   */
  function Reported(rp: Reporting, codes: seq<int>, upto: nat, st: WriteBack): (r: WriteBack)
    requires upto <= |codes|
    ensures r.pos == upto && |r.arr| == |st.arr| && |r.errArr| == |st.errArr|
  {
    WriteBack(
      upto,
      if rp.version == 1 then
        seq(|st.arr|, i requires 0 <= i < |st.arr| =>
          if i < upto then rp.markers.Mark(st.arr[i], codes[i]) else st.arr[i])
      else st.arr,
      if rp.version == 1 then st.errArr
      else
        seq(|st.errArr|, i requires 0 <= i < |st.errArr| =>
          if i < upto && codes[i] != 0 then codes[i] else st.errArr[i]))
  }

  /**
   * The record walk of the second pass over all entry codes: it reports
   * every entry up to the first one it cannot write back, and fails with
   * -EFAULT exactly when there is such an entry.
   */
  lemma ReturnErrorsWalk(rp: Reporting, codes: seq<int>, st0: WriteBack)
    requires st0.pos == 0
    ensures var stop := FirstUnreportable(codes, Room(rp, st0), 0);
            Walk(codes, ReturnErrorFn(rp), st0) ==
              (if stop < |codes| then -EFAULT else 0, Reported(rp, codes, stop, st0))
  {
    ReportedNone(rp, codes, st0);
    ReturnErrorsFrom(rp, codes, 0, st0);
    assert codes[0..] == codes;
  }

  lemma ReportedNone(rp: Reporting, codes: seq<int>, st0: WriteBack)
    requires st0.pos == 0
    ensures Reported(rp, codes, 0, st0) == st0
  {
  }

  lemma {:induction false} ReturnErrorsFrom(rp: Reporting, codes: seq<int>, n: nat, st0: WriteBack)
    requires n <= |codes|
    requires forall i :: 0 <= i < n ==> codes[i] == 0 || i < Room(rp, st0)
    ensures var stop := FirstUnreportable(codes, Room(rp, st0), n);
            Walk(codes[n..], ReturnErrorFn(rp), Reported(rp, codes, n, st0)) ==
              (if stop < |codes| then -EFAULT else 0, Reported(rp, codes, stop, st0))
    decreases |codes| - n
  {
    var st := Reported(rp, codes, n, st0);
    var room := Room(rp, st0);
    assert Room(rp, st) == room;
    if n < |codes| {
      var step := ReturnError(rp, codes[n], st);
      assert ReturnErrorFn(rp)(codes[n..][0], st) == step;
      if codes[n] != 0 && n >= room {
        assert FirstUnreportable(codes, room, n) == n;
      } else {
        ReportStep(rp, codes, n, st0);
        assert codes[n..][1..] == codes[n + 1..];
        ReturnErrorsFrom(rp, codes, n + 1, st0);
      }
    }
  }

  /** One successful report extends the reference outcome by one entry. */
  lemma ReportStep(rp: Reporting, codes: seq<int>, n: nat, st0: WriteBack)
    requires n < |codes|
    requires codes[n] == 0 || n < Room(rp, st0)
    ensures ReturnError(rp, codes[n], Reported(rp, codes, n, st0)) == (0, Reported(rp, codes, n + 1, st0))
  {
    var st := Reported(rp, codes, n, st0);
    assert Room(rp, st) == Room(rp, st0);
    if rp.version == 1 {
      ReportStepGfn(rp, codes, n, st0);
    } else {
      ReportStepErr(rp, codes, n, st0);
    }
  }

  lemma ReportStepGfn(rp: Reporting, codes: seq<int>, n: nat, st0: WriteBack)
    requires rp.version == 1
    requires n < |codes|
    requires codes[n] == 0 || n < Min(rp.writable, |st0.arr|)
    ensures ReturnError(rp, codes[n], Reported(rp, codes, n, st0)).1.arr == Reported(rp, codes, n + 1, st0).arr
  {
    var st := Reported(rp, codes, n, st0);
    var next := Reported(rp, codes, n + 1, st0);
    var arr := ReturnError(rp, codes[n], st).1.arr;
    if codes[n] == 0 {
      assert arr == st.arr;
      forall i | 0 <= i < |next.arr|
        ensures st.arr[i] == next.arr[i]
      {
      }
    } else {
      assert st.arr[n] == st0.arr[n];
      assert arr == st.arr[n := rp.markers.Mark(st.arr[n], codes[n])];
      forall i | 0 <= i < |next.arr|
        ensures arr[i] == next.arr[i]
      {
        if i != n {
          assert arr[i] == st.arr[i];
        }
      }
    }
  }

  lemma ReportStepErr(rp: Reporting, codes: seq<int>, n: nat, st0: WriteBack)
    requires rp.version != 1
    requires n < |codes|
    requires codes[n] == 0 || n < Min(rp.writable, |st0.errArr|)
    ensures ReturnError(rp, codes[n], Reported(rp, codes, n, st0)).1.errArr == Reported(rp, codes, n + 1, st0).errArr
  {
    var st := Reported(rp, codes, n, st0);
    var next := Reported(rp, codes, n + 1, st0);
    var errArr := ReturnError(rp, codes[n], st).1.errArr;
    assert |errArr| == |next.errArr|;
    forall i | 0 <= i < |next.errArr|
      ensures errArr[i] == next.errArr[i]
    {
      if i != n {
        assert errArr[i] == st.errArr[i];
      }
    }
  }

  // ---------------------------------------------------------------------
  // Both passes and the result rule
  // ---------------------------------------------------------------------

  /** The second pass: traverse_pages_block over the codes the hypercall left in the pages. */
  function SecondPass(p: Platform, rp: Reporting, codes: seq<seq<int>>, num: nat, st0: WriteBack): (int, WriteBack)
    requires p.Valid()
    requires Packed(codes, PerPage(p.PageSize(), PFN_SIZE))
    requires num <= |Flatten(codes)|
  {
    TraverseBlocks(codes, num, PerPage(p.PageSize(), PFN_SIZE), BlockOf(ReturnErrorFn(rp)), st0)
  }

  /** The block walk of the second pass is the entry-by-entry report over all codes. */
  lemma SecondPassWalk(p: Platform, rp: Reporting, codes: seq<seq<int>>, st0: WriteBack)
    requires p.Valid()
    requires Packed(codes, PerPage(p.PageSize(), PFN_SIZE))
    ensures SecondPass(p, rp, codes, |Flatten(codes)|, st0) == Walk(Flatten(codes), ReturnErrorFn(rp), st0)
  {
    var k := PerPage(p.PageSize(), PFN_SIZE);
    PackedUnique(codes, k);
    TraverseBlocksIsWalk(Flatten(codes), k, BlockOf(ReturnErrorFn(rp)), st0);
    WalkFlatten(codes, ReturnErrorFn(rp), st0);
  }

  /**
   * The first pass from a fresh state: the codes it leaves have the layout
   * of the staged gfns, global_error summarises its reports, and the cursor
   * ends XEN_PAGE_SIZE bytes per entry further on.
   */
  lemma FirstPassFacts(p: Platform, dom: DomId, remap: RemapArray, gfns: seq<Gfn>, addr: U64)
    requires p.Valid() && RemapWellFormed(remap)
    ensures var fp := FirstPass(p, dom, remap, gfns, addr);
            && Packed(fp.codes, PerPage(p.PageSize(), PFN_SIZE))
            && |Flatten(fp.codes)| == |gfns|
            && fp.globalError == ClassifyAll(0, fp.reports)
            && fp.va == Wrap64(addr + XEN_PAGE_SIZE * |gfns|)
  {
    var k := PerPage(p.PageSize(), PFN_SIZE);
    var fn := BatchFnOf(p, dom, remap);
    var st0 := BatchState(addr, 0, 0, [], []);
    var blocks := Chunk(gfns, k);
    var r := Walk(blocks, fn, st0);
    assert FirstPass(p, dom, remap, gfns, addr) == r.1 by {
      TraverseBlocksIsWalk(gfns, k, fn, st0);
    }
    assert r.1.va == Wrap64(addr + XEN_PAGE_SIZE * |gfns|) by {
      BatchWalkCursor(p, dom, remap, blocks, st0);
      assert |Flatten(blocks)| == |gfns|;
    }
    assert r.1.globalError == ClassifyAll(0, r.1.reports) by {
      BatchWalkShape(p, dom, remap, blocks, st0);
      BatchWalkGlobalError(p, dom, remap, blocks, st0);
      assert r.1.reports[0..] == r.1.reports;
    }
    assert Packed(r.1.codes, k) && |Flatten(r.1.codes)| == |gfns| by {
      BatchWalkShape(p, dom, remap, blocks, st0);
      forall i | 0 <= i < |blocks|
        ensures |blocks[i]| == |r.1.codes[i]|
      {
        assert |r.1.codes[|st0.codes| + i]| == |blocks[i]|;
      }
      SameShape(blocks, r.1.codes, k);
    }
  }

  /**
   * What privcmd_ioctl_mmap_batch does once the region is accepted: the
   * first pass; the second pass, writing back into `wb0`, only if
   * global_error is set; and the result rule (a completed second pass
   * returns -ENOENT when some block reported -ENOENT).
   */
  function Passes(p: Platform, dom: DomId, remap: RemapArray, gfns: seq<Gfn>, addr: U64,
                  rp: Reporting, wb0: WriteBack): (r: (int, WriteBack))
    requires p.Valid() && RemapWellFormed(remap) && wb0.pos == 0
    ensures var fp := FirstPass(p, dom, remap, gfns, addr);
            var codes := Flatten(fp.codes);
            var stop := FirstUnreportable(codes, Room(rp, wb0), 0);
            && |codes| == |gfns|
            && (r.0 == -ENOENT <==> AnyPagedOut(fp.reports) && stop == |gfns|)
            && (r.0 == -EFAULT <==> AnyShortfall(fp.reports) && stop < |gfns|)
            && (r.0 == 0 <==> !AnyPagedOut(fp.reports) && (AnyShortfall(fp.reports) ==> stop == |gfns|))
            && r.1 == (if AnyShortfall(fp.reports) then Reported(rp, codes, stop, wb0) else wb0)
  {
    FirstPassFacts(p, dom, remap, gfns, addr);
    var fp := FirstPass(p, dom, remap, gfns, addr);
    ClassifyAllSummary(0, fp.reports);
    PagedOutIsShortfall(fp.reports);
    if fp.globalError == 0 then (0, wb0)
    else
      SecondPassWalk(p, rp, fp.codes, wb0);
      ReturnErrorsWalk(rp, Flatten(fp.codes), wb0);
      var wb := SecondPass(p, rp, fp.codes, |gfns|, wb0);
      (if wb.0 == 0 && fp.globalError == -ENOENT then -ENOENT else wb.0, wb.1)
  }

  lemma PagedOutIsShortfall(reports: seq<(int, nat)>)
    ensures AnyPagedOut(reports) ==> AnyShortfall(reports)
  {
  }

  // ---------------------------------------------------------------------
  // What the caller reads back
  // ---------------------------------------------------------------------

  function Zeros(n: nat): (z: seq<int>)
    ensures |z| == n && forall i :: 0 <= i < n ==> z[i] == 0
  {
    seq(n, i => 0)
  }

  /**
   * V2 after clear_user: when every entry of the zeroed error array can be
   * written, the second pass never faults, and if it runs the caller's
   * error array ends up holding exactly the per-entry codes.
   */
  lemma V2ReportsEveryCode(p: Platform, dom: DomId, remap: RemapArray, gfns: seq<Gfn>, addr: U64,
                           rp: Reporting, arr: seq<Gfn>)
    requires p.Valid() && RemapWellFormed(remap)
    requires rp.version == 2 && rp.writable >= |gfns|
    ensures var r := Passes(p, dom, remap, gfns, addr, rp, WriteBack(0, arr, Zeros(|gfns|)));
            var fp := FirstPass(p, dom, remap, gfns, addr);
            && r.0 != -EFAULT
            && r.1.arr == arr
            && r.1.errArr == (if AnyShortfall(fp.reports) then Flatten(fp.codes) else Zeros(|gfns|))
  {
    var wb0 := WriteBack(0, arr, Zeros(|gfns|));
    var fp := FirstPass(p, dom, remap, gfns, addr);
    var codes := Flatten(fp.codes);
    var r := Passes(p, dom, remap, gfns, addr, rp, wb0);
    var stop := FirstUnreportable(codes, Room(rp, wb0), 0);
    assert Room(rp, wb0) == |gfns|;
    if AnyShortfall(fp.reports) {
      var e := Reported(rp, codes, stop, wb0).errArr;
      assert |e| == |codes|;
      forall i | 0 <= i < |codes|
        ensures e[i] == codes[i]
      {
      }
    }
  }

  /**
   * V1: when every entry of the caller's gfn array can be written, the
   * second pass never faults; if it runs, every entry ends up marked with its
   * outcome (left as it was when mapped, the paged-out or the generic marker
   * ORed in otherwise), and the error array is never touched.
   */
  lemma V1MarksEveryEntry(p: Platform, dom: DomId, remap: RemapArray, gfns: seq<Gfn>, addr: U64,
                          rp: Reporting, errArr: seq<int>)
    requires p.Valid() && RemapWellFormed(remap)
    requires rp.version == 1 && rp.writable >= |gfns|
    ensures var r := Passes(p, dom, remap, gfns, addr, rp, WriteBack(0, gfns, errArr));
            var fp := FirstPass(p, dom, remap, gfns, addr);
            && r.0 != -EFAULT
            && r.1.errArr == errArr
            && |r.1.arr| == |gfns|
            && forall i :: 0 <= i < |gfns| ==>
                 r.1.arr[i] == (if AnyShortfall(fp.reports) then rp.markers.Mark(gfns[i], Flatten(fp.codes)[i]) else gfns[i])
  {
    var wb0 := WriteBack(0, gfns, errArr);
    assert Room(rp, wb0) == |gfns|;
  }
}
