/**
 * Paged staging of user arrays (gather_array, traverse_pages,
 * traverse_pages_block).
 *
 * A user array of fixed-size records is copied into a list of kernel pages,
 * `PAGE_SIZE / size` records per page, so that no large contiguous
 * allocation is needed. The list is then walked either record by record or
 * one page-sized block at a time. A page list is modelled as a sequence of
 * pages, each page as the sequence of records it holds.
 */
module Paging {
  import opened Kernel

  /** The records of a page list, in list order. */
  function Flatten<T>(pages: seq<seq<T>>): seq<T>
  {
    if pages == [] then [] else pages[0] + Flatten(pages[1..])
  }

  /** How many records of `size` bytes one page of `pageSize` bytes holds. */
  function PerPage(pageSize: nat, size: nat): (k: nat)
    requires 0 < size <= pageSize
    ensures 1 <= k <= pageSize
  {
    DivBounds(pageSize, size);
    var k := pageSize / size;
    assert k <= k * size by {
      MulMono(1, size, k);
    }
    k
  }

  /** `PerPage` records fit in a page and one more would not. */
  lemma PerPageFits(pageSize: nat, size: nat)
    requires 0 < size <= pageSize
    ensures var k := PerPage(pageSize, size);
            k * size <= pageSize < (k + 1) * size
  {
    DivBounds(pageSize, size);
  }

  /** The bytes that `j` records of `size` bytes take in a page. */
  function Used(j: nat, size: nat): nat
  {
    if j == 0 then 0 else Used(j - 1, size) + size
  }

  lemma {:induction false} UsedIsProduct(j: nat, size: nat)
    ensures Used(j, size) == j * size
  {
    if j > 0 {
      UsedIsProduct(j - 1, size);
      MulSucc(j - 1, size);
    }
  }

  /** The reference packing: consecutive runs of `k` records, the last run possibly shorter. */
  function Chunk<T>(xs: seq<T>, k: nat): (pages: seq<seq<T>>)
    requires k > 0
    ensures Flatten(pages) == xs
    ensures Packed(pages, k)
    decreases |xs|
  {
    if xs == [] then []
    else if |xs| <= k then
      FlattenSingle(xs);
      [xs]
    else
      var rest := Chunk(xs[k..], k);
      PackedCons(xs[..k], rest, k);
      assert xs[..k] + xs[k..] == xs;
      [xs[..k]] + rest
  }

  /** Every page is non-empty and holds at most `k` records; all but the last hold exactly `k`. */
  ghost predicate Packed<T>(pages: seq<seq<T>>, k: nat)
  {
    && (forall i :: 0 <= i < |pages| ==> 0 < |pages[i]| <= k)
    && (forall i :: 0 <= i < |pages| - 1 ==> |pages[i]| == k)
  }

  /**
   * The record-by-record walk: calls `fn` on each record in order, threading
   * its state, and stops at the first non-zero result, which it returns.
   */
  function Walk<T, S>(xs: seq<T>, fn: (T, S) -> (int, S), s: S): (int, S)
    decreases |xs|
  {
    if xs == [] then (0, s)
    else
      var (ret, s') := fn(xs[0], s);
      if ret != 0 then (ret, s') else Walk(xs[1..], fn, s')
  }

  /** The block sizes a block walk over `n` records hands out, `k` per page. */
  function BlockSizes(n: nat, k: nat): seq<nat>
    requires k > 0
    decreases n
  {
    if n == 0 then [] else [Min(k, n) as nat] + BlockSizes(n - Min(k, n), k)
  }

  function Sum(xs: seq<nat>): nat
  {
    if xs == [] then 0 else xs[0] + Sum(xs[1..])
  }

  function Sizes<T>(pages: seq<seq<T>>): (r: seq<nat>)
    ensures |r| == |pages|
    ensures forall i :: 0 <= i < |pages| ==> r[i] == |pages[i]|
  {
    seq(|pages|, i requires 0 <= i < |pages| => |pages[i]|)
  }

  // ---------------------------------------------------------------------
  // Arithmetic helpers
  // ---------------------------------------------------------------------

  /**
   * The page-full test of the copy loops: with `j` records already in the
   * page, `pageidx = j * size > PAGE_SIZE - size` exactly when the page holds
   * `PAGE_SIZE / size` records; below that, `pageidx / size` is the slot of
   * the next record.
   */
  lemma SlotFull(j: nat, size: nat, pageSize: nat)
    requires 0 < size <= pageSize
    requires j <= PerPage(pageSize, size)
    ensures Used(j, size) <= pageSize
    ensures Used(j, size) > pageSize - size <==> j == PerPage(pageSize, size)
    ensures Used(j, size) / size == j
  {
    var k := PerPage(pageSize, size);
    PerPageFits(pageSize, size);
    UsedIsProduct(j, size);
    MulDiv(j, size);
    if j < k {
      assert j + 1 <= k;
      assert (j + 1) * size <= k * size by {
        MulMono(j + 1, k, size);
      }
      MulSucc(j, size);
    }
    MulMono(j, k, size);
  }

  // ---------------------------------------------------------------------
  // Page-list lemmas
  // ---------------------------------------------------------------------

  lemma {:induction false} FlattenAppend<T>(a: seq<seq<T>>, b: seq<seq<T>>)
    ensures Flatten(a + b) == Flatten(a) + Flatten(b)
    decreases |a|
  {
    if a == [] {
      assert a + b == b;
    } else {
      assert (a + b)[1..] == a[1..] + b;
      FlattenAppend(a[1..], b);
    }
  }

  lemma FlattenSplit<T>(pages: seq<seq<T>>, c: nat)
    requires c <= |pages|
    ensures Flatten(pages) == Flatten(pages[..c]) + Flatten(pages[c..])
  {
    assert pages == pages[..c] + pages[c..];
    FlattenAppend(pages[..c], pages[c..]);
  }

  lemma FlattenSnoc<T>(pages: seq<seq<T>>, c: nat)
    requires c < |pages|
    ensures Flatten(pages[..c + 1]) == Flatten(pages[..c]) + pages[c]
  {
    assert pages[..c + 1] == pages[..c] + [pages[c]];
    FlattenAppend(pages[..c], [pages[c]]);
    assert Flatten([pages[c]]) == pages[c] + Flatten<T>([]);
  }

  lemma FlattenSingle<T>(p: seq<T>)
    ensures Flatten([p]) == p
  {
    assert [p][1..] == [];
  }

  /** Putting a full page in front of a packed list keeps it packed. */
  lemma PackedCons<T>(p: seq<T>, rest: seq<seq<T>>, k: nat)
    requires |p| == k > 0 && Packed(rest, k)
    ensures Packed([p] + rest, k)
    ensures Flatten([p] + rest) == p + Flatten(rest)
  {
    assert ([p] + rest)[1..] == rest;
  }

  /** Appending a record to the last page extends the flattened records by that record. */
  lemma FlattenPushLast<T>(pages: seq<seq<T>>, x: T)
    requires pages != []
    ensures Flatten(pages[..|pages| - 1] + [pages[|pages| - 1] + [x]]) == Flatten(pages) + [x]
  {
    var n := |pages| - 1;
    var front := pages[..n];
    var last := pages[n];
    var a := Flatten(front);
    assert front + [last] == pages;
    assert Flatten(front + [last + [x]]) == a + (last + [x]) by {
      FlattenAppend(front, [last + [x]]);
      FlattenSingle(last + [x]);
    }
    assert Flatten(pages) == a + last by {
      FlattenAppend(front, [last]);
      FlattenSingle(last);
    }
    AppendAssoc(a, last, [x]);
  }

  lemma AppendAssoc<T>(a: seq<T>, b: seq<T>, c: seq<T>)
    ensures a + (b + c) == (a + b) + c
  {
  }

  lemma {:induction false} FlattenLength<T>(pages: seq<seq<T>>, k: nat)
    requires pages != []
    requires forall i :: 0 <= i < |pages| - 1 ==> |pages[i]| == k
    ensures |Flatten(pages)| == (|pages| - 1) * k + |pages[|pages| - 1]|
    decreases |pages|
  {
    if |pages| == 1 {
      FlattenSingle(pages[0]);
      assert pages == [pages[0]];
    } else {
      var rest := pages[1..];
      assert forall i :: 0 <= i < |rest| - 1 ==> rest[i] == pages[i + 1];
      FlattenLength(rest, k);
      assert rest[|rest| - 1] == pages[|pages| - 1];
      assert |Flatten(pages)| == k + |Flatten(rest)|;
      MulSucc(|rest| - 1, k);
    }
  }

  /** A packed page list is the chunking of its own records: the packing is unique. */
  lemma {:induction false} PackedUnique<T>(pages: seq<seq<T>>, k: nat)
    requires k > 0
    requires Packed(pages, k)
    ensures pages == Chunk(Flatten(pages), k)
    decreases |pages|
  {
    if pages == [] {
    } else if |pages| == 1 {
      assert pages == [pages[0]];
      FlattenSingle(pages[0]);
    } else {
      var xs := Flatten(pages);
      assert |pages[0]| == k;
      PackedUnique(pages[1..], k);
      assert xs == pages[0] + Flatten(pages[1..]);
      assert xs[..k] == pages[0];
      assert xs[k..] == Flatten(pages[1..]);
      assert |Flatten(pages[1..])| > 0 by {
        assert |pages[1..][0]| > 0;
        assert Flatten(pages[1..]) == pages[1..][0] + Flatten(pages[1..][1..]);
      }
      assert pages == [pages[0]] + pages[1..];
    }
  }

  /** The block sizes cover the whole array: they sum to `n`, each is `min(k, remaining)`. */
  lemma {:induction false} BlockSizesSum(n: nat, k: nat)
    requires k > 0
    ensures Sum(BlockSizes(n, k)) == n
    ensures forall i :: 0 <= i < |BlockSizes(n, k)| ==> 0 < BlockSizes(n, k)[i] <= k
    ensures forall i :: 0 <= i < |BlockSizes(n, k)| - 1 ==> BlockSizes(n, k)[i] == k
    decreases n
  {
    if n > 0 {
      BlockSizesSum(n - Min(k, n), k);
      if n <= k {
        assert BlockSizes(n - Min(k, n), k) == [];
      }
    }
  }

  /** The block sizes of a walk over `xs` are the sizes of the pages that packed it. */
  lemma {:induction false} BlockSizesOfChunk<T>(xs: seq<T>, k: nat)
    requires k > 0
    ensures BlockSizes(|xs|, k) == Sizes(Chunk(xs, k))
    decreases |xs|
  {
    if xs == [] {
    } else if |xs| <= k {
      assert BlockSizes(|xs| - Min(k, |xs|), k) == [];
    } else {
      BlockSizesOfChunk(xs[k..], k);
      assert Chunk(xs, k) == [xs[..k]] + Chunk(xs[k..], k);
    }
  }

  // ---------------------------------------------------------------------
  // gather_array
  // ---------------------------------------------------------------------

  /**
   * What gather_array promises for records of a size that fits a page
   * (`k` of them per page): it succeeds exactly when every record is readable
   * and enough pages can be allocated, the first failure decides the error
   * (an allocation is attempted before the copy of the record that needs
   * it), and the list it leaves behind holds exactly the records copied
   * before the failure, packed `k` per page.
   */
  ghost predicate GatherPost<T>(user: seq<T>, k: nat, readable: nat, pageBudget: nat,
                                ret: int, pages: seq<seq<T>>)
    requires k > 0
  {
    && (ret == 0 <==> readable >= |user| && pageBudget * k >= |user|)
    && (ret == -ENOMEM <==> pageBudget * k < |user| && pageBudget * k <= readable)
    && (ret == -EFAULT <==> readable < |user| && readable < pageBudget * k)
    && (ret == 0 ==> pages == Chunk(user, k))
    && Flatten(pages) == user[..Min(|user|, Min(readable, pageBudget * k))]
    && |pages| <= pageBudget
    && (forall i :: 0 <= i < |pages| - 1 ==> |pages[i]| == k)
  }

  /**
   * gather_array: copy the `|user|` records of `size` bytes into fresh pages.
   * Faults are parameters: the first `readable` records can be copied from
   * user memory and `pageBudget` pages can be allocated. The partial list is
   * returned on failure too; freeing it is the caller's business.
   */
  method GatherArray<T>(user: seq<T>, size: nat, pageSize: nat, readable: nat, pageBudget: nat)
    returns (ret: int, pages: seq<seq<T>>)
    requires pageSize > 0
    ensures size == 0 || size > pageSize ==> ret == 0 && pages == []
    ensures 0 < size <= pageSize ==> GatherPost(user, PerPage(pageSize, size), readable, pageBudget, ret, pages)
  {
    if size > pageSize {
      return 0, [];
    }
    if size == 0 {
      // Zero-byte copies never fail and the page-full test never fires,
      // so nothing is allocated.
      return 0, [];
    }
    var k := PerPage(pageSize, size);
    var pageidx := pageSize;
    pages := [];
    var i := 0;
    while i < |user|
      invariant 0 <= i <= |user| && i <= readable
      invariant Flatten(pages) == user[..i]
      invariant |pages| <= pageBudget
      invariant Packed(pages, k)
      invariant pages == [] ==> i == 0 && pageidx == pageSize
      invariant pages != [] ==> pageidx == Used(|pages[|pages| - 1]|, size)
    {
      if pages != [] {
        SlotFull(|pages[|pages| - 1]|, size, pageSize);
      }
      if pageidx > pageSize - size {
        if |pages| == pageBudget {
          ret := -ENOMEM;
          GatherStopAlloc(user, k, readable, pageBudget, pages, i);
          return;
        }
        OpenPage(pages, k);
        pages := pages + [[]];
        pageidx := 0;
      }
      if i >= readable {
        ret := -EFAULT;
        GatherStopFault(user, k, readable, pageBudget, pages, i);
        return;
      }
      PushRecord(pages, user[i], k);
      TakeNext(user, i);
      pages := pages[..|pages| - 1] + [pages[|pages| - 1] + [user[i]]];
      pageidx := pageidx + size;
      i := i + 1;
    }
    ret := 0;
    GatherDone(user, k, readable, pageBudget, pages);
  }

  lemma PackedLength<T>(pages: seq<seq<T>>, k: nat)
    requires pages != []
    requires forall i :: 0 <= i < |pages| - 1 ==> |pages[i]| == k
    requires |pages[|pages| - 1]| <= k
    ensures |Flatten(pages)| <= |pages| * k
    ensures |pages[|pages| - 1]| < k ==> |Flatten(pages)| < |pages| * k
    ensures |pages[|pages| - 1]| == k ==> |Flatten(pages)| == |pages| * k
  {
    FlattenLength(pages, k);
    MulSucc(|pages| - 1, k);
  }

  /** Starting a fresh page after a full one. */
  lemma OpenPage<T>(pages: seq<seq<T>>, k: nat)
    requires k > 0 && Packed(pages, k)
    requires pages != [] ==> |pages[|pages| - 1]| == k
    ensures Flatten(pages + [[]]) == Flatten(pages)
    ensures forall p :: 0 <= p < |pages + [[]]| - 1 ==> |(pages + [[]])[p]| == k
  {
    FlattenAppend(pages, [[]]);
    FlattenSingle<T>([]);
  }

  /** The prefix one record longer. */
  lemma TakeNext<T>(s: seq<T>, i: nat)
    requires i < |s|
    ensures s[..i + 1] == s[..i] + [s[i]]
  {
  }

  /** Copying one record into the last, not yet full, page. */
  lemma PushRecord<T>(pages: seq<seq<T>>, x: T, k: nat)
    requires pages != []
    requires forall p :: 0 <= p < |pages| - 1 ==> |pages[p]| == k
    requires |pages[|pages| - 1]| < k
    ensures var pages' := pages[..|pages| - 1] + [pages[|pages| - 1] + [x]];
      && Packed(pages', k)
      && |pages'| == |pages|
      && |pages'[|pages'| - 1]| == |pages[|pages| - 1]| + 1
      && Flatten(pages') == Flatten(pages) + [x]
  {
    FlattenPushLast(pages, x);
  }

  /** gather_array stops at a page allocation: every page so far is full. */
  lemma GatherStopAlloc<T>(user: seq<T>, k: nat, readable: nat, pageBudget: nat, pages: seq<seq<T>>, i: nat)
    requires k > 0
    requires |pages| == pageBudget
    requires forall p :: 0 <= p < |pages| - 1 ==> |pages[p]| == k
    requires pages != [] ==> |pages[|pages| - 1]| == k
    requires i < |user| && Flatten(pages) == user[..i] && i <= readable
    ensures GatherPost(user, k, readable, pageBudget, -ENOMEM, pages)
  {
    if pages != [] {
      PackedLength(pages, k);
    }
    assert i == pageBudget * k;
  }

  /** gather_array stops at a record copy that faults. */
  lemma GatherStopFault<T>(user: seq<T>, k: nat, readable: nat, pageBudget: nat, pages: seq<seq<T>>, i: nat)
    requires k > 0
    requires pages != [] && |pages| <= pageBudget
    requires forall p :: 0 <= p < |pages| - 1 ==> |pages[p]| == k
    requires |pages[|pages| - 1]| < k
    requires i < |user| && Flatten(pages) == user[..i] && i == readable
    ensures GatherPost(user, k, readable, pageBudget, -EFAULT, pages)
  {
    PackedLength(pages, k);
    MulMono(|pages|, pageBudget, k);
  }

  /** gather_array copied every record. */
  lemma GatherDone<T>(user: seq<T>, k: nat, readable: nat, pageBudget: nat, pages: seq<seq<T>>)
    requires k > 0
    requires |pages| <= pageBudget && Packed(pages, k)
    requires Flatten(pages) == user[..|user|] && |user| <= readable
    ensures GatherPost(user, k, readable, pageBudget, 0, pages)
  {
    var cap := pageBudget * k;
    assert |user| <= cap by {
      if pages != [] {
        PackedLength(pages, k);
        MulMono(|pages|, pageBudget, k);
      }
    }
    assert Flatten(pages) == user[..Min(|user|, Min(readable, cap))] by {
      assert user[..|user|] == user;
    }
    assert pages == Chunk(user, k) by {
      assert user[..|user|] == user;
      PackedUnique(pages, k);
    }
  }

  // ---------------------------------------------------------------------
  // traverse_pages and traverse_pages_block
  // ---------------------------------------------------------------------

  /**
   * traverse_pages: call `fn` on each of the first `nelem` records of the
   * page list, moving to the next page exactly when the current one holds no
   * further record, and stop at the first non-zero result.
   */
  method TraversePages<T, S>(pages: seq<seq<T>>, nelem: nat, size: nat, pageSize: nat,
                             fn: (T, S) -> (int, S), s0: S)
    returns (ret: int, s: S)
    requires 0 < size <= pageSize
    requires Packed(pages, PerPage(pageSize, size))
    requires nelem <= |Flatten(pages)|
    ensures (ret, s) == Walk(Flatten(pages)[..nelem], fn, s0)
  {
    var k := PerPage(pageSize, size);
    ghost var xs := Flatten(pages)[..nelem];
    var pageidx := pageSize;
    var cur := 0;
    ghost var j: nat := k;
    var i := 0;
    s := s0;
    while i < nelem
      invariant 0 <= i <= nelem && 0 <= cur <= |pages|
      invariant cur == 0 ==> i == 0 && pageidx == pageSize && j == k
      invariant cur > 0 ==> j <= |pages[cur - 1]| && i == |Flatten(pages[..cur - 1])| + j
      invariant cur > 0 ==> pageidx == Used(j, size)
      invariant Walk(xs, fn, s0) == Walk(xs[i..], fn, s)
    {
      if cur > 0 {
        SlotFull(j, size, pageSize);
      }
      if pageidx > pageSize - size {
        NextPage(pages, k, cur, nelem);
        cur := cur + 1;
        pageidx := 0;
        j := 0;
      }
      SlotFull(j, size, pageSize);
      RecordInPage(pages, k, cur, j, nelem);
      WalkStep(xs, i, fn, s);
      var out := fn(pages[cur - 1][pageidx / size], s);
      ret, s := out.0, out.1;
      if ret != 0 {
        return;
      }
      pageidx := pageidx + size;
      j := j + 1;
      i := i + 1;
    }
    ret := 0;
  }

  lemma WalkStep<T, S>(xs: seq<T>, i: nat, fn: (T, S) -> (int, S), s: S)
    requires i < |xs|
    ensures Walk(xs[i..], fn, s) ==
      (if fn(xs[i], s).0 != 0 then fn(xs[i], s) else Walk(xs[i + 1..], fn, fn(xs[i], s).1))
  {
    assert xs[i..][0] == xs[i];
    assert xs[i..][1..] == xs[i + 1..];
  }

  /** traverse_pages leaves a full page (or starts) only when another page follows. */
  lemma NextPage<T>(pages: seq<seq<T>>, k: nat, cur: nat, nelem: nat)
    requires k > 0 && Packed(pages, k) && nelem <= |Flatten(pages)|
    requires cur <= |pages|
    requires cur == 0 ==> 0 < nelem
    requires cur > 0 ==> |pages[cur - 1]| == k && |Flatten(pages[..cur - 1])| + k < nelem
    ensures cur < |pages|
    ensures cur > 0 ==> |Flatten(pages[..cur])| == |Flatten(pages[..cur - 1])| + k
  {
    if cur > 0 {
      FlattenSnoc(pages, cur - 1);
      FlattenSplit(pages, cur);
    }
  }

  /** The record traverse_pages reads next lies in the current page and is the next record of the array. */
  lemma RecordInPage<T>(pages: seq<seq<T>>, k: nat, cur: nat, j: nat, nelem: nat)
    requires k > 0 && Packed(pages, k) && nelem <= |Flatten(pages)|
    requires 0 < cur <= |pages| && j < k && j <= |pages[cur - 1]|
    requires |Flatten(pages[..cur - 1])| + j < nelem
    ensures j < |pages[cur - 1]|
    ensures pages[cur - 1][j] == Flatten(pages)[|Flatten(pages[..cur - 1])| + j]
  {
    FlattenSnoc(pages, cur - 1);
    FlattenSplit(pages, cur);
  }

  /**
   * traverse_pages_block: call `fn` once per page on the first
   * `min(k, remaining)` records of that page, stopping at the first
   * non-zero result.
   */
  function TraverseBlocks<T, S>(pages: seq<seq<T>>, nelem: nat, k: nat,
                                fn: (seq<T>, S) -> (int, S), s: S): (r: (int, S))
    requires k > 0
    requires Packed(pages, k)
    requires nelem <= |Flatten(pages)|
    decreases nelem
  {
    if nelem == 0 then (0, s)
    else
      PackedTail(pages, k, nelem);
      var nr := Min(k, nelem);
      var (ret, s') := fn(pages[0][..nr], s);
      if ret != 0 then (ret, s')
      else TraverseBlocks(pages[1..], nelem - nr, k, fn, s')
  }

  lemma PackedTail<T>(pages: seq<seq<T>>, k: nat, nelem: nat)
    requires k > 0 && Packed(pages, k)
    requires 0 < nelem <= |Flatten(pages)|
    ensures pages != [] && Min(k, nelem) <= |pages[0]|
    ensures Packed(pages[1..], k)
    ensures nelem - Min(k, nelem) <= |Flatten(pages[1..])|
  {
    assert pages != [];
    assert Flatten(pages) == pages[0] + Flatten(pages[1..]);
  }

  /**
   * A block walk over a packed array visits exactly its pages, in order:
   * it is the record walk over the page list, with one call per page.
   */
  lemma {:induction false} TraverseBlocksIsWalk<T, S>(xs: seq<T>, k: nat, fn: (seq<T>, S) -> (int, S), s: S)
    requires k > 0
    ensures TraverseBlocks(Chunk(xs, k), |xs|, k, fn, s) == Walk(Chunk(xs, k), fn, s)
    decreases |xs|
  {
    if xs == [] {
    } else if |xs| <= k {
      assert xs[..|xs|] == xs;
      assert Chunk(xs, k)[1..] == [];
    } else {
      var pages := Chunk(xs, k);
      assert pages[0] == xs[..k];
      assert pages[0][..k] == pages[0];
      assert pages[1..] == Chunk(xs[k..], k);
      TraverseBlocksIsWalk(xs[k..], k, fn, fn(xs[..k], s).1);
    }
  }

  /** A walk whose callback never fails visits everything and returns 0. */
  lemma {:induction false} WalkNeverFails<T, S>(xs: seq<T>, fn: (T, S) -> (int, S), s: S)
    requires forall i, st :: 0 <= i < |xs| ==> fn(xs[i], st).0 == 0
    ensures Walk(xs, fn, s).0 == 0
    decreases |xs|
  {
    if xs != [] {
      assert fn(xs[0], s).0 == 0;
      WalkNeverFails(xs[1..], fn, fn(xs[0], s).1);
    }
  }

  /** Lifts a record callback to a block callback that walks the block record by record. */
  function BlockOf<T, S>(fn: (T, S) -> (int, S)): (seq<T>, S) -> (int, S)
  {
    (b: seq<T>, s: S) => Walk(b, fn, s)
  }

  /** Walking a concatenation walks the first part, then, if nothing failed, the second. */
  lemma {:induction false} WalkAppend<T, S>(a: seq<T>, b: seq<T>, fn: (T, S) -> (int, S), s: S)
    ensures Walk(a + b, fn, s) ==
              var r := Walk(a, fn, s);
              if r.0 != 0 then r else Walk(b, fn, r.1)
    decreases |a|
  {
    if a == [] {
      assert a + b == b;
    } else {
      assert (a + b)[0] == a[0];
      assert (a + b)[1..] == a[1..] + b;
      var step := fn(a[0], s);
      if step.0 == 0 {
        WalkAppend(a[1..], b, fn, step.1);
      }
    }
  }

  /**
   * A block walk whose callback walks each block record by record is the
   * record walk over the whole page list: it stops at the same record with
   * the same result.
   */
  lemma {:induction false} WalkFlatten<T, S>(pages: seq<seq<T>>, fn: (T, S) -> (int, S), s: S)
    ensures Walk(pages, BlockOf(fn), s) == Walk(Flatten(pages), fn, s)
    decreases |pages|
  {
    if pages != [] {
      WalkAppend(pages[0], Flatten(pages[1..]), fn, s);
      var r := Walk(pages[0], fn, s);
      assert BlockOf(fn)(pages[0], s) == r;
      if r.0 == 0 {
        WalkFlatten(pages[1..], fn, r.1);
      }
    }
  }

  /** Page lists with the same page sizes have the same packing and the same record count. */
  lemma {:induction false} SameShape<T, U>(a: seq<seq<T>>, b: seq<seq<U>>, k: nat)
    requires |a| == |b|
    requires forall i :: 0 <= i < |a| ==> |a[i]| == |b[i]|
    ensures Packed(a, k) ==> Packed(b, k)
    ensures |Flatten(a)| == |Flatten(b)|
    decreases |a|
  {
    if a != [] {
      SameShape(a[1..], b[1..], k);
    }
  }
}
