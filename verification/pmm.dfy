/**
 The physical page allocator: a region of memory divided into 4 KiB pages
 (the page size the source stores in every allocator is always PAGE_SIZE),
 a page bitmap, and a count of the pages that are free.
 */
module Pmm {
  import opened Util
  import opened CTypes
  import opened MemBitmap

  const PageSize := 4096

  datatype Allocator = Allocator(
    bitmap: Bitmap,
    start: u64,
    totalSize: u64,
    totalPages: u64,
    freePages: u64)

  /** The number of allocated pages below `n`. */
  function Used(m: Bitmap, n: nat): (c: nat)
    requires Valid(m)
    ensures c <= n
  {
    if n == 0 then 0 else Used(m, n - 1) + (if Test(m, n - 1) then 1 else 0)
  }

  /** The free-page count agrees with the bitmap, which covers exactly the region's pages. */
  predicate Accounted(p: Allocator) {
    && Valid(p.bitmap)
    && p.bitmap.size == p.totalPages
    && p.freePages == p.totalPages - Used(p.bitmap, p.bitmap.size)
  }

  /** pmm_init: as many whole pages as fit in `size`, all free, over a zeroed bitmap of `bitmapSize` pages. */
  function Init(start: u64, size: u64, buffer: seq<bv8>, bitmapSize: nat): (p: Allocator)
    requires size > 0 && |buffer| >= (bitmapSize + 7) / 8
    ensures p.totalPages == size / PageSize && p.freePages == p.totalPages
    ensures p.start == start && p.totalSize == size
    ensures Valid(p.bitmap) && p.bitmap.size == bitmapSize && forall j: nat :: !Test(p.bitmap, j)
    ensures bitmapSize == size / PageSize ==> Accounted(p)
  {
    var m := MemBitmap.Init(buffer, bitmapSize);
    NoneUsed(m, bitmapSize);
    Allocator(m, start, size, size / PageSize, size / PageSize)
  }

  lemma {:induction false} NoneUsed(m: Bitmap, n: nat)
    requires Valid(m) && forall j: nat :: !Test(m, j)
    ensures Used(m, n) == 0
  {
    if n > 0 {
      NoneUsed(m, n - 1);
    }
  }

  /** How many of the pages `start` to `start + count - 1` lie below `n`. */
  function Overlap(n: nat, start: nat, count: nat): nat {
    if n <= start then 0 else if n >= start + count then count else n - start
  }

  /** Allocating a free run raises the allocated count below `n` by the run's pages below `n`. */
  lemma {:induction false} UsedAfterSet(m: Bitmap, r: Bitmap, start: nat, count: nat, n: nat)
    requires Valid(m) && Valid(r) && RunFree(m, start, count)
    requires forall j: nat :: Test(r, j) <==> Test(m, j) || start <= j < start + count
    ensures Used(r, n) == Used(m, n) + Overlap(n, start, count)
  {
    if n > 0 {
      UsedAfterSet(m, r, start, count, n - 1);
    }
  }

  /** Freeing an allocated run lowers the allocated count below `n` by the run's pages below `n`. */
  lemma {:induction false} UsedAfterClear(m: Bitmap, r: Bitmap, start: nat, count: nat, n: nat)
    requires Valid(m) && Valid(r) && RunUsed(m, start, count)
    requires forall j: nat :: Test(r, j) <==> Test(m, j) && !(start <= j < start + count)
    ensures Used(r, n) + Overlap(n, start, count) == Used(m, n)
  {
    if n > 0 {
      UsedAfterClear(m, r, start, count, n - 1);
    }
  }

  datatype Allocation = Allocation(pmm: Allocator, paddr: u64)

  /**
   pmm_alloc_pages: finds the lowest free run of `count` pages, marks it
   allocated, lowers the free count and returns the run's physical
   address; when no run exists it returns 0 and changes nothing. The index
   passes through an `int32_t` as in the source.
   */
  function Alloc(p: Allocator, count: u32): (r: Allocation)
    requires Valid(p.bitmap) && p.bitmap.size < 0x8000_0000 && count > 0
    ensures FindRun(p.bitmap, count).None? ==> r == Allocation(p, 0)
    ensures FindRun(p.bitmap, count).Some? ==>
      var i := FindRun(p.bitmap, count).value;
      && r.paddr == (p.start + i * PageSize) % Word64
      && r.pmm.freePages == (p.freePages - count) % Word64
      && r.pmm.bitmap.size == p.bitmap.size
      && Valid(r.pmm.bitmap)
      && (forall j: nat :: Test(r.pmm.bitmap, j) <==> Test(p.bitmap, j) || i <= j < i + count)
      && r.pmm == p.(bitmap := r.pmm.bitmap, freePages := r.pmm.freePages)
  {
    IndexFitsI32(p.bitmap, count);
    match FindRun(p.bitmap, count)
    case None => Allocation(p, 0)
    case Some(index) =>
      var m := SetRange(p.bitmap, index, count);
      Allocation(p.(bitmap := m, freePages := (p.freePages - count) % Word64), (p.start + index * PageSize) % Word64)
  }

  /**
   The run's index passes through an `int32_t`, whose sign tells success
   from failure: in a bitmap below 2^31 pages a found index keeps its value
   and "not found" becomes -1.
   */
  lemma IndexFitsI32(m: Bitmap, count: nat)
    requires Valid(m) && m.size < 0x8000_0000
    ensures var f := FindRun(m, count);
      AsI32(Encode(f)) == if f.Some? then f.value else -1
  {
  }

  /** A successful allocation keeps the free count in step with the bitmap. */
  lemma AllocKeepsAccounted(p: Allocator, count: u32)
    requires Accounted(p) && p.bitmap.size < 0x8000_0000 && count > 0
    ensures Accounted(Alloc(p, count).pmm)
  {
    var f := FindRun(p.bitmap, count);
    if f.Some? {
      MarkKeepsAccounted(p, Alloc(p, count).pmm, f.value, count);
    }
  }

  /** Marking a free run allocated and lowering the free count by its length keeps the two in step. */
  lemma MarkKeepsAccounted(p: Allocator, r: Allocator, i: nat, count: nat)
    requires Accounted(p) && Valid(r.bitmap) && r.bitmap.size == p.bitmap.size && r.totalPages == p.totalPages
    requires i + count <= p.bitmap.size && RunFree(p.bitmap, i, count)
    requires forall j: nat :: Test(r.bitmap, j) <==> Test(p.bitmap, j) || i <= j < i + count
    requires r.freePages == (p.freePages - count) % Word64
    ensures Accounted(r) && r.freePages == p.freePages - count
  {
    UsedAfterSet(p.bitmap, r.bitmap, i, count, p.bitmap.size);
    ModSmall(p.freePages - count, Word64);
  }

  /**
   pmm_free_pages: an address outside the region, or a run reaching past
   the last page, is ignored; otherwise the run's pages are freed and the
   free count rises by `count`.
   */
  function Free(p: Allocator, paddr: u64, count: u32): (r: Allocator)
    requires Valid(p.bitmap) && count > 0
    requires (paddr - p.start) / PageSize + count < Word64
    ensures Valid(r.bitmap) && r.bitmap.size == p.bitmap.size
    ensures r.start == p.start && r.totalSize == p.totalSize && r.totalPages == p.totalPages
    ensures paddr < p.start || paddr >= p.start + p.totalSize ==> r == p
    ensures p.start <= paddr < p.start + p.totalSize ==>
      var i := (paddr - p.start) / PageSize;
      && (i + count > p.totalPages ==> r == p)
      && (i + count <= p.totalPages ==>
            && r.freePages == (p.freePages + count) % Word64
            && r == p.(bitmap := ClearRange(p.bitmap, i, count), freePages := r.freePages))
  {
    if paddr < p.start || paddr >= p.start + p.totalSize then p
    else
      var i := (paddr - p.start) / PageSize;
      if i + count <= p.totalPages then
        p.(bitmap := ClearRange(p.bitmap, i, count), freePages := (p.freePages + count) % Word64)
      else p
  }

  /** Freeing a run that is allocated keeps the free count in step with the bitmap. */
  lemma FreeKeepsAccounted(p: Allocator, paddr: u64, count: u32)
    requires Accounted(p) && count > 0
    requires (paddr - p.start) / PageSize + count < Word64
    requires p.start <= paddr ==> RunUsed(p.bitmap, (paddr - p.start) / PageSize, count)
    ensures Accounted(Free(p, paddr, count))
  {
    var r := Free(p, paddr, count);
    if r != p {
      var i := (paddr - p.start) / PageSize;
      ClearKeepsAccounted(p, r, i, count);
    }
  }

  /** Marking an allocated run free and raising the free count by its length keeps the two in step. */
  lemma ClearKeepsAccounted(p: Allocator, r: Allocator, i: nat, count: nat)
    requires Accounted(p) && i + count < Word64 && i + count <= p.totalPages && RunUsed(p.bitmap, i, count)
    requires r == p.(bitmap := ClearRange(p.bitmap, i, count), freePages := (p.freePages + count) % Word64)
    ensures Accounted(r)
  {
    UsedAfterClear(p.bitmap, r.bitmap, i, count, p.bitmap.size);
    ModSmall(p.freePages + count, Word64);
  }

  /** The address of page `i` of a region that does not reach 2^64 gives back page `i`. */
  lemma PageAddrIndex(start: nat, size: nat, pages: nat, i: nat)
    requires start + size < Word64 && pages * PageSize <= size && i < pages
    ensures (start + i * PageSize) % Word64 == start + i * PageSize < start + size
    ensures (start + i * PageSize - start) / PageSize == i
  {
    MulMono(i + 1, pages, PageSize);
  }

  /** What a successful allocation in a region below 2^64 leaves: the run's address, which leads back to the run. */
  lemma AllocFacts(p: Allocator, count: u32)
    requires Accounted(p) && p.bitmap.size < 0x8000_0000 && count > 0
    requires p.start + p.totalSize < Word64 && p.totalPages * PageSize <= p.totalSize
    requires FindRun(p.bitmap, count).Some?
    ensures var a := Alloc(p, count);
      var i := FindRun(p.bitmap, count).value;
      && i + count <= p.totalPages
      && a.paddr == p.start + i * PageSize && p.start <= a.paddr < p.start + p.totalSize
      && (a.paddr - p.start) / PageSize == i
      && a.pmm.start == p.start && a.pmm.totalSize == p.totalSize && a.pmm.totalPages == p.totalPages
      && a.pmm.freePages == p.freePages - count
      && Accounted(a.pmm)
  {
    var i := FindRun(p.bitmap, count).value;
    var a := Alloc(p, count);
    AllocAddr(p, count);
    MarkKeepsAccounted(p, a.pmm, i, count);
  }

  /** A successful allocation's address in a region below 2^64 is the run's first page, inside the region. */
  lemma AllocAddr(p: Allocator, count: u32)
    requires Valid(p.bitmap) && p.bitmap.size == p.totalPages && p.bitmap.size < 0x8000_0000 && count > 0
    requires p.start + p.totalSize < Word64 && p.totalPages * PageSize <= p.totalSize
    requires FindRun(p.bitmap, count).Some?
    ensures var a := Alloc(p, count);
      var i := FindRun(p.bitmap, count).value;
      && i + count <= p.totalPages
      && a.paddr == p.start + i * PageSize && p.start <= a.paddr < p.start + p.totalSize
      && (a.paddr - p.start) / PageSize == i
  {
    var i := FindRun(p.bitmap, count).value;
    assert Alloc(p, count).paddr == (p.start + i * PageSize) % Word64;
    PageAddrIndex(p.start, p.totalSize, p.totalPages, i);
  }

  /** Freeing a run inside the region, named by an address in its first page. */
  lemma FreeRun(q: Allocator, paddr: u64, i: nat, count: u32)
    requires Valid(q.bitmap) && count > 0 && q.start <= paddr < q.start + q.totalSize
    requires (paddr - q.start) / PageSize == i && i + count <= q.totalPages && i + count < Word64
    ensures Free(q, paddr, count) == q.(bitmap := ClearRange(q.bitmap, i, count), freePages := (q.freePages + count) % Word64)
  {
  }

  /** Allocating and then freeing the returned address restores the allocator. */
  lemma AllocThenFree(p: Allocator, count: u32)
    requires Accounted(p) && p.bitmap.size < 0x8000_0000 && count > 0
    requires p.start + p.totalSize < Word64 && p.totalPages * PageSize <= p.totalSize
    requires FindRun(p.bitmap, count).Some?
    ensures Free(Alloc(p, count).pmm, Alloc(p, count).paddr, count).freePages == p.freePages
    ensures forall j: nat :: Test(Free(Alloc(p, count).pmm, Alloc(p, count).paddr, count).bitmap, j) <==> Test(p.bitmap, j)
  {
    var i := FindRun(p.bitmap, count).value;
    var a := Alloc(p, count);
    AllocFacts(p, count);
    FreeRun(a.pmm, a.paddr, i, count);
    ClearMarked(p.bitmap, a.pmm.bitmap, i, count, true);
    ModSmall(p.freePages, Word64);
  }

  /**
   Clearing a run that was free in `m` gives back `m`, whether or not the
   run has been marked allocated since.
   */
  lemma ClearMarked(m: Bitmap, q: Bitmap, i: nat, count: nat, marked: bool)
    requires Valid(m) && Valid(q) && q.size == m.size && i + count <= m.size && i + count < Word64
    requires RunFree(m, i, count)
    requires forall j: nat :: Test(q, j) <==> Test(m, j) || (marked && i <= j < i + count)
    ensures forall j: nat :: Test(ClearRange(q, i, count), j) <==> Test(m, j)
  {
  }

  /**
   Freeing the same run a second time raises the free count again, although
   the bitmap frees the pages only once: afterwards the count claims
   `count` more free pages than the bitmap shows.
   */
  lemma DoubleFreeOvercounts(q: Allocator, paddr: u64, count: u32)
    requires Accounted(q) && count > 0
    requires q.start + q.totalSize < Word64 && q.totalPages * PageSize <= q.totalSize
    requires q.start <= paddr < q.start + q.totalSize
    requires (paddr - q.start) / PageSize + count < Word64
    requires (paddr - q.start) / PageSize + count <= q.totalPages
    requires RunUsed(q.bitmap, (paddr - q.start) / PageSize, count)
    ensures var f1 := Free(q, paddr, count);
      var f2 := Free(f1, paddr, count);
      && Accounted(f1)
      && (forall j: nat :: Test(f2.bitmap, j) <==> Test(f1.bitmap, j))
      && f2.freePages == f1.freePages + count
      && f2.freePages == f2.totalPages - Used(f2.bitmap, f2.bitmap.size) + count
  {
    var i := (paddr - q.start) / PageSize;
    var f1 := Free(q, paddr, count);
    FreeRun(q, paddr, i, count);
    ClearKeepsAccounted(q, f1, i, count);
    var f2 := Free(f1, paddr, count);
    FreeRun(f1, paddr, i, count);
    UsedSame(f1.bitmap, f2.bitmap, f1.bitmap.size);
    PagesBelow(q.totalPages, q.totalSize);
    ModSmall(f1.freePages + count, Word64);
  }

  /** Two bitmaps with the same pages allocated count the same allocated pages. */
  lemma {:induction false} UsedSame(m: Bitmap, r: Bitmap, n: nat)
    requires Valid(m) && Valid(r) && forall j: nat :: Test(r, j) <==> Test(m, j)
    ensures Used(r, n) == Used(m, n)
  {
    if n > 0 {
      UsedSame(m, r, n - 1);
    }
  }

  /** A page count whose pages fit below 2^64 is below 2^52. */
  lemma PagesBelow(n: nat, size: nat)
    requires n * PageSize <= size < Word64
    ensures n < 0x10_0000_0000_0000
  {
    if n >= 0x10_0000_0000_0000 {
      MulMono(0x10_0000_0000_0000, n, PageSize);
    }
  }
}
