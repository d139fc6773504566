/**
 The kernel's small-block allocator. Requests of 2 KiB or more take whole
 pages from the page allocator; smaller ones are carved out of free blocks
 kept on a list, or out of a fresh page. The free list is modelled as a
 sequence of (address, size) blocks and the page table as a sequence of
 page records; the memory they describe is not modelled. The page
 allocator is represented by the address it hands out, 0 meaning none.
 */
module KAllocator {
  import opened Util
  import opened CTypes
  import opened BitUtils

  const PageSize := 4096
  /** Requests at least this large take whole pages. */
  const LargeThreshold := 2048
  /** sizeof(alloc_header_t): the size and magic words before each small block. */
  const HeaderSize := 8
  /** sizeof(free_block_t): the size word and next pointer of a free block. */
  const FreeBlockSize := 16
  /** sizeof(page_info_t). */
  const PageInfoSize := 24
  const DefaultAlign := 8

  datatype Block = Block(addr: u64, size: u32)

  datatype PageInfo = PageInfo(addr: u64, count: u32, large: bool, used: u32, free: u32)

  datatype Heap = Heap(
    initialized: bool,
    pages: seq<PageInfo>,
    capacity: nat,
    freeList: seq<Block>,
    totalSize: u64,
    usedSize: u64,
    smallCount: u32,
    largeCount: u32)

  function Zeroed(): Heap {
    Heap(false, [], 0, [], 0, 0, 0, 0)
  }

  datatype Started = Started(heap: Heap, ret: int)

  /**
   kallocator_init: a second call changes nothing; otherwise the state is
   zeroed and, when the page for the page table is obtained, the table
   holds as many records as fit in one page.
   */
  function Init(h: Heap, tablePage: bool): (r: Started)
    ensures r.ret == 0 <==> r.heap.initialized
    ensures h.initialized ==> r.heap == h
    ensures !h.initialized ==> r.heap.pages == [] && r.heap.freeList == [] && r.heap.usedSize == 0
    ensures !h.initialized && r.heap.initialized ==> r.heap.capacity * PageInfoSize <= PageSize < (r.heap.capacity + 1) * PageInfoSize
  {
    if h.initialized then Started(h, 0)
    else if !tablePage then Started(Zeroed(), -1)
    else Started(Heap(true, [], PageSize / PageInfoSize, [], 0, 0, 0, 0), 0)
  }

  // ---------------------------------------------------------------------
  // The page table
  // ---------------------------------------------------------------------

  /**
   The byte range a page record covers; the page count times the page size
   is computed in 32 bits and the end address in 64.
   */
  predicate Covers(p: PageInfo, addr: int) {
    p.addr <= addr < (p.addr + (p.count * PageSize) % Word32) % Word64
  }

  /** kallocator_find_page, searching from index `i`. */
  function FindPageFrom(pages: seq<PageInfo>, addr: int, i: nat): (r: Option<nat>)
    requires i <= |pages|
    ensures r.Some? ==> i <= r.value < |pages| && Covers(pages[r.value], addr)
    ensures r.Some? ==> forall j :: i <= j < r.value ==> !Covers(pages[j], addr)
    ensures r.None? <==> forall j :: i <= j < |pages| ==> !Covers(pages[j], addr)
    decreases |pages| - i
  {
    if i == |pages| then None
    else if Covers(pages[i], addr) then Some(i)
    else FindPageFrom(pages, addr, i + 1)
  }

  /** kallocator_find_page: the first record whose range holds the address. */
  function FindPage(pages: seq<PageInfo>, addr: int): (r: Option<nat>)
    ensures r.Some? ==> r.value < |pages| && Covers(pages[r.value], addr)
    ensures r.Some? ==> forall j :: 0 <= j < r.value ==> !Covers(pages[j], addr)
    ensures r.None? <==> forall j :: 0 <= j < |pages| ==> !Covers(pages[j], addr)
  {
    FindPageFrom(pages, addr, 0)
  }

  /**
   kallocator_add_page: refused when the table is full; a large record
   counts the requested bytes as used, a small one starts empty, and used
   plus free is the record's byte count, all in 32 bits.
   */
  function AddPage(h: Heap, addr: u64, count: u32, large: bool, used: u32): (r: Option<Heap>)
    ensures r.None? <==> |h.pages| >= h.capacity
    ensures r.Some? ==> r.value == h.(pages := r.value.pages)
    ensures r.Some? ==> |r.value.pages| == |h.pages| + 1 && r.value.pages[..|h.pages|] == h.pages
    ensures r.Some? ==> var p := r.value.pages[|h.pages|];
      p.addr == addr && p.count == count && p.large == large
      && p.used == (if large then used else 0)
      && (p.used + p.free) % Word32 == (count * PageSize) % Word32
  {
    if |h.pages| >= h.capacity then None
    else
      var bytes := (count * PageSize) % Word32;
      var p := if large then PageInfo(addr, count, true, used, (bytes - used) % Word32)
               else PageInfo(addr, count, false, 0, bytes);
      Some(h.(pages := h.pages + [p]))
  }

  /** The first record with the given start address. */
  function PageAt(pages: seq<PageInfo>, addr: u64, i: nat): (r: Option<nat>)
    requires i <= |pages|
    ensures r.Some? ==> i <= r.value < |pages| && pages[r.value].addr == addr
    ensures r.None? <==> forall j :: i <= j < |pages| ==> pages[j].addr != addr
    decreases |pages| - i
  {
    if i == |pages| then None
    else if pages[i].addr == addr then Some(i)
    else PageAt(pages, addr, i + 1)
  }

  /**
   kallocator_remove_page: the first record with the address is replaced by
   the last one and the table shrinks by one; an unknown address changes
   nothing.
   */
  function RemovePage(pages: seq<PageInfo>, addr: u64): (r: seq<PageInfo>)
    ensures PageAt(pages, addr, 0).None? ==> r == pages
    ensures PageAt(pages, addr, 0).Some? ==>
      |r| == |pages| - 1 && multiset(r) + multiset{pages[PageAt(pages, addr, 0).value]} == multiset(pages)
  {
    match PageAt(pages, addr, 0)
    case None => pages
    case Some(i) =>
      var last := |pages| - 1;
      var r := pages[i := pages[last]][..last];
      SwapRemove(pages, i);
      r
  }

  lemma SwapRemove(pages: seq<PageInfo>, i: nat)
    requires i < |pages|
    ensures multiset(pages[i := pages[|pages| - 1]][..|pages| - 1]) + multiset{pages[i]} == multiset(pages)
  {
    var last := |pages| - 1;
    var r := pages[i := pages[last]][..last];
    if i == last {
      assert pages == r + [pages[i]];
    } else {
      assert r == pages[..i] + [pages[last]] + pages[i + 1..last];
      assert pages == pages[..i] + [pages[i]] + pages[i + 1..last] + [pages[last]];
    }
  }

  /** Recording a page whose address is new and then removing it gives back the table. */
  lemma AddThenRemove(h: Heap, addr: u64, count: u32, large: bool, used: u32)
    requires |h.pages| < h.capacity
    requires forall j :: 0 <= j < |h.pages| ==> h.pages[j].addr != addr
    ensures AddPage(h, addr, count, large, used).Some?
    ensures RemovePage(AddPage(h, addr, count, large, used).value.pages, addr) == h.pages
  {
    var ps := AddPage(h, addr, count, large, used).value.pages;
    assert PageAt(ps, addr, |h.pages|) == Some(|h.pages|);
    PageAtSkips(ps, addr, 0, |h.pages|);
  }

  lemma {:induction false} PageAtSkips(pages: seq<PageInfo>, addr: u64, i: nat, k: nat)
    requires i <= k <= |pages|
    requires forall j :: i <= j < k ==> pages[j].addr != addr
    ensures PageAt(pages, addr, i) == PageAt(pages, addr, k)
    decreases k - i
  {
    if i < k {
      PageAtSkips(pages, addr, i + 1, k);
    }
  }

  // ---------------------------------------------------------------------
  // Request classification and sizes
  // ---------------------------------------------------------------------

  /** An alignment of 0 stands for the default of 8. */
  function EffectiveAlign(alignment: u32): (a: u32)
    ensures alignment != 0 ==> a == alignment
    ensures a != 0
  {
    if alignment == 0 then DefaultAlign else alignment
  }

  /**
   The argument checks of kalloc: the allocator is set up, the size is not
   0 and the alignment is a power of two. The source tests the last with
   `a & (a - 1)`, which for a nonzero value is its arithmetic meaning.
   */
  predicate Accepts(h: Heap, size: u32, alignment: u32) {
    h.initialized && size != 0 && IsPowerOf2(EffectiveAlign(alignment))
  }

  /** The page count of a large request as written: the sum is taken in 32 bits. */
  function LargePagesAsWritten(size: u32): (n: u32)
  {
    ((size + PageSize - 1) % Word32) / PageSize
  }

  /** The largest request whose byte count in pages still fits in 32 bits. */
  const MaxLarge := Word32 - PageSize

  /** The page count a large request needs: the size divided by the page size, rounded up. */
  function LargePages(size: u32): (n: u32)
    requires size <= MaxLarge
    ensures n * PageSize >= size && (n == 0 || (n - 1) * PageSize < size)
    ensures n * PageSize < Word32
  {
    (size + PageSize - 1) / PageSize
  }

  /** A request within a page of 4 GiB wraps to zero pages as written. */
  lemma LargePagesWrap()
    ensures LargePagesAsWritten(0xFFFF_F001) == 0
    ensures (0xFFFF_F001 + PageSize - 1) / PageSize == 0x10_0000
  {
  }

  /** Below the wrap the two page counts agree. */
  lemma LargePagesAgree(size: u32)
    requires size <= MaxLarge
    ensures LargePagesAsWritten(size) == LargePages(size)
  {
  }

  /**
   The reservation of a small request (kalloc_small_block): header plus
   size rounded up to the alignment in 32 bits, and never less than a free
   block record.
   */
  function SmallTotal(size: u32, a: u32): (t: u32)
    requires 0 < size < LargeThreshold && IsPowerOf2(a)
    ensures t >= HeaderSize + size && t >= FreeBlockSize
    ensures t % a == 0
    ensures t == FreeBlockSize || t < HeaderSize + size + a
  {
    var t := RoundedTotal(size, a);
    if t < FreeBlockSize then
      SmallAlignDivides(size, a);
      FreeBlockSize
    else t
  }

  /** The header and size rounded up to the alignment; the 32-bit sum does not wrap. */
  function RoundedTotal(size: u32, a: u32): (t: nat)
    requires 0 < size < LargeThreshold && IsPowerOf2(a)
    ensures t % a == 0 && HeaderSize + size <= t < HeaderSize + size + a
  {
    PowerOf2Bound(a);
    ModSmall(HeaderSize + size + a - 1, Word32);
    AlignDown((HeaderSize + size + a - 1) % Word32, a)
  }

  /** When the rounded total is under a free block record, the alignment divides the record size. */
  lemma SmallAlignDivides(size: u32, a: u32)
    requires 0 < size < LargeThreshold && IsPowerOf2(a)
    requires RoundedTotal(size, a) < FreeBlockSize
    ensures FreeBlockSize % a == 0
  {
    var t := RoundedTotal(size, a);
    PowerOf2Positive(a);
    assert a <= t by {
      ModIfSmall(t, a);
    }
    Pow2IsPowerOf2(4);
    PowerOf2Divides(a, FreeBlockSize);
  }

  /**
   The user address of a block as written: the header end rounded up to the
   alignment with a mask `~(alignment - 1)` that is 32 bits wide, so the
   upper half of the 64-bit address is cleared.
   */
  function UserAddrAsWritten(base: u64, a: u32): (u: u64)
    requires IsPowerOf2(a)
  {
    AlignDown(((base + HeaderSize + a - 1) % Word64) % Word32, a)
  }

  /** The user address of a block: the header end rounded up to the alignment, in 64 bits. */
  function UserAddr(base: u64, a: u32): (u: u64)
    requires IsPowerOf2(a)
    ensures u % a == 0
    ensures base + HeaderSize + a - 1 < Word64 ==> base + HeaderSize <= u < base + HeaderSize + a
  {
    ModIfSmall(base + HeaderSize + a - 1, Word64);
    AlignDown((base + HeaderSize + a - 1) % Word64, a)
  }

  /** Below 4 GiB the two computations agree; above it the mask drops the high half. */
  lemma UserAddrTruncates(base: u64, a: u32)
    requires IsPowerOf2(a)
    ensures base + HeaderSize + a - 1 < Word32 ==> UserAddrAsWritten(base, a) == UserAddr(base, a)
    ensures base == Word32 && a == DefaultAlign ==> UserAddrAsWritten(base, a) == HeaderSize && UserAddr(base, a) == Word32 + HeaderSize
  {
    ModIfSmall(base + HeaderSize + a - 1, Word64);
    if base + HeaderSize + a - 1 < Word32 {
      ModSmall(base + HeaderSize + a - 1, Word32);
    }
    if base == Word32 && a == DefaultAlign {
      assert (Word32 + 15) % Word32 == 15;
      assert Word32 % 8 == 0 && 15 % 8 == 7;
      assert (Word32 + 15) % 8 == 7;
    }
  }

  /**
   The bytes a block spans from its start to the end of the user data,
   rounded up to 8: the offset is a 64-bit difference cut to 32 bits and the
   sums are 32-bit.
   */
  function Span(base: u64, user: u64, size: u32): (n: u32)
    ensures base <= user && user - base + size + 7 < Word32 ==>
      user - base + size <= n < user - base + size + 8 && n % 8 == 0
  {
    var t := ((user - base) % Word64 % Word32 + size) % Word32;
    Pow2IsPowerOf2(3);
    SpanNoWrap(base, user, size);
    AlignDown((t + 7) % Word32, 8)
  }

  lemma SpanNoWrap(base: u64, user: u64, size: u32)
    ensures base <= user && user - base + size + 7 < Word32 ==>
      (((user - base) % Word64 % Word32 + size) % Word32 + 7) % Word32 == user - base + size + 7
  {
    if base <= user && user - base + size + 7 < Word32 {
      ModSmall(user - base, Word64);
      ModSmall(user - base, Word32);
      ModSmall(user - base + size, Word32);
      ModSmall(user - base + size + 7, Word32);
    }
  }

  // ---------------------------------------------------------------------
  // The free list
  // ---------------------------------------------------------------------

  /** A free block the search keeps: a size within a page and an address in a recorded page. */
  predicate Usable(pages: seq<PageInfo>, b: Block) {
    0 < b.size <= PageSize && FindPage(pages, b.addr).Some?
  }

  /** The usable blocks of a list, in order. */
  function Usables(pages: seq<PageInfo>, list: seq<Block>): (r: seq<Block>)
    ensures forall b :: b in r <==> b in list && Usable(pages, b)
  {
    if list == [] then []
    else if Usable(pages, list[0]) then [list[0]] + Usables(pages, list[1..])
    else Usables(pages, list[1..])
  }

  /** The total size of a list of blocks (kallocator_get_free_memory before its 64-bit cut). */
  function Sum(list: seq<Block>): nat {
    if list == [] then 0 else list[0].size + Sum(list[1..])
  }

  datatype Fit = Fit(rest: seq<Block>, block: Option<Block>)

  /**
   The free-list walk of kalloc_small_block: unusable blocks are unlinked
   on the way, and the first usable block that fits is unlinked and
   returned; the other blocks keep their order.
   */
  function FirstFit(pages: seq<PageInfo>, list: seq<Block>, fits: Block -> bool): (r: Fit)
    ensures r.block.Some? ==> r.block.value in list && Usable(pages, r.block.value) && fits(r.block.value)
    ensures r.block.None? ==> r.rest == Usables(pages, list)
    ensures r.block.None? ==> forall b :: b in list && Usable(pages, b) ==> !fits(b)
    ensures forall b :: b in r.rest ==> b in list && Usable(pages, b)
    ensures r.block.Some? ==> Sum(Usables(pages, list)) == Sum(r.rest) + r.block.value.size
    decreases |list|
  {
    if list == [] then Fit([], None)
    else
      var b := list[0];
      if !Usable(pages, b) then FirstFit(pages, list[1..], fits)
      else if fits(b) then Fit(Usables(pages, list[1..]) , Some(b))
      else
        var f := FirstFit(pages, list[1..], fits);
        Fit([b] + f.rest, f.block)
  }

  /**
   Taking `reserve` bytes from the front of a block: when more than a free
   block record would be left over, the remainder goes to the head of the
   list.
   */
  function Carve(b: Block, reserve: nat, rest: seq<Block>): (list: seq<Block>)
    requires reserve <= b.size
    ensures b.size > reserve + FreeBlockSize ==> |list| == |rest| + 1
    ensures b.size > reserve + FreeBlockSize ==>
      list[0].addr == (b.addr + reserve) % Word64 && Sum(list) + reserve == Sum(rest) + b.size
    ensures b.size <= reserve + FreeBlockSize ==> list == rest
  {
    if b.size > reserve + FreeBlockSize then
      [Block((b.addr + reserve) % Word64, b.size - reserve)] + rest
    else rest
  }

  /** The first-fit walk keeps the usable blocks it passes, so a walk over usable blocks loses only the one taken. */
  lemma AllUsable(pages: seq<PageInfo>, list: seq<Block>)
    requires forall b :: b in list ==> Usable(pages, b)
    ensures Usables(pages, list) == list
  {
  }

  // ---------------------------------------------------------------------
  // Carving a small block
  // ---------------------------------------------------------------------

  /**
   What a free block is asked for when it takes a small request, as
   written: the size-only reservation, and the user address from the block
   start.
   */
  function ReserveAsWritten(size: u32, a: u32): (t: u32)
    requires 0 < size < LargeThreshold && IsPowerOf2(a)
    ensures t >= HeaderSize + size
  {
    SmallTotal(size, a)
  }

  /**
   What a free block must give a small request: the span from its start to
   the end of the user data at the aligned address, at least a free block
   record.
   */
  function Reserve(base: u64, size: u32, a: u32): (t: u32)
    requires IsPowerOf2(a)
    ensures t >= FreeBlockSize
  {
    var n := Span(base, UserAddr(base, a), size);
    if n < FreeBlockSize then FreeBlockSize else n
  }

  /** The fit test of the corrected walk: the block holds its reservation. */
  function FitsFor(size: u32, a: u32): Block -> bool
    requires IsPowerOf2(a)
  {
    (b: Block) => b.size >= Reserve(b.addr, size, a)
  }

  /**
   A block whose reservation covers the header, the aligned user data and
   nothing past its own end, so the remainder cut off after it does not
   overlap the user data.
   */
  lemma ReserveHoldsUser(b: Block, size: u32, a: u32)
    requires IsPowerOf2(a) && a <= PageSize && size < LargeThreshold
    requires b.addr + 2 * PageSize < Word64
    requires b.size >= Reserve(b.addr, size, a)
    ensures var u := UserAddr(b.addr, a);
      b.addr + HeaderSize <= u && u % a == 0
      && u + size <= b.addr + Reserve(b.addr, size, a) <= b.addr + b.size
  {
  }

  /**
   As written, a block that does not start on the alignment is given the
   size-only reservation, so the user data runs past it into the
   remainder's record: after kalloc(56, 8) on a fresh page the remainder is
   the block at page+64, and kalloc(8, 64) from it puts its data at
   page+128, where the new remainder's record starts.
   */
  lemma CarveOverlapsRemainder(page: u64)
    requires page % PageSize == 0 && page + 2 * PageSize < Word32
    ensures IsPowerOf2(64)
    ensures var b := Block(page + 64, 4032);
      var u := UserAddrAsWritten(b.addr, 64);
      ReserveAsWritten(8, 64) == 64 && u == page + 128
      && u <= Carve(b, 64, [])[0].addr < u + 8
  {
    ExampleUserAsWritten(page);
    ExampleReserveAsWritten();
    ModSmall(page + 128, Word64);
  }

  /** As written, the example's block at page+64 also puts its user data at page+128. */
  lemma ExampleUserAsWritten(page: u64)
    requires page % PageSize == 0 && page + 2 * PageSize < Word32
    ensures IsPowerOf2(64) && UserAddrAsWritten(page + 64, 64) == page + 128
  {
    Pow2IsPowerOf2(6);
    assert (page + 64) % 64 == 0 by {
      DivOf(page + 64, 64, page / PageSize * 64 + 1, 0);
    }
    UserAfterAligned(page + 64, 64);
  }

  /** As written, kalloc(8, 64) reserves 64 bytes whatever the block. */
  lemma ExampleReserveAsWritten()
    ensures IsPowerOf2(64) && ReserveAsWritten(8, 64) == 64
  {
    Pow2IsPowerOf2(6);
  }

  /** On an aligned block, the header end rounded up to an alignment of at least 8 is one alignment in. */
  lemma UserAfterAligned(base: u64, a: u32)
    requires IsPowerOf2(a) && HeaderSize <= a && base % a == 0 && base + HeaderSize + a - 1 < Word32
    ensures UserAddrAsWritten(base, a) == base + a && UserAddr(base, a) == base + a
  {
    ModSmall(base + HeaderSize + a - 1, Word64);
    ModSmall(base + HeaderSize + a - 1, Word32);
    DivOf(base + HeaderSize + a - 1, a, base / a + 1, 7);
  }

  /** kalloc(56, 8) on a fresh page leaves the rest of the page from page+64 free. */
  lemma FirstPageRemainder(page: u64)
    requires page % PageSize == 0 && page + 2 * PageSize < Word32
    ensures IsPowerOf2(8) && NewPageAsWritten(page, 56, 8).remainder == Some(Block(page + 64, 4032))
  {
    Pow2IsPowerOf2(3);
    assert page % 8 == 0 by {
      DivOf(page, 8, page / PageSize * 512, 0);
    }
    UserAfterAligned(page, 8);
    var n := Span(page, page + 8, 56);
    assert 64 <= n < 72 && n % 8 == 0;
    assert n == 64;
    ModSmall(PageSize - 64, Word32);
    ModSmall(page + 64, Word64);
  }

  /** With the block-dependent reservation the example's user data ends before the remainder. */
  lemma CarveExampleFixed(page: u64)
    requires page % PageSize == 0 && page + 2 * PageSize < Word64
    ensures IsPowerOf2(64)
    ensures var b := Block(page + 64, 4032);
      UserAddr(b.addr, 64) == page + 128 && Reserve(b.addr, 8, 64) == 72
      && UserAddr(b.addr, 64) + 8 <= Carve(b, 72, [])[0].addr
  {
    ExampleUser(page);
    ExampleReserve(page);
    ModSmall(page + 64 + 72, Word64);
  }

  /** The example's block at page+64 puts 64-aligned user data at page+128. */
  lemma ExampleUser(page: u64)
    requires page % PageSize == 0 && page + 2 * PageSize < Word64
    ensures IsPowerOf2(64) && UserAddr(page + 64, 64) == page + 128
  {
    Pow2IsPowerOf2(6);
    var q := page / PageSize * 64;
    DivOf(page, 64, q, 0);
    ModSmall(page + 64 + 8 + 63, Word64);
    DivOf(page + 64 + 8 + 63, 64, q + 2, 7);
  }

  /** The example's reservation: 64 bytes up to the user data and 8 of data. */
  lemma ExampleReserve(page: u64)
    requires page % PageSize == 0 && page + 2 * PageSize < Word64
    ensures IsPowerOf2(64) && Reserve(page + 64, 8, 64) == 72
  {
    ExampleUser(page);
    var n := Span(page + 64, page + 128, 8);
    assert 72 <= n < 80 && n % 8 == 0;
  }

  // ---------------------------------------------------------------------
  // A fresh page
  // ---------------------------------------------------------------------

  datatype Placed = Placed(user: u64, span: u32, remainder: Option<Block>)

  /**
   The new-page path as written: the block starts at the page, the rest of
   the page, computed in 32 bits, becomes a free block when it can hold a
   free block record.
   */
  function NewPageAsWritten(page: u64, size: u32, a: u32): (r: Placed)
    requires IsPowerOf2(a)
  {
    var user := UserAddrAsWritten(page, a);
    var span := Span(page, user, size);
    var remaining := (PageSize - span) % Word32;
    Placed(user, span,
      if remaining >= FreeBlockSize then Some(Block((page + span) % Word64, remaining)) else None)
  }

  /**
   An alignment of a page or more puts the user data past the page's end,
   and the page's remainder wraps to almost 4 GiB.
   */
  lemma NewPageOverruns(page: u64)
    requires page % PageSize == 0 && page + 3 * PageSize < Word32
    ensures IsPowerOf2(PageSize)
    ensures var r := NewPageAsWritten(page, 8, PageSize);
      r.user == page + PageSize && r.span == PageSize + 8
      && r.remainder == Some(Block(page + PageSize + 8, Word32 - 8))
  {
    Pow2IsPowerOf2(12);
    UserAfterAligned(page, PageSize);
    var n := Span(page, page + PageSize, 8);
    assert PageSize + 8 <= n < PageSize + 16 && n % 8 == 0;
    assert n == PageSize + 8;
    assert (PageSize - n) % Word32 == Word32 - 8;
    ModSmall(page + PageSize + 8, Word64);
  }

  /**
   The new-page path with the overrun refused: the 64-bit user address,
   and nothing placed when the span would leave the page.
   */
  function NewPage(page: u64, size: u32, a: u32): (r: Option<Placed>)
    requires IsPowerOf2(a)
    ensures r.Some? ==> r.value.span <= PageSize && r.value.user == UserAddr(page, a)
    ensures r.Some? && page + 2 * PageSize < Word64 && a <= PageSize && size < LargeThreshold ==>
      page + HeaderSize <= r.value.user && r.value.user + size <= page + PageSize
    ensures r.Some? ==> match r.value.remainder
      case Some(b) => b.addr == (page + r.value.span) % Word64 && r.value.span + b.size == PageSize
      case None => PageSize - r.value.span < FreeBlockSize
  {
    var user := UserAddr(page, a);
    var span := Span(page, user, size);
    if span > PageSize then None
    else
      var remaining := PageSize - span;
      ModSmall(remaining, Word32);
      Some(Placed(user, span,
        if remaining >= FreeBlockSize then Some(Block((page + span) % Word64, remaining)) else None))
  }

  /** The corrected path refuses the example the written one overruns with. */
  lemma NewPageRefusesOverrun(page: u64)
    requires page % PageSize == 0 && page + 3 * PageSize < Word32
    ensures IsPowerOf2(PageSize) && NewPage(page, 8, PageSize).None?
  {
    NewPageOverruns(page);
    UserAddrTruncates(page, PageSize);
  }

  // ---------------------------------------------------------------------
  // kalloc
  // ---------------------------------------------------------------------

  /** The allocator after a request, and the pointer handed out (None for NULL). */
  datatype Alloc = Alloc(heap: Heap, ptr: Option<u64>)

  /** Charging `amount` bytes to record `i`; free is recomputed from used, in 32 bits. */
  function Charge(pages: seq<PageInfo>, i: nat, amount: nat): (r: seq<PageInfo>)
    requires i < |pages|
    ensures |r| == |pages| && r[i].used == (pages[i].used + amount) % Word32
    ensures (r[i].used + r[i].free) % Word32 == PageSize
    ensures forall j :: 0 <= j < |pages| && j != i ==> r[j] == pages[j]
    ensures r[i].addr == pages[i].addr && r[i].count == pages[i].count && r[i].large == pages[i].large
  {
    var used := (pages[i].used + amount) % Word32;
    pages[i := pages[i].(used := used, free := (PageSize - used) % Word32)]
  }

  /** Charging the record that holds `addr`, when there is one. */
  function ChargeAt(pages: seq<PageInfo>, addr: int, amount: nat): (r: seq<PageInfo>)
    ensures |r| == |pages|
    ensures forall j :: 0 <= j < |pages| ==> r[j].addr == pages[j].addr && r[j].count == pages[j].count
    ensures FindPage(pages, addr).None? ==> r == pages
  {
    match FindPage(pages, addr)
    case None => pages
    case Some(i) => Charge(pages, i, amount)
  }

  /** A large request: its pages are recorded and counted, or nothing changes. */
  function AllocLarge(h: Heap, size: u32, given: u64): (r: Alloc)
    requires size <= MaxLarge
    ensures r.ptr.Some? <==> given != 0 && |h.pages| < h.capacity
    ensures r.ptr.Some? ==> r.ptr.value == given && |r.heap.pages| == |h.pages| + 1
    ensures r.ptr.Some? ==> r.heap.pages[..|h.pages|] == h.pages && r.heap.pages[|h.pages|].large
    ensures r.ptr.Some? ==> r.heap.pages[|h.pages|].used == size && r.heap.pages[|h.pages|].count * PageSize >= size
    ensures r.ptr.Some? ==> r.heap.usedSize == (h.usedSize + size) % Word64 && r.heap.largeCount == (h.largeCount + 1) % Word32
    ensures r.ptr.None? ==> r.heap == h
    ensures r.heap.freeList == h.freeList
  {
    var n := LargePages(size);
    if given == 0 then Alloc(h, None)
    else match AddPage(h, given, n, true, size)
      case None => Alloc(h, None)
      case Some(h1) =>
        Alloc(h1.(largeCount := (h.largeCount + 1) % Word32,
                  totalSize := (h.totalSize + (n * PageSize) % Word32) % Word64,
                  usedSize := (h.usedSize + size) % Word64), Some(given))
  }

  /**
   Carving a found free block: its reservation is charged to the record
   holding the user address and to the used total, and the remainder, if
   large enough, heads the list.
   */
  function TakeBlock(h: Heap, rest: seq<Block>, b: Block, size: u32, a: u32): (r: Alloc)
    requires IsPowerOf2(a) && b.size >= Reserve(b.addr, size, a)
    ensures r.ptr == Some(UserAddr(b.addr, a)) && r.ptr.value % a == 0
    ensures r.heap.usedSize == (h.usedSize + Reserve(b.addr, size, a)) % Word64
    ensures r.heap.smallCount == (h.smallCount + 1) % Word32
    ensures |r.heap.pages| == |h.pages|
  {
    var t := Reserve(b.addr, size, a);
    var user := UserAddr(b.addr, a);
    Alloc(h.(freeList := Carve(b, t, rest),
             pages := ChargeAt(h.pages, user, t),
             smallCount := (h.smallCount + 1) % Word32,
             usedSize := (h.usedSize + t) % Word64), Some(user))
  }

  /**
   Carving a fresh page: the page is recorded as a small page holding the
   block's span, and what is left of it heads the free list.
   */
  function TakePage(h: Heap, page: u64, size: u32, a: u32): (r: Alloc)
    requires IsPowerOf2(a)
    ensures r.ptr.Some? <==> NewPage(page, size, a).Some? && |h.pages| < h.capacity
    ensures r.ptr.Some? ==> r.ptr.value % a == 0 && |r.heap.pages| == |h.pages| + 1
    ensures r.ptr.Some? ==> r.heap.pages[|h.pages|].addr == page && !r.heap.pages[|h.pages|].large
    ensures r.ptr.Some? ==> r.heap.smallCount == (h.smallCount + 1) % Word32
    ensures r.ptr.None? ==> r.heap == h
  {
    match NewPage(page, size, a)
    case None => Alloc(h, None)
    case Some(p) =>
      match AddPage(h, page, 1, false, 0)
      case None => Alloc(h, None)
      case Some(h1) =>
        var list := match p.remainder case Some(rb) => [rb] + h.freeList case None => h.freeList;
        Alloc(h1.(freeList := list,
                  pages := SetUsedAt(h1.pages, p.user, p.span),
                  smallCount := (h.smallCount + 1) % Word32,
                  totalSize := (h.totalSize + PageSize) % Word64,
                  usedSize := (h.usedSize + p.span) % Word64), Some(p.user))
  }

  /** Setting the used count of the record holding `addr`, free being the rest of a page. */
  function SetUsedAt(pages: seq<PageInfo>, addr: int, used: u32): (r: seq<PageInfo>)
    requires used <= PageSize
    ensures |r| == |pages|
    ensures forall j :: 0 <= j < |pages| ==> r[j].addr == pages[j].addr && r[j].large == pages[j].large
    ensures FindPage(pages, addr).Some? ==> r[FindPage(pages, addr).value].used == used
  {
    match FindPage(pages, addr)
    case None => pages
    case Some(i) => pages[i := pages[i].(used := used, free := PageSize - used)]
  }

  /**
   A small request: the first free block that can hold it is carved, or
   else a fresh page is recorded and carved; unusable blocks met on the
   walk are dropped either way.
   */
  function AllocSmall(h: Heap, size: u32, a: u32, given: u64): (r: Alloc)
    requires 0 < size < LargeThreshold && IsPowerOf2(a)
    ensures r.ptr.Some? ==> r.ptr.value % a == 0
    ensures r.ptr.None? ==> r.heap.pages == h.pages && r.heap.usedSize == h.usedSize
    ensures r.ptr.None? ==> r.heap.freeList == Usables(h.pages, h.freeList)
    ensures r.ptr.Some? ==> r.heap.smallCount == (h.smallCount + 1) % Word32
  {
    Place(h, SmallFit(h, size, a), size, a, given)
  }

  /** The rest of kallocator_alloc_small once the walk has ended with the fit f. */
  function Place(h: Heap, f: Fit, size: u32, a: u32, given: u64): (r: Alloc)
    requires IsPowerOf2(a)
    requires f.block.Some? ==> f.block.value.size >= Reserve(f.block.value.addr, size, a)
    ensures r.ptr.Some? ==> r.ptr.value % a == 0 && r.heap.smallCount == (h.smallCount + 1) % Word32
    ensures r.ptr.None? ==> r.heap == h.(freeList := f.rest) && f.block.None?
  {
    match f.block
    case Some(b) => TakeBlock(h, f.rest, b, size, a)
    case None => FromNewPage(h.(freeList := f.rest), given, size, a)
  }

  /** The first-fit search of kallocator_alloc_small, with only the facts the allocation needs. */
  function SmallFit(h: Heap, size: u32, a: u32): (f: Fit)
    requires IsPowerOf2(a)
    ensures f.block.Some? ==> f.block.value.size >= Reserve(f.block.value.addr, size, a)
    ensures f.block.None? ==> f.rest == Usables(h.pages, h.freeList)
  {
    FirstFit(h.pages, h.freeList, FitsFor(size, a))
  }

  /** No free block fits: NULL without a page from the caller, otherwise the request goes to the new page. */
  function FromNewPage(h: Heap, given: u64, size: u32, a: u32): (r: Alloc)
    requires IsPowerOf2(a)
    ensures r.ptr.Some? ==> r.ptr.value % a == 0 && r.heap.smallCount == (h.smallCount + 1) % Word32
    ensures r.ptr.None? ==> r.heap == h
    ensures r.ptr.Some? <==> given != 0 && NewPage(given, size, a).Some? && |h.pages| < h.capacity
  {
    if given == 0 then Alloc(h, None) else TakePage(h, given, size, a)
  }

  /** A usable free block that holds the reservation makes the request succeed without a new page. */
  lemma AllocSmallFinds(h: Heap, size: u32, a: u32, given: u64, b: Block)
    requires 0 < size < LargeThreshold && IsPowerOf2(a)
    requires b in h.freeList && Usable(h.pages, b) && FitsFor(size, a)(b)
    ensures var r := AllocSmall(h, size, a, given);
      r.ptr.Some? && |r.heap.pages| == |h.pages|
  {
    var f := FirstFit(h.pages, h.freeList, FitsFor(size, a));
    assert f.block.Some?;
  }

  /**
   kalloc: refused arguments give NULL and change nothing; a large request
   takes whole pages; a small one is carved with its alignment.
   */
  function Kalloc(h: Heap, size: u32, alignment: u32, given: u64): (r: Alloc)
    ensures !Accepts(h, size, alignment) || size > MaxLarge ==> r == Alloc(h, None)
    ensures r.ptr.Some? ==> Accepts(h, size, alignment)
    ensures r.ptr.Some? && size < LargeThreshold ==> r.ptr.value % EffectiveAlign(alignment) == 0
    ensures r.ptr.Some? && size >= LargeThreshold ==>
      r.ptr.value == given && |r.heap.pages| == |h.pages| + 1 && r.heap.pages[|h.pages|].large
    ensures r.ptr.None? ==> r.heap.pages == h.pages && r.heap.usedSize == h.usedSize
  {
    if !Accepts(h, size, alignment) || size > MaxLarge then Alloc(h, None)
    else if size >= LargeThreshold then AllocLarge(h, size, given)
    else AllocSmall(h, size, EffectiveAlign(alignment), given)
  }

  // ---------------------------------------------------------------------
  // kfree of a large allocation
  // ---------------------------------------------------------------------

  /**
   kfree: NULL, an allocator not set up, or an address outside every
   record changes nothing; for a large record the counters are taken back
   in their widths and the record is removed. The small-block branch is
   not part of this model and changes nothing here.
   */
  function Kfree(h: Heap, ptr: u64): (r: Heap)
    ensures ptr == 0 || !h.initialized || FindPage(h.pages, ptr).None? ==> r == h
    ensures FindPage(h.pages, ptr).Some? && h.initialized && ptr != 0 && h.pages[FindPage(h.pages, ptr).value].large ==>
      |r.pages| == |h.pages| - 1 && r.freeList == h.freeList
  {
    if ptr == 0 || !h.initialized then h
    else match FindPage(h.pages, ptr)
      case None => h
      case Some(i) =>
        var p := h.pages[i];
        if !p.large then h
        else
          PageAtFinds(h.pages, p.addr, i);
          h.(largeCount := (h.largeCount - 1) % Word32,
             totalSize := (h.totalSize - (p.count * PageSize) % Word32) % Word64,
             usedSize := (h.usedSize - p.used) % Word64,
             pages := RemovePage(h.pages, p.addr))
  }

  lemma PageAtFinds(pages: seq<PageInfo>, addr: u64, i: nat)
    requires i < |pages| && pages[i].addr == addr
    ensures PageAt(pages, addr, 0).Some?
  {
  }

  /**
   A large allocation freed straight away leaves the page table and every
   counter as they were, provided the new pages do not start inside or at
   a recorded page.
   */
  lemma LargeAllocThenFree(h: Heap, size: u32, alignment: u32, given: u64)
    requires Accepts(h, size, alignment) && LargeThreshold <= size <= MaxLarge
    requires given != 0 && given + Word32 < Word64
    requires forall j :: 0 <= j < |h.pages| ==> !Covers(h.pages[j], given) && h.pages[j].addr != given
    requires |h.pages| < h.capacity
    ensures Kfree(Kalloc(h, size, alignment, given).heap, given) == h
  {
    var r := Kalloc(h, size, alignment, given);
    var n := LargePages(size);
    var ps := r.heap.pages;
    assert Covers(ps[|h.pages|], given) by {
      ModSmall(n * PageSize, Word32);
      ModSmall(given + n * PageSize, Word64);
    }
    assert forall j :: 0 <= j < |h.pages| ==> !Covers(ps[j], given) by {
      assert ps[..|h.pages|] == h.pages;
    }
    assert FindPage(ps, given) == Some(|h.pages|);
    FreeLastLarge(h, r.heap, given, size, n);
  }

  /** Removing the record that was appended last gives back the table before it. */
  lemma RemoveLast(pages: seq<PageInfo>, ps: seq<PageInfo>, addr: u64)
    requires |ps| == |pages| + 1 && ps[..|pages|] == pages
    requires PageAt(ps, addr, 0) == Some(|pages|)
    ensures RemovePage(ps, addr) == pages
  {
    assert ps[|pages| := ps[|pages|]] == ps;
  }

  /** Freeing the large record just appended to the table takes back every counter it raised. */
  lemma FreeLastLarge(h: Heap, h1: Heap, given: u64, size: u32, n: u32)
    requires h.initialized && given != 0
    requires |h1.pages| == |h.pages| + 1 && h1.pages[..|h.pages|] == h.pages
    requires forall j :: 0 <= j < |h.pages| ==> h.pages[j].addr != given
    requires FindPage(h1.pages, given) == Some(|h.pages|)
    requires h1.pages[|h.pages|].addr == given && h1.pages[|h.pages|].large
    requires h1.pages[|h.pages|].used == size && h1.pages[|h.pages|].count == n
    requires h1 == h.(pages := h1.pages, largeCount := (h.largeCount + 1) % Word32,
                      totalSize := (h.totalSize + (n * PageSize) % Word32) % Word64,
                      usedSize := (h.usedSize + size) % Word64)
    ensures Kfree(h1, given) == h
  {
    var ps := h1.pages;
    assert forall j :: 0 <= j < |h.pages| ==> ps[j].addr != given by {
      assert forall j :: 0 <= j < |h.pages| ==> ps[j] == ps[..|h.pages|][j];
    }
    assert PageAt(ps, given, |h.pages|) == Some(|h.pages|);
    PageAtSkips(ps, given, 0, |h.pages|);
    RemoveLast(h.pages, ps, given);
    AddSubMod(h.largeCount, 1, Word32);
    AddSubMod(h.usedSize, size, Word64);
    AddSubMod(h.totalSize, (n * PageSize) % Word32, Word64);
  }

  // ---------------------------------------------------------------------
  // The free total
  // ---------------------------------------------------------------------

  /**
   Carving a block from a list of usable blocks takes exactly the
   reservation out of the free total when the block splits, and the whole
   block when it does not.
   */
  lemma {:induction false} CarveConserves(pages: seq<PageInfo>, list: seq<Block>, size: u32, a: u32)
    requires 0 < size < LargeThreshold && IsPowerOf2(a)
    requires forall b :: b in list ==> Usable(pages, b)
    ensures var f := FirstFit(pages, list, FitsFor(size, a));
      f.block.Some? ==>
        var b := f.block.value;
        var t := Reserve(b.addr, size, a);
        Sum(Carve(b, t, f.rest)) + (if b.size > t + FreeBlockSize then t else b.size as nat) == Sum(list)
  {
    AllUsable(pages, list);
  }
}
