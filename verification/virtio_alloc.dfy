/**
 The VirtIO memory allocator: a region from the linker script split into
 a device part, where each device has a fixed 512 KiB slot holding its
 queues, and a general part handed out by a bump pointer.
 */
module VirtioAlloc {
  import opened Util
  import opened CTypes
  import opened BitUtils

  /** The first 5 MiB of the region belong to device queues. */
  const DeviceRegion := 0x50_0000
  /** The slot of one device. */
  const DeviceMemorySize := 0x8_0000
  /** The room of one queue within its device's slot. */
  const QueueStride := 0x4000
  const QueueAlign := 0x1000
  /** The available ring sits this far after the descriptor table. */
  const AvailOffset := 0x100
  /** The used ring sits this far after the available ring. */
  const UsedOffset := 0xF00
  /** One descriptor: address, length, flags, next. */
  const DescSize := 16
  const DefaultAlign := 8

  datatype Region = Region(start: u64, end: u64, current: u64, total: u64, used: u64)

  datatype Allocator = Allocator(initialized: bool, general: Region, device: Region)

  /**
   virtio_allocator_init: a second call changes nothing; otherwise the
   device part takes the first 5 MiB of the region and the general part
   the rest, both with nothing used.
   */
  function Init(s: Allocator, regionStart: u64, regionEnd: u64): (r: Allocator)
    ensures s.initialized ==> r == s
    ensures !s.initialized ==> (r.initialized
      && r.device.start == regionStart && r.device.current == regionStart && r.device.used == 0
      && r.general.start == r.device.end && r.general.end == regionEnd
      && r.general.current == r.general.start && r.general.used == 0)
    ensures !s.initialized && regionStart + DeviceRegion <= regionEnd ==>
      r.device.end - r.device.start == r.device.total
      && r.general.end - r.general.start == r.general.total
      && r.device.total + r.general.total == regionEnd - regionStart
  {
    if s.initialized then s
    else
      var split := (regionStart + DeviceRegion) % Word64;
      Allocator(true,
        Region(split, regionEnd, split, (regionEnd - split) % Word64, 0),
        Region(regionStart, split, regionStart, DeviceRegion, 0))
  }

  /** The start of the general part sits inside the region when the region has room for the device part. */
  lemma InitSplits(s: Allocator, regionStart: u64, regionEnd: u64)
    requires !s.initialized && regionStart + DeviceRegion <= regionEnd
    ensures var r := Init(s, regionStart, regionEnd);
      r.device.end == regionStart + DeviceRegion && r.general.start <= r.general.end
  {
  }

  datatype Grant = Grant(alloc: Allocator, addr: Option<u64>)

  function EffectiveAlign(alignment: u32): (a: u32)
    ensures alignment != 0 ==> a == alignment
    ensures a != 0
  {
    if alignment == 0 then DefaultAlign else alignment
  }

  /**
   The bump step shared by both versions of virtio_alloc: refused when
   not set up, for size 0, for an alignment that is not a power of two, or
   when the aligned block would end past the region; otherwise the pointer
   moves past the block and the used size follows it.
   */
  function Bump(s: Allocator, size: u32, a: u32, aligned: u64): (r: Grant)
    ensures r.addr.None? ==> r.alloc == s
    ensures r.addr.None? <==> (aligned + size) % Word64 > s.general.end
    ensures r.addr.Some? ==> (r.addr.value == aligned
      && r.alloc.general.current == (aligned + size) % Word64
      && r.alloc.general.used == (r.alloc.general.current - s.general.start) % Word64
      && r.alloc.general.start == s.general.start && r.alloc.general.end == s.general.end
      && r.alloc.device == s.device && r.alloc.initialized == s.initialized)
  {
    if (aligned + size) % Word64 > s.general.end then Grant(s, None)
    else
      var current := (aligned + size) % Word64;
      Grant(s.(general := s.general.(current := current, used := (current - s.general.start) % Word64)), Some(aligned))
  }

  predicate Accepts(s: Allocator, size: u32, alignment: u32) {
    s.initialized && size != 0 && IsPowerOf2(EffectiveAlign(alignment))
  }

  /**
   virtio_alloc as written: the pointer is rounded up with the mask
   `~(alignment - 1)`, which is 32 bits wide, so the upper half of the
   64-bit address is cleared.
   */
  function AllocAsWritten(s: Allocator, size: u32, alignment: u32): (r: Grant)
  {
    if !Accepts(s, size, alignment) then Grant(s, None)
    else
      var a := EffectiveAlign(alignment);
      Bump(s, size, a, AlignDown(((s.general.current + a - 1) % Word64) % Word32, a))
  }

  /** virtio_alloc with the rounding done in 64 bits. */
  function Alloc(s: Allocator, size: u32, alignment: u32): (r: Grant)
    ensures !Accepts(s, size, alignment) ==> r == Grant(s, None)
    ensures r.addr.None? ==> r.alloc == s
    ensures r.addr.Some? ==> Accepts(s, size, alignment)
  {
    if !Accepts(s, size, alignment) then Grant(s, None)
    else
      var a := EffectiveAlign(alignment);
      Bump(s, size, a, AlignUp(s.general.current, a))
  }

  /**
   What an accepted request gets: the pointer rounded up to the alignment,
   refused exactly when the block would end past the region, and otherwise
   the block's address, with the pointer and the used size moved past it.
   */
  lemma AllocGrants(s: Allocator, size: u32, alignment: u32)
    requires Accepts(s, size, alignment)
    ensures var r := Alloc(s, size, alignment);
      var a := EffectiveAlign(alignment);
      var up := AlignUp(s.general.current, a);
      && up % a == 0
      && (s.general.current + a - 1 < Word64 ==> s.general.current <= up < s.general.current + a)
      && (r.addr.None? <==> (up + size) % Word64 > s.general.end)
      && (r.addr.Some? ==>
            && r.addr.value == up
            && r.alloc.general.current == (up + size) % Word64
            && r.alloc.general.used == (r.alloc.general.current - s.general.start) % Word64)
  {
  }

  /** The general part's pointer stays within it, and the used size is its distance from the start. */
  predicate Bounded(g: Region) {
    g.start <= g.current <= g.end && g.used == g.current - g.start
  }

  /**
   A grant keeps the general part bounded and lies between the old and the
   new pointer, so successive grants never overlap; the region is assumed
   to end below the top 8 GiB of the address space.
   */
  lemma AllocKeepsBounded(s: Allocator, size: u32, alignment: u32)
    requires Bounded(s.general) && s.general.end + 2 * Word32 < Word64
    ensures var r := Alloc(s, size, alignment);
      Bounded(r.alloc.general)
      && (r.addr.Some? ==> s.general.current <= r.addr.value && r.addr.value + size == r.alloc.general.current)
  {
    var r := Alloc(s, size, alignment);
    if r.addr.Some? {
      AllocGrants(s, size, alignment);
      var a := EffectiveAlign(alignment);
      PowerOf2Bound(a);
      var p := r.addr.value;
      ModSmall(p + size, Word64);
      ModSmall(p + size - s.general.start, Word64);
    }
  }

  /** Two grants in a row are disjoint: the second starts at or after the end of the first. */
  lemma GrantsDisjoint(s: Allocator, size1: u32, align1: u32, size2: u32, align2: u32)
    requires Bounded(s.general) && s.general.end + 2 * Word32 < Word64
    ensures var r1 := Alloc(s, size1, align1);
      var r2 := Alloc(r1.alloc, size2, align2);
      r1.addr.Some? && r2.addr.Some? ==> r1.addr.value + size1 <= r2.addr.value
  {
    var r1 := Alloc(s, size1, align1);
    AllocKeepsBounded(s, size1, align1);
    AllocKeepsBounded(r1.alloc, size2, align2);
  }

  /**
   A pointer just above 4 GiB is rounded, as written, to an address near 0,
   below the pointer it came from; the 64-bit rounding keeps it.
   */
  lemma AllocAsWrittenTruncates(s: Allocator)
    requires s.initialized && s.general.current == Word32 + 1 && s.general.end >= Word32 + 16
    ensures AllocAsWritten(s, 8, 8).addr == Some(8)
    ensures Alloc(s, 8, 8).addr == Some(Word32 + 8)
  {
    Pow2IsPowerOf2(3);
    assert (Word32 + 8) % Word32 == 8;
    ModSmall(Word32 + 8, Word64);
    ModSmall(Word32 + 16, Word64);
    DivOf(Word32 + 8, 8, Word32 / 8 + 1, 0);
  }

  /** The two roundings agree while the pointer stays below 4 GiB. */
  lemma AllocAgreesBelow4G(s: Allocator, size: u32, alignment: u32)
    requires s.general.current + EffectiveAlign(alignment) - 1 < Word32
    ensures AllocAsWritten(s, size, alignment) == Alloc(s, size, alignment)
  {
    var a := EffectiveAlign(alignment);
    ModSmall(s.general.current + a - 1, Word64);
    ModSmall(s.general.current + a - 1, Word32);
  }

  // ---------------------------------------------------------------------
  // Device slots and queue layout
  // ---------------------------------------------------------------------

  /** The number of device slots the device part holds. */
  const DeviceSlots := DeviceRegion / DeviceMemorySize

  /**
   virtio_get_device_base_addr as written: the slot offset is a 32-bit
   product, and 0 stands for refusal.
   */
  function DeviceBaseAsWritten(s: Allocator, index: u32): (base: u64)
  {
    if !s.initialized then 0
    else
      var b := (s.device.start + (index * DeviceMemorySize) % Word32) % Word64;
      if (b + DeviceMemorySize) % Word64 > s.device.end then 0 else b
  }

  /** virtio_get_device_base_addr with a 64-bit offset: slot `index` when it lies within the device part. */
  function DeviceBase(s: Allocator, index: u32): (base: u64)
    ensures base != 0 && s.device.start != 0 ==> base == s.device.start + index * DeviceMemorySize
    ensures base != 0 ==> base + DeviceMemorySize <= s.device.end
  {
    if !s.initialized then 0
    else
      var b := s.device.start + index * DeviceMemorySize;
      if b + DeviceMemorySize > s.device.end then 0 else b
  }

  /** With the region as set up, exactly the ten slots of the device part are handed out, and they do not overlap. */
  lemma DeviceSlotsDisjoint(s: Allocator, i: u32, j: u32)
    requires s.initialized && s.device.start != 0 && s.device.end == s.device.start + DeviceRegion
    ensures DeviceBase(s, i) != 0 <==> i < DeviceSlots
    ensures i != j && DeviceBase(s, i) != 0 && DeviceBase(s, j) != 0 ==>
      DeviceBase(s, i) + DeviceMemorySize <= DeviceBase(s, j) || DeviceBase(s, j) + DeviceMemorySize <= DeviceBase(s, i)
  {
  }

  /** As written, device index 0x2000 wraps its offset to 0 and is handed device 0's slot. */
  lemma DeviceIndexAliases(s: Allocator)
    requires s.initialized && s.device.start != 0 && s.device.end == s.device.start + DeviceRegion
    requires s.device.start + DeviceRegion < Word64
    ensures DeviceBaseAsWritten(s, 0x2000) == DeviceBaseAsWritten(s, 0) == s.device.start
    ensures DeviceBase(s, 0x2000) == 0
  {
    ModSmall(s.device.start, Word64);
    ModSmall(s.device.start + DeviceMemorySize, Word64);
  }

  /** The descriptor table of queue `q` in a slot: the queue's stride rounded up to 4 KiB, in 64 bits. */
  function QueueDesc(base: u64, q: u32): (d: u64)
    ensures d % QueueAlign == 0
    ensures base + (q * QueueStride) % Word32 + QueueAlign - 1 < Word64 ==>
      base + (q * QueueStride) % Word32 <= d < base + (q * QueueStride) % Word32 + QueueAlign
  {
    Pow2IsPowerOf2(12);
    var start := base + (q * QueueStride) % Word32;
    StartNoWrap(start);
    AlignUp(start % Word64, QueueAlign)
  }

  lemma StartNoWrap(x: nat)
    ensures x + QueueAlign - 1 < Word64 ==> x % Word64 == x
  {
    if x + QueueAlign - 1 < Word64 {
      ModSmall(x, Word64);
    }
  }

  /** A queue's three areas: descriptor table, available ring and used ring. */
  datatype QueueLayout = QueueLayout(desc: u64, avail: u64, used: u64)

  /**
   The queue address helpers: each is 0 when the device slot is refused,
   the available ring follows the table by 0x100 and the used ring the
   available ring by 0xF00.
   */
  function Layout(base: u64, q: u32): (l: QueueLayout)
    ensures base == 0 ==> l == QueueLayout(0, 0, 0)
    ensures l.desc % QueueAlign == 0
    ensures l.desc != 0 && l.desc + QueueAlign < Word64 ==>
      l.avail == l.desc + AvailOffset && l.used == l.desc + QueueAlign
  {
    if base == 0 then QueueLayout(0, 0, 0)
    else
      var d := QueueDesc(base, q);
      if d == 0 then QueueLayout(0, 0, 0)
      else
        var a := (d + AvailOffset) % Word64;
        LayoutNoWrap(d);
        QueueLayout(d, a, if a == 0 then 0 else (a + UsedOffset) % Word64)
  }

  lemma LayoutNoWrap(d: int)
    requires 0 <= d
    ensures d + QueueAlign < Word64 ==>
      (d + AvailOffset) % Word64 == d + AvailOffset && (d + AvailOffset + UsedOffset) % Word64 == d + QueueAlign
  {
    if d + QueueAlign < Word64 {
      ModSmall(d + AvailOffset, Word64);
      ModSmall(d + QueueAlign, Word64);
    }
  }

  /**
   For a 4 KiB-aligned slot, a queue below 32 has its three areas inside
   the slot, and a queue of at most 16 descriptors ends its table where the
   available ring begins.
   */
  lemma LayoutFits(base: u64, q: u32, entries: nat)
    requires base != 0 && base % QueueAlign == 0 && base + DeviceMemorySize < Word64
    requires q < DeviceMemorySize / QueueStride
    ensures var l := Layout(base, q);
      base <= l.desc && l.used + QueueAlign <= base + DeviceMemorySize
      && (entries <= 16 <==> l.desc + entries * DescSize <= l.avail)
  {
    var off := q * QueueStride;
    ModSmall(off, Word32);
    ModSmall(base + off, Word64);
    ModSmall(base + off + QueueAlign - 1, Word64);
    Pow2IsPowerOf2(12);
    DivOf(base + off, QueueAlign, base / QueueAlign + q * 4, 0);
    DivOf(base + off + QueueAlign - 1, QueueAlign, base / QueueAlign + q * 4, QueueAlign - 1);
    var d := QueueDesc(base, q);
    assert d == base + off;
    ModSmall(d + AvailOffset, Word64);
    ModSmall(d + AvailOffset + UsedOffset, Word64);
  }
}
