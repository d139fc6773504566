/**
 The block front end's read and write entry points
 (dev/virtio_frontend/virtio_block.c): a transfer of many sectors is cut into
 requests of at most 128 sectors, each sent to the device in turn. The
 device's answer to each request is a parameter.
 */
module VirtioBlock {
  import opened CTypes

  /** The most sectors one request carries. */
  const MaxBatch := 128
  /** Bytes per sector. */
  const SectorSize := 512

  /** One request handed to the device: start sector, buffer address, sector count. */
  datatype Batch = Batch(sector: u64, buffer: u64, count: u32)

  function SumCounts(bs: seq<Batch>): nat {
    if bs == [] then 0 else bs[0].count + SumCounts(bs[1..])
  }

  predicate AllSucceed(bs: seq<Batch>, succeeds: Batch -> bool) {
    forall i :: 0 <= i < |bs| ==> succeeds(bs[i])
  }

  /** The requests a transfer of `count` sectors is cut into, in order. */
  function Plan(sector: u64, buffer: u64, count: nat): (bs: seq<Batch>)
    requires count < Word32
    decreases count
  {
    if count == 0 then []
    else
      var b := if count > MaxBatch then MaxBatch else count;
      [Batch(sector, buffer, b)] + Plan((sector + b) % Word64, (buffer + b * SectorSize) % Word64, count - b)
  }

  /**
   Every request is 1 to 128 sectors, all but the last exactly 128, and the
   requests add up to the transfer.
   */
  lemma {:induction false} PlanCovers(sector: u64, buffer: u64, count: nat)
    requires count < Word32
    decreases count
    ensures var bs := Plan(sector, buffer, count);
      SumCounts(bs) == count
      && |bs| == (count + MaxBatch - 1) / MaxBatch
      && (forall i :: 0 <= i < |bs| ==> 1 <= bs[i].count <= MaxBatch)
      && (forall i :: 0 <= i < |bs| - 1 ==> bs[i].count == MaxBatch)
  {
    if count > 0 {
      var b := if count > MaxBatch then MaxBatch else count;
      PlanCovers((sector + b) % Word64, (buffer + b * SectorSize) % Word64, count - b);
      var bs := Plan(sector, buffer, count);
      assert bs[1..] == Plan((sector + b) % Word64, (buffer + b * SectorSize) % Word64, count - b);
    }
  }

  /** The i-th request starts 128·i sectors and 64 KiB·i bytes further on, modulo 2^64. */
  lemma {:induction false} PlanOffsets(sector: u64, buffer: u64, count: nat, i: nat)
    requires count < Word32
    requires i < |Plan(sector, buffer, count)|
    decreases count, 1
    ensures Plan(sector, buffer, count)[i].sector == (sector + MaxBatch * i) % Word64
    ensures Plan(sector, buffer, count)[i].buffer == (buffer + MaxBatch * SectorSize * i) % Word64
  {
    if i > 0 {
      PlanOffsetsLater(sector, buffer, count, i);
    }
  }

  /** PlanOffsets past the first request: the rest of the plan starts one full request further on. */
  lemma {:induction false} PlanOffsetsLater(sector: u64, buffer: u64, count: nat, i: nat)
    requires count < Word32
    requires 0 < i < |Plan(sector, buffer, count)|
    decreases count, 0
    ensures Plan(sector, buffer, count)[i].sector == (sector + MaxBatch * i) % Word64
    ensures Plan(sector, buffer, count)[i].buffer == (buffer + MaxBatch * SectorSize * i) % Word64
  {
    var bs := Plan(sector, buffer, count);
    var b := if count > MaxBatch then MaxBatch else count;
    var s1 := (sector + b) % Word64;
    var p1 := (buffer + b * SectorSize) % Word64;
    assert b == MaxBatch;
    assert bs[i] == Plan(s1, p1, count - b)[i - 1];
    PlanOffsets(s1, p1, count - b, i - 1);
    OffsetStep(sector, MaxBatch, i);
    OffsetStep(buffer, MaxBatch * SectorSize, i);
  }

  /** Moving on by `a` once and then by `a` another i - 1 times is moving on by `a` i times, modulo 2^64. */
  lemma OffsetStep(x: int, a: int, i: nat)
    requires i > 0
    ensures ((x + a) % Word64 + a * (i - 1)) % Word64 == (x + a * i) % Word64
  {
    ModShift(x, a, a * (i - 1));
    assert a + a * (i - 1) == a * i;
  }

  lemma ModShift(x: int, a: int, c: int)
    ensures ((x + a) % Word64 + c) % Word64 == (x + a + c) % Word64
  {
    var q := (x + a) / Word64;
    assert (x + a) % Word64 + c == (x + a + c) - q * Word64;
  }

  /**
   The batching loop shared by the read and write paths: send each request
   until one fails. `issued` is the list of requests sent, the failing one
   last.
   */
  method SendBatches(sector: u64, buffer: u64, count: u32, succeeds: Batch -> bool)
    returns (ret: int, issued: seq<Batch>)
    ensures ret == 0 || ret == -1
    ensures ret == 0 <==> AllSucceed(Plan(sector, buffer, count), succeeds)
    ensures ret == 0 ==> issued == Plan(sector, buffer, count)
    ensures ret == -1 ==> (0 < |issued| <= |Plan(sector, buffer, count)|
      && issued == Plan(sector, buffer, count)[..|issued|]
      && !succeeds(issued[|issued| - 1])
      && AllSucceed(issued[..|issued| - 1], succeeds))
  {
    var remaining: u32 := count;
    var current: u64 := sector;
    var cursor: u64 := buffer;
    issued := [];
    while remaining > 0
      invariant issued + Plan(current, cursor, remaining) == Plan(sector, buffer, count)
      invariant AllSucceed(issued, succeeds)
      decreases remaining
    {
      var b: u32 := if remaining > MaxBatch then MaxBatch else remaining;
      var request := Batch(current, cursor, b);
      assert Plan(current, cursor, remaining) == [request] + Plan((current + b) % Word64, (cursor + b * SectorSize) % Word64, remaining - b);
      issued := issued + [request];
      if !succeeds(request) {
        assert issued == Plan(sector, buffer, count)[..|issued|];
        assert Plan(sector, buffer, count)[|issued| - 1] == request;
        return -1, issued;
      }
      remaining := remaining - b;
      current := (current + b) % Word64;
      cursor := (cursor + b * SectorSize) % Word64;
    }
    ret := 0;
  }

  /**
   avatar_virtio_block_read: refused before initialisation or for a null
   buffer or no sectors; one sector goes to the device directly, more in
   batches.
   */
  method Read(initialized: bool, sector: u64, buffer: u64, count: u32, succeeds: Batch -> bool)
    returns (ret: int, issued: seq<Batch>)
    ensures !initialized || buffer == 0 || count == 0 ==> ret == -1 && issued == []
    ensures ret == 0 <==> (initialized && buffer != 0 && count != 0 && AllSucceed(Plan(sector, buffer, count), succeeds))
    ensures ret == 0 ==> issued == Plan(sector, buffer, count)
    ensures |issued| <= |Plan(sector, buffer, count)| && issued == Plan(sector, buffer, count)[..|issued|]
  {
    if !initialized || buffer == 0 || count == 0 {
      return -1, [];
    }
    if count == 1 {
      var request := Batch(sector, buffer, 1);
      assert Plan(sector, buffer, 1) == [request];
      assert Plan(sector, buffer, 1)[0] == request;
      ret := if succeeds(request) then 0 else -1;
      issued := [request];
      return;
    }
    ret, issued := SendBatches(sector, buffer, count, succeeds);
  }

  /** avatar_virtio_block_write: the same checks, always in batches. */
  method Write(initialized: bool, sector: u64, buffer: u64, count: u32, succeeds: Batch -> bool)
    returns (ret: int, issued: seq<Batch>)
    ensures !initialized || buffer == 0 || count == 0 ==> ret == -1 && issued == []
    ensures ret == 0 <==> (initialized && buffer != 0 && count != 0 && AllSucceed(Plan(sector, buffer, count), succeeds))
    ensures ret == 0 ==> issued == Plan(sector, buffer, count)
    ensures |issued| <= |Plan(sector, buffer, count)| && issued == Plan(sector, buffer, count)[..|issued|]
  {
    if !initialized || buffer == 0 || count == 0 {
      return -1, [];
    }
    ret, issued := SendBatches(sector, buffer, count, succeeds);
  }
}
