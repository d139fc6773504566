/**
 The cluster cache of the FAT32 driver: sixteen blocks, each holding one
 cluster, found by cluster number, replaced first-free and then
 least-recently-used, written back on flush. The disk behind the cache is
 a map from cluster number to contents; a cluster missing from the map
 stands for a transfer the disk refuses.
 */
module Fat32Cache {
  import opened Util
  import opened CTypes
  import opened Fat32Types

  const CacheSize := 16
  const CacheBlockSize := 4096

  datatype Status = Clean | Dirty | Free

  datatype Block = Block(cluster: u32, data: seq<u8>, status: Status, accessTime: u32, inUse: bool)

  datatype Cache = Cache(blocks: seq<Block>, counter: u32, initialized: bool)

  /** Cluster contents on disk, by cluster number. */
  type Disk = map<u32, seq<u8>>

  /** A block as set up by initialisation and left by invalidation. */
  const FreeBlock := Block(0, [], Free, 0, false)

  predicate WellSized(c: Cache) {
    |c.blocks| == CacheSize
  }

  /**
   The invariant of an initialised cache: a block is in use exactly when it
   is not free, and no two blocks in use hold the same cluster.
   */
  predicate Coherent(c: Cache) {
    && WellSized(c)
    && (forall i :: 0 <= i < CacheSize ==> (c.blocks[i].inUse <==> c.blocks[i].status != Free))
    && (forall i, j :: 0 <= i < j < CacheSize && c.blocks[i].inUse && c.blocks[j].inUse ==>
          c.blocks[i].cluster != c.blocks[j].cluster)
  }

  /** Initialisation: every block free, the access counter at zero. */
  function Init(c: Cache): (d: Cache)
    ensures d.initialized
    ensures c.initialized ==> d == c
    ensures !c.initialized ==> Coherent(d) && d.counter == 0 && forall i :: 0 <= i < CacheSize ==> d.blocks[i].status == Free
  {
    if c.initialized then c
    else
      var bs := seq(CacheSize, _ => FreeBlock);
      assert forall i :: 0 <= i < CacheSize ==> bs[i] == FreeBlock;
      Cache(bs, 0, true)
  }

  /** The access counter after one access; it wraps like the uint32 it is. */
  function Tick(c: Cache): u32 {
    (c.counter + 1) % Word32
  }

  // ---------------------------------------------------------------------
  // Finding and replacing blocks
  // ---------------------------------------------------------------------

  /** The first block in use that holds a cluster. */
  function FindBlock(bs: seq<Block>, cluster: u32): (r: Option<nat>)
    ensures r.Some? ==> r.value < |bs| && bs[r.value].inUse && bs[r.value].cluster == cluster
    ensures r.Some? ==> forall j :: 0 <= j < r.value ==> !(bs[j].inUse && bs[j].cluster == cluster)
    ensures r.None? ==> forall j :: 0 <= j < |bs| ==> !(bs[j].inUse && bs[j].cluster == cluster)
  {
    if |bs| == 0 then None
    else if bs[0].inUse && bs[0].cluster == cluster then Some(0)
    else match FindBlock(bs[1..], cluster)
      case None => None
      case Some(k) => Some(k + 1)
  }

  /** The first free block. */
  function FirstFree(bs: seq<Block>): (r: Option<nat>)
    ensures r.Some? ==> r.value < |bs| && bs[r.value].status == Free
    ensures r.Some? ==> forall j :: 0 <= j < r.value ==> bs[j].status != Free
    ensures r.None? ==> forall j :: 0 <= j < |bs| ==> bs[j].status != Free
  {
    if |bs| == 0 then None
    else if bs[0].status == Free then Some(0)
    else match FirstFree(bs[1..])
      case None => None
      case Some(k) => Some(k + 1)
  }

  /** The first block with the smallest access time. */
  function Oldest(bs: seq<Block>): (i: nat)
    requires |bs| > 0
    ensures i < |bs|
    ensures forall j :: 0 <= j < |bs| ==> bs[i].accessTime <= bs[j].accessTime
    ensures forall j :: 0 <= j < i ==> bs[i].accessTime < bs[j].accessTime
  {
    if |bs| == 1 then 0
    else
      var k := Oldest(bs[..|bs| - 1]);
      if bs[|bs| - 1].accessTime < bs[k].accessTime then |bs| - 1 else k
  }

  datatype Slot = Slot(blocks: seq<Block>, index: nat)

  /**
   Replacement: the first free block if there is one, otherwise the least
   recently accessed block, which is reset to free whatever it held.
   */
  function AllocBlock(bs: seq<Block>): (r: Slot)
    requires |bs| > 0
    ensures r.index < |bs| && |r.blocks| == |bs|
    ensures FirstFree(bs).Some? ==> r.index == FirstFree(bs).value && r.blocks == bs
    ensures FirstFree(bs).None? ==>
      && (forall j :: 0 <= j < |bs| ==> bs[r.index].accessTime <= bs[j].accessTime)
      && (forall j :: 0 <= j < r.index ==> bs[r.index].accessTime < bs[j].accessTime)
      && r.blocks == bs[r.index := bs[r.index].(status := Free, cluster := 0, inUse := false)]
    ensures r.blocks[r.index].status == Free
  {
    match FirstFree(bs)
    case Some(i) => Slot(bs, i)
    case None =>
      var i := Oldest(bs);
      Slot(bs[i := bs[i].(status := Free, cluster := 0, inUse := false)], i)
  }

  /** A freshly replaced block no longer holds a cluster, so the cache stays coherent around it. */
  lemma AllocKeepsCoherent(c: Cache)
    requires Coherent(c)
    ensures Coherent(c.(blocks := AllocBlock(c.blocks).blocks))
  {
  }

  /** Replacing a dirty block discards its unwritten data: no block holds its cluster afterwards. */
  lemma EvictionDropsDirtyBlock(c: Cache)
    requires Coherent(c) && FirstFree(c.blocks).None?
    requires c.blocks[Oldest(c.blocks)].status == Dirty
    ensures FindBlock(AllocBlock(c.blocks).blocks, c.blocks[Oldest(c.blocks)].cluster).None?
  {
    var bs := c.blocks;
    var i := Oldest(bs);
    var after := AllocBlock(bs).blocks;
    forall j | 0 <= j < |after| ensures !(after[j].inUse && after[j].cluster == bs[i].cluster) {
      if j < i {
        assert after[j] == bs[j];
      } else if j > i {
        assert after[j] == bs[j];
      }
    }
  }

  // ---------------------------------------------------------------------
  // Reading and writing clusters
  // ---------------------------------------------------------------------

  datatype ReadOutcome = ReadOutcome(cache: Cache, result: Res<seq<u8>>)

  /**
   read_cluster: a hit returns the cached data and refreshes the block's
   access time; a miss takes a block, loads the cluster into it clean and in
   use, and returns it; a failed load leaves the block free.
   */
  function ReadCluster(c: Cache, d: Disk, cluster: u32): (r: ReadOutcome)
    requires WellSized(c)
    ensures WellSized(r.cache)
    ensures !c.initialized ==> r == ReadOutcome(c, Failure(DiskError))
    ensures c.initialized && FindBlock(c.blocks, cluster).Some? ==>
      r.result == Success(c.blocks[FindBlock(c.blocks, cluster).value].data)
    ensures c.initialized && FindBlock(c.blocks, cluster).None? ==>
      (r.result.Success? <==> cluster in d) && (cluster in d ==> r.result.value == d[cluster])
    ensures r.result.Success? ==>
      exists i :: 0 <= i < CacheSize && r.cache.blocks[i].inUse && r.cache.blocks[i].cluster == cluster
        && r.cache.blocks[i].accessTime == Tick(c) && r.cache.blocks[i].data == r.result.value
  {
    if !c.initialized then ReadOutcome(c, Failure(DiskError))
    else match FindBlock(c.blocks, cluster)
      case Some(i) =>
        var b := c.blocks[i].(accessTime := Tick(c));
        assert c.blocks[i := b][i] == b;
        ReadOutcome(Cache(c.blocks[i := b], Tick(c), true), Success(b.data))
      case None =>
        var s := AllocBlock(c.blocks);
        if cluster !in d then ReadOutcome(c.(blocks := s.blocks), Failure(DiskError))
        else
          var b := Block(cluster, d[cluster], Clean, Tick(c), true);
          assert s.blocks[s.index := b][s.index] == b;
          ReadOutcome(Cache(s.blocks[s.index := b], Tick(c), true), Success(d[cluster]))
  }

  datatype WriteOutcome = WriteOutcome(cache: Cache, status: FatError)

  /**
   write_cluster: the cluster's block, or a newly taken one, receives the
   data, becomes dirty and in use, and gets the incremented access counter
   as its access time.
   */
  function WriteCluster(c: Cache, cluster: u32, data: seq<u8>): (r: WriteOutcome)
    requires WellSized(c)
    ensures WellSized(r.cache)
    ensures r.status == Ok <==> c.initialized
    ensures !c.initialized ==> r.cache == c
    ensures r.status == Ok ==> r.cache.counter == Tick(c) && r.cache.initialized
    ensures r.status == Ok ==>
      exists i :: 0 <= i < CacheSize && r.cache.blocks[i] == Block(cluster, data, Dirty, Tick(c), true)
  {
    if !c.initialized then WriteOutcome(c, DiskError)
    else
      var s := match FindBlock(c.blocks, cluster)
        case Some(i) => Slot(c.blocks, i)
        case None => AllocBlock(c.blocks);
      var i, bs := s.index, s.blocks;
      var b := Block(cluster, data, Dirty, Tick(c), true);
      assert bs[i := b][i] == b;
      WriteOutcome(Cache(bs[i := b], Tick(c), true), Ok)
  }

  /** Reading and writing keep the cache coherent. */
  lemma ReadWriteKeepCoherent(c: Cache, d: Disk, cluster: u32, data: seq<u8>)
    requires Coherent(c)
    ensures Coherent(ReadCluster(c, d, cluster).cache)
    ensures Coherent(WriteCluster(c, cluster, data).cache)
  {
    if c.initialized && FindBlock(c.blocks, cluster).None? {
      AllocKeepsCoherent(c);
    }
  }

  /** In a coherent cache, the block holding a cluster is the only one that does. */
  lemma FindUnique(c: Cache, cluster: u32, i: nat)
    requires Coherent(c) && i < CacheSize && c.blocks[i].inUse && c.blocks[i].cluster == cluster
    ensures FindBlock(c.blocks, cluster) == Some(i)
  {
  }

  /** Reading a cluster just written returns the written data, whatever the disk holds. */
  lemma ReadAfterWrite(c: Cache, d: Disk, cluster: u32, data: seq<u8>)
    requires Coherent(c) && c.initialized
    ensures ReadCluster(WriteCluster(c, cluster, data).cache, d, cluster).result == Success(data)
  {
    var w := WriteCluster(c, cluster, data).cache;
    ReadWriteKeepCoherent(c, d, cluster, data);
    var i :| 0 <= i < CacheSize && w.blocks[i] == Block(cluster, data, Dirty, Tick(c), true);
    FindUnique(w, cluster, i);
  }

  // ---------------------------------------------------------------------
  // Write-back and invalidation
  // ---------------------------------------------------------------------

  /** A block flush writes back: in use and dirty. */
  predicate NeedsWriteBack(b: Block) {
    b.inUse && b.status == Dirty
  }

  /** A block's state after a flush that could write its cluster when the disk holds it. */
  function Flushed(b: Block, d: Disk): Block {
    if NeedsWriteBack(b) && b.cluster in d then b.(status := Clean) else b
  }

  /**
   flush: every in-use dirty block is written back and becomes clean; a
   block whose write fails stays dirty, the walk goes on, and the status is
   that of the failure.
   */
  method Flush(c: Cache, d: Disk) returns (c': Cache, d': Disk, status: FatError)
    requires Coherent(c)
    ensures status == Ok || status == DiskError
    ensures !c.initialized ==> c' == c && d' == d && status == Ok
    ensures c.initialized ==> c' == c.(blocks := c'.blocks) && |c'.blocks| == CacheSize
    ensures c.initialized ==> forall i :: 0 <= i < CacheSize ==> c'.blocks[i] == Flushed(c.blocks[i], d)
    ensures d'.Keys == d.Keys
    ensures forall i :: 0 <= i < CacheSize && NeedsWriteBack(c.blocks[i]) && c.initialized && c.blocks[i].cluster in d ==>
      d'[c.blocks[i].cluster] == c.blocks[i].data
    ensures forall k :: k in d && (forall i :: 0 <= i < CacheSize ==> !(c.initialized && NeedsWriteBack(c.blocks[i]) && c.blocks[i].cluster == k)) ==>
      d'[k] == d[k]
    ensures status == Ok <==>
      forall i :: 0 <= i < CacheSize && c.initialized && NeedsWriteBack(c.blocks[i]) ==> c.blocks[i].cluster in d
  {
    c', d', status := c, d, Ok;
    if !c.initialized {
      return;
    }
    var i := 0;
    while i < CacheSize
      invariant 0 <= i <= CacheSize && |c'.blocks| == CacheSize && c' == c.(blocks := c'.blocks)
      invariant forall j :: 0 <= j < i ==> c'.blocks[j] == Flushed(c.blocks[j], d)
      invariant forall j :: i <= j < CacheSize ==> c'.blocks[j] == c.blocks[j]
      invariant d'.Keys == d.Keys
      invariant forall j :: 0 <= j < i && NeedsWriteBack(c.blocks[j]) && c.blocks[j].cluster in d ==>
        d'[c.blocks[j].cluster] == c.blocks[j].data
      invariant forall k :: k in d && (forall j :: 0 <= j < i ==> !(NeedsWriteBack(c.blocks[j]) && c.blocks[j].cluster == k)) ==>
        d'[k] == d[k]
      invariant status == Ok || status == DiskError
      invariant status == Ok <==> forall j :: 0 <= j < i && NeedsWriteBack(c.blocks[j]) ==> c.blocks[j].cluster in d
    {
      var b := c'.blocks[i];
      if NeedsWriteBack(b) {
        if b.cluster in d' {
          d' := d'[b.cluster := b.data];
          c' := c'.(blocks := c'.blocks[i := b.(status := Clean)]);
        } else {
          status := DiskError;
        }
      }
      i := i + 1;
    }
  }

  /** flush_cluster: writes back the cluster's block when it is dirty. */
  function FlushCluster(c: Cache, d: Disk, cluster: u32): (r: (Cache, Disk, FatError))
    requires WellSized(c)
    ensures r.2 == Ok || r.2 == DiskError
    ensures |r.0.blocks| == |c.blocks|
    ensures r.2 == DiskError <==>
      c.initialized && FindBlock(c.blocks, cluster).Some? && c.blocks[FindBlock(c.blocks, cluster).value].status == Dirty
      && cluster !in d
    ensures r.2 == Ok && c.initialized && FindBlock(c.blocks, cluster).Some? ==>
      r.0.blocks[FindBlock(c.blocks, cluster).value].status != Dirty
    ensures r.2 == Ok && c.initialized && FindBlock(c.blocks, cluster).Some? && c.blocks[FindBlock(c.blocks, cluster).value].status == Dirty ==>
      r.1 == d[cluster := c.blocks[FindBlock(c.blocks, cluster).value].data]
    ensures r.2 == DiskError ==> r.0 == c && r.1 == d
  {
    if !c.initialized then (c, d, Ok)
    else match FindBlock(c.blocks, cluster)
      case None => (c, d, Ok)
      case Some(i) =>
        var b := c.blocks[i];
        if b.status != Dirty then (c, d, Ok)
        else if cluster !in d then (c, d, DiskError)
        else (c.(blocks := c.blocks[i := b.(status := Clean)]), d[cluster := b.data], Ok)
  }

  /** invalidate_cluster: the cluster's block becomes free, not in use, and holds cluster 0. */
  function Invalidate(c: Cache, cluster: u32): (r: Cache)
    requires WellSized(c)
    ensures WellSized(r) && r.counter == c.counter && r.initialized == c.initialized
    ensures !c.initialized || FindBlock(c.blocks, cluster).None? ==> r == c
    ensures c.initialized && FindBlock(c.blocks, cluster).Some? ==>
      var i := FindBlock(c.blocks, cluster).value;
      && r.blocks[i].status == Free && !r.blocks[i].inUse && r.blocks[i].cluster == 0
      && (forall j :: 0 <= j < CacheSize && j != i ==> r.blocks[j] == c.blocks[j])
  {
    if !c.initialized then c
    else match FindBlock(c.blocks, cluster)
      case None => c
      case Some(i) => c.(blocks := c.blocks[i := c.blocks[i].(status := Free, inUse := false, cluster := 0)])
  }

  /** After invalidation no block holds the cluster, and the cache stays coherent. */
  lemma InvalidateForgets(c: Cache, cluster: u32)
    requires Coherent(c) && c.initialized
    ensures Coherent(Invalidate(c, cluster))
    ensures FindBlock(Invalidate(c, cluster).blocks, cluster).None?
  {
    var r := Invalidate(c, cluster);
    if FindBlock(c.blocks, cluster).Some? {
      var i := FindBlock(c.blocks, cluster).value;
      assert forall j :: 0 <= j < CacheSize ==> !(r.blocks[j].inUse && r.blocks[j].cluster == cluster);
    }
  }

  // ---------------------------------------------------------------------
  // Statistics
  // ---------------------------------------------------------------------

  function UsedCount(bs: seq<Block>): (n: nat)
    ensures n <= |bs|
  {
    if |bs| == 0 then 0 else (if bs[0].inUse then 1 else 0) + UsedCount(bs[1..])
  }

  function DirtyCount(bs: seq<Block>): (n: nat)
    ensures n <= UsedCount(bs)
  {
    if |bs| == 0 then 0 else (if NeedsWriteBack(bs[0]) then 1 else 0) + DirtyCount(bs[1..])
  }

  lemma {:induction false} CountsSnoc(bs: seq<Block>, b: Block)
    ensures UsedCount(bs + [b]) == UsedCount(bs) + (if b.inUse then 1 else 0)
    ensures DirtyCount(bs + [b]) == DirtyCount(bs) + (if NeedsWriteBack(b) then 1 else 0)
  {
    if |bs| > 0 {
      assert (bs + [b])[1..] == bs[1..] + [b];
      CountsSnoc(bs[1..], b);
    }
  }

  datatype Stats = Stats(total: nat, used: nat, dirty: nat)

  /** get_stats: the block count, the blocks in use, and the dirty ones among them. */
  method GetStats(c: Cache) returns (r: Res<Stats>)
    requires WellSized(c)
    ensures r.Failure? <==> !c.initialized
    ensures r.Failure? ==> r.error == DiskError
    ensures r.Success? ==> r.value.total == CacheSize
    ensures r.Success? ==> r.value.dirty <= r.value.used <= CacheSize
    ensures r.Success? ==> r.value.used == UsedCount(c.blocks) && r.value.dirty == DirtyCount(c.blocks)
  {
    if !c.initialized {
      return Failure(DiskError);
    }
    var used, dirty := 0, 0;
    var i := 0;
    while i < CacheSize
      invariant 0 <= i <= CacheSize
      invariant used == UsedCount(c.blocks[..i]) && dirty == DirtyCount(c.blocks[..i])
    {
      CountsSnoc(c.blocks[..i], c.blocks[i]);
      assert c.blocks[..i + 1] == c.blocks[..i] + [c.blocks[i]];
      if c.blocks[i].inUse {
        used := used + 1;
        if c.blocks[i].status == Dirty {
          dirty := dirty + 1;
        }
      }
      i := i + 1;
    }
    assert c.blocks[..CacheSize] == c.blocks;
    return Success(Stats(CacheSize, used, dirty));
  }

  /** No block needs writing back exactly when the dirty count is zero. */
  lemma {:induction false} NoDirtyIffZero(bs: seq<Block>)
    ensures DirtyCount(bs) == 0 <==> forall i :: 0 <= i < |bs| ==> !NeedsWriteBack(bs[i])
  {
    if |bs| > 0 {
      NoDirtyIffZero(bs[1..]);
      assert forall i :: 1 <= i < |bs| ==> bs[i] == bs[1..][i - 1];
    }
  }

  /** A flush against a disk that holds every dirty cluster leaves no dirty block. */
  lemma FlushCleansAll(c: Cache, d: Disk)
    requires Coherent(c) && c.initialized
    requires forall i :: 0 <= i < CacheSize && NeedsWriteBack(c.blocks[i]) ==> c.blocks[i].cluster in d
    ensures DirtyCount(seq(CacheSize, i requires 0 <= i < CacheSize => Flushed(c.blocks[i], d))) == 0
  {
    NoDirtyIffZero(seq(CacheSize, i requires 0 <= i < CacheSize => Flushed(c.blocks[i], d)));
  }
}
