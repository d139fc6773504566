/**
 The file layer of the FAT32 driver: the fixed pool of open-file handles,
 seeking, splitting a file path into its directory and its name, and the
 number of clusters a file must gain before a write past its end.
 */
module Fat32File {
  import opened Util
  import opened CTypes
  import opened Fat32Types

  const MaxOpenFiles := 32

  const SeekSet := 0
  const SeekCur := 1
  const SeekEnd := 2

  /** The cluster size seeking assumes when it recomputes the offset inside a cluster. */
  const SeekClusterSize := 4096

  /** An open-file handle; the debugging copy of the file name is left out. */
  datatype Handle = Handle(
    firstCluster: u32,
    currentCluster: u32,
    clusterOffset: u32,
    fileSize: u32,
    filePosition: u32,
    attr: u8,
    flags: u8,
    inUse: bool,
    modified: bool,
    dirCluster: u32,
    dirEntryIndex: u32)

  /** A handle whose bytes are all zero. */
  const Zeroed := Handle(0, 0, 0, 0, 0, 0, 0, false, false, 0, 0)

  /** The handle that allocation hands out: zero apart from its in-use mark. */
  const Opened := Zeroed.(inUse := true)

  /** The static handle table and the flag that records whether it was set up. */
  datatype Pool = Pool(initialized: bool, handles: seq<Handle>)

  predicate WellSized(p: Pool) {
    |p.handles| == MaxOpenFiles
  }

  /** Every handle not in use is all zero. */
  predicate Clean(p: Pool) {
    forall i :: 0 <= i < |p.handles| && !p.handles[i].inUse ==> p.handles[i] == Zeroed
  }

  /** The pool after the one-time set-up, which zeroes every handle. */
  function Initialized(p: Pool): (q: Pool)
    requires WellSized(p)
    ensures q.initialized && WellSized(q)
    ensures p.initialized ==> q == p
    ensures !p.initialized ==> Clean(q) && forall i :: 0 <= i < MaxOpenFiles ==> !q.handles[i].inUse
  {
    if p.initialized then p else Pool(true, seq(MaxOpenFiles, _ => Zeroed))
  }

  /** The index of the first handle not in use, or -1 when all are in use. */
  function FirstUnused(hs: seq<Handle>): (i: int)
    ensures -1 <= i < |hs|
    ensures i >= 0 ==> !hs[i].inUse && forall j :: 0 <= j < i ==> hs[j].inUse
    ensures i == -1 ==> forall j :: 0 <= j < |hs| ==> hs[j].inUse
  {
    if |hs| == 0 then -1
    else if !hs[0].inUse then 0
    else
      var k := FirstUnused(hs[1..]);
      if k < 0 then -1 else k + 1
  }

  /** The number of handles in use. */
  function OpenCount(hs: seq<Handle>): (n: nat)
    ensures n <= |hs|
  {
    if |hs| == 0 then 0 else (if hs[0].inUse then 1 else 0) + OpenCount(hs[1..])
  }

  datatype PoolResult = PoolResult(pool: Pool, status: FatError, index: nat)

  /**
   Allocating a handle sets the pool up if needed, then takes the first
   handle not in use, zeroes it and marks it in use; when all are in use it
   fails with too-many-open-files.
   */
  function HandleAlloc(p: Pool): (r: PoolResult)
    requires WellSized(p)
    ensures r.pool.initialized && WellSized(r.pool)
    ensures r.status == Ok || r.status == TooManyOpenFiles
    ensures r.status == TooManyOpenFiles <==>
      p.initialized && forall j :: 0 <= j < MaxOpenFiles ==> p.handles[j].inUse
    ensures r.status == TooManyOpenFiles ==> r.pool == p
    ensures r.status == Ok ==>
      && r.index < MaxOpenFiles
      && !Initialized(p).handles[r.index].inUse
      && (forall j :: 0 <= j < r.index ==> Initialized(p).handles[j].inUse)
      && r.pool.handles == Initialized(p).handles[r.index := Opened]
  {
    var q := Initialized(p);
    var i := FirstUnused(q.handles);
    if i < 0 then PoolResult(q, TooManyOpenFiles, 0)
    else PoolResult(q.(handles := q.handles[i := Opened]), Ok, i)
  }

  /** Freeing a handle not in use is an invalid parameter; otherwise the handle is zeroed. */
  function HandleFree(p: Pool, i: nat): (r: PoolResult)
    requires i < |p.handles|
    ensures r.index == i && |r.pool.handles| == |p.handles| && r.pool.initialized == p.initialized
    ensures r.status == InvalidParam <==> !p.handles[i].inUse
    ensures r.status == InvalidParam ==> r.pool == p
    ensures r.status == Ok ==> r.pool.handles == p.handles[i := Zeroed]
    ensures r.status == Ok || r.status == InvalidParam
  {
    if !p.handles[i].inUse then PoolResult(p, InvalidParam, i)
    else PoolResult(p.(handles := p.handles[i := Zeroed]), Ok, i)
  }

  /** Replacing one handle changes the open count by the difference of the two marks. */
  lemma {:induction false} OpenCountUpdate(hs: seq<Handle>, i: nat, h: Handle)
    requires i < |hs|
    ensures OpenCount(hs[i := h]) + (if hs[i].inUse then 1 else 0)
         == OpenCount(hs) + (if h.inUse then 1 else 0)
  {
    if i > 0 {
      assert hs[i := h][1..] == hs[1..][i - 1 := h];
      OpenCountUpdate(hs[1..], i - 1, h);
    } else {
      assert hs[i := h][1..] == hs[1..];
    }
  }

  /** All handles are open exactly when the open count is the pool size. */
  lemma {:induction false} OpenCountFull(hs: seq<Handle>)
    ensures OpenCount(hs) == |hs| <==> forall j :: 0 <= j < |hs| ==> hs[j].inUse
  {
    if |hs| > 0 {
      OpenCountFull(hs[1..]);
      if forall j :: 0 <= j < |hs| ==> hs[j].inUse {
        assert forall j :: 0 <= j < |hs[1..]| ==> hs[1..][j].inUse by {
          forall j | 0 <= j < |hs[1..]| ensures hs[1..][j].inUse {
            assert hs[1..][j] == hs[j + 1];
          }
        }
      }
      if OpenCount(hs) == |hs| {
        forall j | 0 <= j < |hs| ensures hs[j].inUse {
          if j > 0 {
            assert hs[j] == hs[1..][j - 1];
          }
        }
      }
    }
  }

  /** Allocation fails exactly when all 32 handles are open, and otherwise opens one more. */
  lemma AllocCounts(p: Pool)
    requires WellSized(p)
    ensures HandleAlloc(p).status == TooManyOpenFiles <==> OpenCount(Initialized(p).handles) == MaxOpenFiles
    ensures HandleAlloc(p).status == Ok ==>
      OpenCount(HandleAlloc(p).pool.handles) == OpenCount(Initialized(p).handles) + 1
  {
    var q := Initialized(p);
    OpenCountFull(q.handles);
    var r := HandleAlloc(p);
    if r.status == Ok {
      OpenCountUpdate(q.handles, r.index, Opened);
    }
  }

  /** Freeing an open handle closes exactly one. */
  lemma FreeCounts(p: Pool, i: nat)
    requires i < |p.handles|
    ensures HandleFree(p, i).status == Ok ==> OpenCount(HandleFree(p, i).pool.handles) + 1 == OpenCount(p.handles)
    ensures HandleFree(p, i).status != Ok ==> OpenCount(HandleFree(p, i).pool.handles) == OpenCount(p.handles)
  {
    OpenCountUpdate(p.handles, i, Zeroed);
  }

  /** Allocation and freeing keep every closed handle zeroed. */
  lemma CleanKept(p: Pool, i: nat)
    requires WellSized(p) && Clean(p) && i < MaxOpenFiles
    ensures Clean(HandleAlloc(p).pool)
    ensures Clean(HandleFree(p, i).pool)
  {
  }

  /** Freeing the handle just allocated gives back the set-up pool. */
  lemma AllocThenFree(p: Pool)
    requires WellSized(p) && Clean(p)
    requires HandleAlloc(p).status == Ok
    ensures HandleFree(HandleAlloc(p).pool, HandleAlloc(p).index) == PoolResult(Initialized(p), Ok, HandleAlloc(p).index)
  {
    var q := Initialized(p);
    var r := HandleAlloc(p);
    assert q.handles[r.index] == Zeroed;
    assert q.handles[r.index := Opened][r.index := Zeroed] == q.handles;
  }

  /** The position of a handle, or 0 for a handle not in use. */
  function Tell(h: Handle): (pos: u32)
    ensures h.inUse ==> pos == h.filePosition
    ensures !h.inUse ==> pos == 0
  {
    if h.inUse then h.filePosition else 0
  }

  /** The position a seek measures its offset from, for a known whence. */
  function SeekBase(h: Handle, whence: int): nat
  {
    if whence == SeekCur then h.filePosition
    else if whence == SeekEnd then h.fileSize
    else 0
  }

  /** The whence is known and the target is not before the start of the file. */
  predicate SeekAccepted(h: Handle, offset: i32, whence: int) {
    (whence == SeekSet || whence == SeekCur || whence == SeekEnd) && SeekBase(h, whence) + offset >= 0
  }

  /** The seek target in C's uint32 arithmetic, which wraps modulo 2^32. */
  function TargetAsWritten(h: Handle, offset: i32, whence: int): Option<u32>
  {
    if whence == SeekSet then
      if offset < 0 then None else Some(offset)
    else if whence == SeekCur then
      if offset < 0 && -(offset as int) > h.filePosition then None else Some((h.filePosition + offset) % Word32)
    else if whence == SeekEnd then
      if offset < 0 && -(offset as int) > h.fileSize then None else Some((h.fileSize + offset) % Word32)
    else None
  }

  /** The seek target as a mathematical integer. */
  function Target(h: Handle, offset: i32, whence: int): (t: Option<nat>)
    ensures t.Some? <==> SeekAccepted(h, offset, whence)
    ensures t.Some? ==> t.value == SeekBase(h, whence) + offset
  {
    if whence == SeekSet then
      if offset < 0 then None else Some(offset)
    else if whence == SeekCur then
      if offset < 0 && -(offset as int) > h.filePosition then None else Some(h.filePosition + offset)
    else if whence == SeekEnd then
      if offset < 0 && -(offset as int) > h.fileSize then None else Some(h.fileSize + offset)
    else None
  }

  /** Moving to a target: it is clamped to the file size and the cluster position restarts at the first cluster. */
  function MoveTo(h: Handle, target: nat): (g: Handle)
  {
    var pos := if target > h.fileSize then h.fileSize else target;
    h.(filePosition := pos,
       currentCluster := h.firstCluster,
       clusterOffset := if pos == 0 || h.firstCluster < 2 then 0 else pos % SeekClusterSize)
  }

  /** The moved handle: clamped position, first cluster, offset within a 4096-byte cluster; nothing else changes. */
  predicate MovedTo(h: Handle, target: nat, g: Handle) {
    && g.filePosition == Min(target, h.fileSize)
    && g.clusterOffset == (if h.firstCluster < 2 then 0 else g.filePosition % SeekClusterSize)
    && g == h.(filePosition := g.filePosition, currentCluster := h.firstCluster, clusterOffset := g.clusterOffset)
  }

  lemma MoveToMoves(h: Handle, target: nat)
    ensures MovedTo(h, target, MoveTo(h, target))
  {
  }

  /** Seeking as written, where a forward target past 4 GiB wraps around. */
  function SeekAsWritten(h: Handle, offset: i32, whence: int): (r: Res<Handle>)
    ensures r.Failure? ==> r.error == InvalidParam
    ensures r.Success? <==> h.inUse && SeekAccepted(h, offset, whence)
  {
    if !h.inUse then Failure(InvalidParam)
    else match TargetAsWritten(h, offset, whence)
      case None => Failure(InvalidParam)
      case Some(t) => Success(MoveTo(h, t))
  }

  /**
   Seeking: an unused handle, an unknown whence, a negative absolute offset
   or a relative offset reaching before the start is an invalid parameter;
   otherwise the position becomes the target clamped to the file size.
   */
  function Seek(h: Handle, offset: i32, whence: int): (r: Res<Handle>)
    ensures r.Failure? ==> r.error == InvalidParam
    ensures r.Success? <==> h.inUse && SeekAccepted(h, offset, whence)
    ensures r.Success? ==> MovedTo(h, SeekBase(h, whence) + offset, r.value)
    ensures r.Success? ==> r.value.filePosition <= h.fileSize
  {
    if !h.inUse then Failure(InvalidParam)
    else match Target(h, offset, whence)
      case None => Failure(InvalidParam)
      case Some(t) =>
        MoveToMoves(h, t);
        Success(MoveTo(h, t))
  }

  /** Seeking zero bytes from the current position keeps a position inside the file. */
  lemma SeekNowhere(h: Handle)
    requires h.inUse && h.filePosition <= h.fileSize
    ensures Seek(h, 0, SeekCur).Success? && Seek(h, 0, SeekCur).value.filePosition == h.filePosition
  {
  }

  /** Seeking to the end puts the position at the file size. */
  lemma SeekToEnd(h: Handle)
    requires h.inUse
    ensures Seek(h, 0, SeekEnd).Success? && Seek(h, 0, SeekEnd).value.filePosition == h.fileSize
  {
  }

  /** An absolute seek followed by a forward relative one is one absolute seek, inside the file. */
  lemma SeekComposes(h: Handle, a: i32, b: i32)
    requires h.inUse && 0 <= a <= h.fileSize && 0 <= b && a + b < 0x8000_0000
    ensures Seek(h, a, SeekSet).Success?
    ensures Seek(Seek(h, a, SeekSet).value, b, SeekCur) == Seek(h, a + b, SeekSet)
  {
  }

  /** Where the target fits in 32 bits, the code as written and the corrected seek agree. */
  lemma SeekAgreesWithoutWrap(h: Handle, offset: i32, whence: int)
    requires SeekBase(h, whence) + offset < Word32
    ensures SeekAsWritten(h, offset, whence) == Seek(h, offset, whence)
  {
  }

  /** A forward relative seek near the 4 GiB limit lands before the current position. */
  lemma SeekCurWrapsBackward()
    ensures var h := Opened.(fileSize := 0xFFFF_FFFF, filePosition := 0xF000_0000);
      && SeekAsWritten(h, 0x2000_0000, SeekCur) == Success(MoveTo(h, 0x1000_0000))
      && SeekAsWritten(h, 0x2000_0000, SeekCur).value.filePosition < h.filePosition
      && Seek(h, 0x2000_0000, SeekCur).value.filePosition == h.fileSize
  {
  }

  const Slash: Char8 := '/'
  const RootDir: seq<Char8> := [Slash]

  /** A path split into the directory that holds the file and the file's name. */
  datatype PathParts = PathParts(dir: seq<Char8>, name: seq<Char8>)

  /** Splitting at the last '/': none or a leading one puts the file in the root directory. */
  function SplitAtLastSlash(path: seq<Char8>): (p: PathParts)
  {
    var k := LastIndex(path, Slash);
    if k < 0 then PathParts(RootDir, path)
    else if k == 0 then PathParts(RootDir, path[1..])
    else PathParts(path[..k], path[k + 1..])
  }

  /** The three shapes a split path can come from. */
  predicate SplitFrom(path: seq<Char8>, p: PathParts) {
    || (Slash !in path && p.dir == RootDir && p.name == path)
    || (p.dir == RootDir && path == [Slash] + p.name)
    || (|p.dir| > 0 && path == p.dir + [Slash] + p.name)
  }

  /** A C string of this length with its terminator fits the caller's file-name buffer. */
  predicate FitsNameBuffer(name: seq<Char8>) {
    |name| + 1 <= MaxFilename
  }

  /** A split path comes from one of the three shapes and its name holds no '/'. */
  lemma SplitShape(path: seq<Char8>)
    ensures SplitFrom(path, SplitAtLastSlash(path)) && Slash !in SplitAtLastSlash(path).name
  {
    var parts := SplitAtLastSlash(path);
    var k := LastIndex(path, Slash);
    if k > 0 {
      SplitAround(path, k);
    } else if k == 0 {
      assert path == [Slash] + path[1..];
    }
    if k >= 0 {
      forall j | 0 <= j < |parts.name| ensures parts.name[j] != Slash {
        assert parts.name[j] == path[k + 1 + j];
      }
    }
  }

  /** Path parsing as written, which accepts file names too long for the caller's buffer. */
  function ParsePathAsWritten(path: seq<Char8>): (r: Res<PathParts>)
    ensures r.Failure? && r.error == InvalidParam <==> |path| == 0 || |path| >= MaxPath
    ensures r.Failure? ==> r.error == InvalidParam || r.error == InvalidName
    ensures r.Success? ==> SplitFrom(path, r.value) && |r.value.name| > 0 && Slash !in r.value.name
  {
    if |path| == 0 || |path| >= MaxPath then Failure(InvalidParam)
    else
      var parts := SplitAtLastSlash(path);
      SplitShape(path);
      if |parts.name| == 0 then Failure(InvalidName) else Success(parts)
  }

  /**
   Path parsing: an empty path or one of 1024 characters or more is an
   invalid parameter; an empty file name, or one that does not fit the
   255-byte name buffer with its terminator, is an invalid name.
   */
  function ParsePath(path: seq<Char8>): (r: Res<PathParts>)
    ensures r.Failure? && r.error == InvalidParam <==> |path| == 0 || |path| >= MaxPath
    ensures r.Failure? ==> r.error == InvalidParam || r.error == InvalidName
    ensures r.Success? ==>
      SplitFrom(path, r.value) && |r.value.name| > 0 && Slash !in r.value.name && FitsNameBuffer(r.value.name)
  {
    var r := ParsePathAsWritten(path);
    if r.Success? && !FitsNameBuffer(r.value.name) then Failure(InvalidName) else r
  }

  /** The last '/' of a path ending in a '/' and a name without one is that '/'. */
  lemma LastSlashBeforeName(d: seq<Char8>, n: seq<Char8>)
    requires Slash !in n
    ensures LastIndex(d + [Slash] + n, Slash) == |d|
  {
    var s := d + [Slash] + n;
    assert s[|d|] == Slash;
  }

  /** A bare file name lies in the root directory. */
  lemma ParseBareName(n: seq<Char8>)
    requires Slash !in n && 0 < |n| && FitsNameBuffer(n)
    ensures ParsePath(n) == Success(PathParts(RootDir, n))
  {
  }

  /** A name after a leading '/' lies in the root directory. */
  lemma ParseRootChild(n: seq<Char8>)
    requires Slash !in n && 0 < |n| && FitsNameBuffer(n)
    ensures ParsePath([Slash] + n) == Success(PathParts(RootDir, n))
  {
    LastSlashBeforeName([], n);
    assert [] + [Slash] + n == [Slash] + n;
    assert ([Slash] + n)[1..] == n;
  }

  /** Joining a directory and a name with '/' and parsing the result gives both back. */
  lemma ParseJoined(d: seq<Char8>, n: seq<Char8>)
    requires 0 < |d| && Slash !in n && 0 < |n| && FitsNameBuffer(n)
    requires |d| + 1 + |n| < MaxPath
    ensures ParsePath(d + [Slash] + n) == Success(PathParts(d, n))
  {
    var s := d + [Slash] + n;
    LastSlashBeforeName(d, n);
    assert s[..|d|] == d;
    assert s[|d| + 1..] == n;
  }

  /** A 255-character name is accepted as written, though with its terminator it needs 256 bytes. */
  lemma LongNameOverflowsBuffer()
    ensures var path := seq(MaxFilename, _ => 'a' as Char8);
      && ParsePathAsWritten(path).Success?
      && !FitsNameBuffer(ParsePathAsWritten(path).value.name)
      && ParsePath(path) == Failure(InvalidName)
  {
    var path := seq(MaxFilename, _ => 'a' as Char8);
    assert Slash !in path;
    ParseBareName(path[..1]);
  }

  /** Whole clusters needed to hold a number of bytes. */
  function CeilDiv(a: nat, b: nat): nat
    requires b > 0
  {
    (a + b - 1) / b
  }

  /** The rounded-up division computed in uint32, where the numerator can wrap. */
  function CeilDiv32(a: u32, b: u32): nat
    requires b > 0
  {
    ((a + b - 1) % Word32) / b
  }

  lemma CeilDivBounds(a: nat, b: nat)
    requires b > 0
    ensures CeilDiv(a, b) * b >= a
    ensures a > 0 ==> (CeilDiv(a, b) - 1) * b < a
    ensures a == 0 ==> CeilDiv(a, b) == 0
  {
    var q := (a + b - 1) / b;
    var r := (a + b - 1) % b;
    assert a + b - 1 == q * b + r;
    assert q * b - b == (q - 1) * b;
  }

  lemma CeilDivMono(a: nat, c: nat, b: nat)
    requires b > 0 && a <= c
    ensures CeilDiv(a, b) <= CeilDiv(c, b)
  {
    CeilDivBounds(a, b);
    CeilDivBounds(c, b);
    if CeilDiv(a, b) > CeilDiv(c, b) {
      MulMono(CeilDiv(c, b), CeilDiv(a, b) - 1, b);
    }
  }

  /** What growing a file to a required size does to its cluster chain. */
  datatype Growth =
    | Unchanged
    | NewChain(count: nat)      // the file had no cluster: allocate a whole chain
    | Append(count: nat)        // add clusters after the last one

  function GrowthFrom(size: nat, required: nat, bpc: nat, first: u32, cur: nat, req: nat): Growth
  {
    if required <= size || req <= cur then Unchanged
    else if first < 2 then NewChain(req)
    else Append(req - cur)
  }

  /** Growth as written, with both rounded-up divisions in uint32. */
  function ExtendPlanAsWritten(size: u32, required: u32, bpc: u32, first: u32): Growth
    requires bpc > 0
  {
    GrowthFrom(size, required, bpc, first, if size > 0 then CeilDiv32(size, bpc) else 0, CeilDiv32(required, bpc))
  }

  /** The clusters a file holds after the growth, counting those it already had. */
  function ClustersAfter(size: nat, bpc: nat, g: Growth): nat
    requires bpc > 0
  {
    match g
    case Unchanged => CeilDiv(size, bpc)
    case NewChain(n) => n
    case Append(n) => CeilDiv(size, bpc) + n
  }

  lemma GrowthCovers(size: nat, required: nat, bpc: nat, first: u32)
    requires bpc > 0
    ensures var g := GrowthFrom(size, required, bpc, first, CeilDiv(size, bpc), CeilDiv(required, bpc));
      && (g.Append? ==> g.count > 0)
      && ClustersAfter(size, bpc, g) * bpc >= required
      && (g != Unchanged ==> (ClustersAfter(size, bpc, g) - 1) * bpc < required)
  {
    CeilDivBounds(size, bpc);
    CeilDivBounds(required, bpc);
    if required > size {
      CeilDivMono(size, required, bpc);
    }
  }

  /**
   Growth: nothing when the required size does not exceed the file size or
   the clusters already held suffice; otherwise a chain of the required
   count for a file without clusters, or the missing clusters appended.
   */
  function ExtendPlan(size: u32, required: u32, bpc: u32, first: u32): (g: Growth)
    requires bpc > 0
    ensures required <= size ==> g == Unchanged
    ensures g.NewChain? ==> first < 2
    ensures g.Append? ==> first >= 2 && g.count > 0
    ensures ClustersAfter(size, bpc, g) * bpc >= required
    ensures g != Unchanged ==> (ClustersAfter(size, bpc, g) - 1) * bpc < required
  {
    GrowthCovers(size, required, bpc, first);
    GrowthFrom(size, required, bpc, first, CeilDiv(size, bpc), CeilDiv(required, bpc))
  }

  /** Growing twice to the same size does nothing the second time. */
  lemma ExtendNoopAtSize(size: u32, bpc: u32, first: u32)
    requires bpc > 0
    ensures ExtendPlan(size, size, bpc, first) == Unchanged
  {
  }

  lemma CeilDiv32Agrees(a: u32, b: u32)
    requires b > 0 && a + b - 1 < Word32
    ensures CeilDiv32(a, b) == CeilDiv(a, b)
  {
  }

  /** Where neither rounded-up division wraps, the code as written and the corrected plan agree. */
  lemma ExtendAgreesWithoutWrap(size: u32, required: u32, bpc: u32, first: u32)
    requires bpc > 0 && required + bpc - 1 < Word32 && size + bpc - 1 < Word32
    ensures ExtendPlanAsWritten(size, required, bpc, first) == ExtendPlan(size, required, bpc, first)
  {
    CeilDiv32Agrees(required, bpc);
    CeilDiv32Agrees(size, bpc);
    CeilDivBounds(size, bpc);
  }

  /** Growing an empty file to just under 4 GiB allocates nothing as written. */
  lemma ExtendWrapsNearFourGiB()
    ensures ExtendPlanAsWritten(0, 0xFFFF_F001, 4096, 0) == Unchanged
    ensures ExtendPlan(0, 0xFFFF_F001, 4096, 0) == NewChain(0x10_0000)
  {
  }
}
