/**
 The file allocation table: entry classification, the circular free-cluster
 search, freeing, and the walks along a cluster chain. The table is a map
 from cluster number to the raw 32-bit entry; the sector reads and writes
 behind it, and its copies in the second FAT, are not modelled.
 */
module Fat32Fat {
  import opened Util
  import opened CTypes
  import opened Fat32Types

  const FreeEntry := 0x0000_0000
  const BadCluster := 0x0FFF_FFF7
  const EocMin := 0x0FFF_FFF8
  const EocMax := 0x0FFF_FFFF
  /** Bit 28 and up of an entry are reserved and kept on every write. */
  const LowBits := 0x1000_0000
  /** free_cluster_count when the count is unknown. */
  const UnknownCount: u32 := 0xFFFF_FFFF

  // ---------------------------------------------------------------------
  // Entry classification and addressing
  // ---------------------------------------------------------------------

  predicate IsFree(e: nat) { e == FreeEntry }
  predicate IsEndOfChain(e: nat) { EocMin <= e <= EocMax }
  predicate IsBad(e: nat) { e == BadCluster }

  /** Data clusters are numbered from 2. */
  predicate IsValidCluster(totalClusters: nat, c: nat) {
    2 <= c < totalClusters + 2
  }

  /** A cluster value is at most one of free, bad and end of chain, and a valid cluster is none of them when the volume is small enough for FAT32. */
  lemma ClassesDisjoint(totalClusters: nat, e: nat)
    requires totalClusters <= MaxClusters
    ensures !(IsFree(e) && IsEndOfChain(e)) && !(IsBad(e) && IsEndOfChain(e)) && !(IsFree(e) && IsBad(e))
    ensures IsValidCluster(totalClusters, e) ==> !IsFree(e) && !IsBad(e) && !IsEndOfChain(e)
  {
  }

  /** The byte offset of a cluster's entry inside its sector. */
  function EntryOffset(c: nat): (o: nat)
    ensures o < SectorSize && o % 4 == 0
  {
    (c * 4) % SectorSize
  }

  /** The sector that holds a cluster's entry. */
  function EntrySector(fatStart: nat, c: nat): (s: nat)
    ensures s >= fatStart
  {
    fatStart + (c * 4) / SectorSize
  }

  /** Sector and offset together address exactly the four bytes of the entry: byte 4c of the table. */
  lemma EntryAddress(fatStart: nat, c: nat)
    ensures (EntrySector(fatStart, c) - fatStart) * SectorSize + EntryOffset(c) == c * 4
  {
  }

  /** Consecutive clusters share a sector, except across a 128-entry boundary. */
  lemma EntriesPerSector(fatStart: nat, c: nat)
    ensures (c + 1) % 128 != 0 ==> EntrySector(fatStart, c + 1) == EntrySector(fatStart, c)
    ensures (c + 1) % 128 == 0 ==> EntrySector(fatStart, c + 1) == EntrySector(fatStart, c) + 1
  {
  }

  // ---------------------------------------------------------------------
  // The table
  // ---------------------------------------------------------------------

  /** The table and the allocation hints kept next to it. */
  datatype FatTable = FatTable(
    entries: map<nat, u32>,
    totalClusters: nat,
    nextFree: nat,
    freeCount: u32)

  /** The most data clusters a FAT32 volume can have: cluster numbers stay below the bad-cluster mark. */
  const MaxClusters := BadCluster - 2

  /** Every data cluster has an entry, and no data cluster number is a reserved value. */
  predicate WellFormed(f: FatTable) {
    && f.totalClusters <= MaxClusters
    && forall c :: 2 <= c < f.totalClusters + 2 ==> c in f.entries
  }

  /** The 28-bit value of a raw entry, as read_entry returns it. */
  function Low(e: u32): nat {
    e % LowBits
  }

  /** read_entry: the low 28 bits of a data cluster's entry. */
  function ReadEntry(f: FatTable, c: nat): (r: Res<nat>)
    requires WellFormed(f)
    ensures r.Failure? <==> !IsValidCluster(f.totalClusters, c)
    ensures r.Failure? ==> r.error == InvalidParam
    ensures r.Success? ==> r.value < LowBits
  {
    if !IsValidCluster(f.totalClusters, c) then Failure(InvalidParam)
    else Success(Low(f.entries[c]))
  }

  /** The raw entry after write_entry: the top four bits kept, the low 28 replaced. */
  function Merge(old_: u32, v: nat): (e: u32)
    ensures Low(e) == v % LowBits
    ensures e / LowBits == old_ / LowBits
  {
    (old_ / LowBits) * LowBits + v % LowBits
  }

  /** write_entry on a data cluster; the other entries and the hints are unchanged. */
  function WriteEntry(f: FatTable, c: nat, v: nat): (g: FatTable)
    requires WellFormed(f) && IsValidCluster(f.totalClusters, c)
    ensures WellFormed(g) && g.entries.Keys == f.entries.Keys
    ensures g.totalClusters == f.totalClusters && g.nextFree == f.nextFree && g.freeCount == f.freeCount
    ensures g.entries[c] == Merge(f.entries[c], v)
    ensures forall d :: d in f.entries && d != c ==> g.entries[d] == f.entries[d]
  {
    var e := Merge(f.entries[c], v);
    UpdateKeepsKeys(f.entries, c, e);
    f.(entries := f.entries[c := e])
  }

  lemma UpdateKeepsKeys<K, V>(m: map<K, V>, k: K, v: V)
    requires k in m
    ensures m[k := v].Keys == m.Keys
  {
  }

  /** What is written is what is read back, for every 28-bit value. */
  lemma WriteReadBack(f: FatTable, c: nat, v: nat)
    requires WellFormed(f) && IsValidCluster(f.totalClusters, c) && v < LowBits
    ensures ReadEntry(WriteEntry(f, c, v), c) == Success(v)
  {
  }

  // ---------------------------------------------------------------------
  // Allocation and freeing of single clusters
  // ---------------------------------------------------------------------

  /** The cluster after c in the circular scan: the next one, wrapping from the last back to 2. */
  function ScanNext(totalClusters: nat, c: nat): nat {
    if c + 1 >= totalClusters + 2 then 2 else c + 1
  }

  /** The cluster visited after k steps of the circular scan that starts at `start`. */
  function ScanAt(totalClusters: nat, start: nat, k: nat): (c: nat)
    requires IsValidCluster(totalClusters, start)
    ensures IsValidCluster(totalClusters, c)
  {
    if k == 0 then start else ScanNext(totalClusters, ScanAt(totalClusters, start, k - 1))
  }

  /** Within one round, the scan is at start + k, wrapped once past the last cluster. */
  lemma {:induction false} ScanPosition(totalClusters: nat, start: nat, k: nat)
    requires IsValidCluster(totalClusters, start) && k < totalClusters
    ensures ScanAt(totalClusters, start, k)
      == if start + k < totalClusters + 2 then start + k else start + k - totalClusters
  {
    if k > 0 {
      ScanPosition(totalClusters, start, k - 1);
    }
  }

  /** A full round of the scan visits every data cluster. */
  lemma ScanCovers(totalClusters: nat, start: nat, c: nat)
    requires IsValidCluster(totalClusters, start) && IsValidCluster(totalClusters, c)
    ensures exists k :: 0 <= k < totalClusters && ScanAt(totalClusters, start, k) == c
  {
    var k := if c >= start then c - start else c - start + totalClusters;
    ScanPosition(totalClusters, start, k);
  }

  /** None of the first k clusters of the scan is free. */
  predicate NoneFreeBefore(f: FatTable, start: nat, k: nat)
    requires WellFormed(f) && IsValidCluster(f.totalClusters, start)
  {
    forall j :: 0 <= j < k ==> !IsFree(Low(f.entries[ScanAt(f.totalClusters, start, j)]))
  }

  /** The free count after one allocation: one less unless unknown, in 32-bit arithmetic. */
  function CountDown(n: u32): (r: u32)
    ensures n == UnknownCount ==> r == n
    ensures n != UnknownCount && n > 0 ==> r == n - 1
  {
    if n == UnknownCount then n else (n - 1) % Word32
  }

  /** The free count after one free: one more unless unknown. */
  function CountUp(n: u32): (r: u32)
    ensures n == UnknownCount ==> r == n
    ensures n != UnknownCount ==> r == n + 1
  {
    if n == UnknownCount then n else n + 1
  }

  /** The state allocate_cluster leaves after taking the free cluster c. */
  function Allocated(f: FatTable, c: nat): (g: FatTable)
    requires WellFormed(f) && IsValidCluster(f.totalClusters, c)
    ensures WellFormed(g) && g.totalClusters == f.totalClusters
    ensures Low(g.entries[c]) == EocMax
    ensures forall d :: d in f.entries && d != c ==> d in g.entries && g.entries[d] == f.entries[d]
    ensures g.freeCount == CountDown(f.freeCount)
    ensures IsValidCluster(g.totalClusters, g.nextFree)
    ensures g.nextFree == c + 1 || (g.nextFree == 2 && c + 1 == f.totalClusters + 2)
  {
    var w := WriteEntry(f, c, EocMax);
    var next := if c + 1 >= f.totalClusters + 2 then 2 else c + 1;
    w.(freeCount := CountDown(f.freeCount), nextFree := next)
  }

  /**
   allocate_cluster: scans circularly from the next-free hint, takes the
   first cluster whose entry is free and marks it end of chain. A hint
   outside the data clusters fails at the first read.
   */
  method AllocateCluster(f: FatTable) returns (status: FatError, g: FatTable, c: nat)
    requires WellFormed(f)
    ensures status == Ok || status == InvalidParam || status == NoSpace
    ensures status == InvalidParam <==> !IsValidCluster(f.totalClusters, f.nextFree)
    ensures status != Ok ==> g == f
    ensures status == NoSpace ==>
      forall d :: IsValidCluster(f.totalClusters, d) ==> !IsFree(Low(f.entries[d]))
    ensures status == Ok ==> IsValidCluster(f.totalClusters, c) && IsFree(Low(f.entries[c]))
    ensures status == Ok ==> g == Allocated(f, c)
    ensures status == Ok ==>
      exists k :: 0 <= k < f.totalClusters && ScanAt(f.totalClusters, f.nextFree, k) == c && NoneFreeBefore(f, f.nextFree, k)
  {
    g, c := f, 0;
    var start := f.nextFree;
    if !IsValidCluster(f.totalClusters, start) {
      return InvalidParam, g, c;
    }
    var cur: nat := start;
    var k := 0;
    while k < f.totalClusters
      invariant 0 <= k <= f.totalClusters && cur == ScanAt(f.totalClusters, start, k)
      invariant NoneFreeBefore(f, start, k)
    {
      if IsFree(Low(f.entries[cur])) {
        return Ok, Allocated(f, cur), cur;
      }
      cur := cur + 1;
      if cur >= f.totalClusters + 2 {
        cur := 2;
      }
      k := k + 1;
    }
    forall d | IsValidCluster(f.totalClusters, d) ensures !IsFree(Low(f.entries[d])) {
      ScanCovers(f.totalClusters, start, d);
      var j :| 0 <= j < f.totalClusters && ScanAt(f.totalClusters, start, j) == d;
    }
    return NoSpace, g, c;
  }

  /**
   free_cluster: marks a data cluster free, counts it, and lowers the
   next-free hint to it when it is smaller.
   */
  function FreeCluster(f: FatTable, c: nat): (r: Res<FatTable>)
    requires WellFormed(f)
    ensures r.Failure? <==> !IsValidCluster(f.totalClusters, c)
    ensures r.Failure? ==> r.error == InvalidParam
    ensures r.Success? ==> WellFormed(r.value) && r.value.totalClusters == f.totalClusters
    ensures r.Success? ==> IsFree(Low(r.value.entries[c]))
    ensures r.Success? ==> forall d :: d in f.entries && d != c ==> d in r.value.entries && r.value.entries[d] == f.entries[d]
    ensures r.Success? ==> r.value.freeCount == CountUp(f.freeCount)
    ensures r.Success? ==> r.value.nextFree == Min(c, f.nextFree)
  {
    if !IsValidCluster(f.totalClusters, c) then Failure(InvalidParam)
    else
      var w := WriteEntry(f, c, FreeEntry);
      Success(w.(freeCount := CountUp(f.freeCount), nextFree := if c < f.nextFree then c else f.nextFree))
  }

  /** Freeing the cluster just allocated restores its entry, and restores a known count. */
  lemma AllocateThenFree(f: FatTable, c: nat)
    requires WellFormed(f) && IsValidCluster(f.totalClusters, c) && IsFree(Low(f.entries[c]))
    requires f.freeCount != UnknownCount && f.freeCount > 0
    ensures var r := FreeCluster(Allocated(f, c), c);
      r.Success? && r.value.entries == f.entries && r.value.freeCount == f.freeCount
  {
    var g := Allocated(f, c);
    var h := FreeCluster(g, c).value;
    assert h.entries[c] == f.entries[c] by {
      assert h.entries[c] == Merge(g.entries[c], 0);
      assert g.entries[c] == Merge(f.entries[c], EocMax);
    }
    assert h.entries == f.entries by {
      assert h.entries.Keys == f.entries.Keys;
    }
  }

  // ---------------------------------------------------------------------
  // Chains
  // ---------------------------------------------------------------------

  /**
   get_next_cluster: 0 at the end of the chain, the entry when it names a
   data cluster, and CORRUPTED for a bad cluster or any other value.
   */
  function NextCluster(f: FatTable, c: nat): (r: Res<nat>)
    requires WellFormed(f)
    ensures !IsValidCluster(f.totalClusters, c) ==> r == Failure(InvalidParam)
    ensures r.Failure? && IsValidCluster(f.totalClusters, c) ==> r.error == Corrupted
    ensures r.Success? ==> r.value == 0 || IsValidCluster(f.totalClusters, r.value)
    ensures r == Success(0) <==> IsValidCluster(f.totalClusters, c) && IsEndOfChain(Low(f.entries[c]))
    ensures r.Success? && r.value != 0 ==> r.value == Low(f.entries[c])
  {
    if !IsValidCluster(f.totalClusters, c) then Failure(InvalidParam)
    else
      var e := Low(f.entries[c]);
      if IsBad(e) then Failure(Corrupted)
      else if IsEndOfChain(e) then Success(0)
      else if IsValidCluster(f.totalClusters, e) then Success(e)
      else Failure(Corrupted)
  }

  /** The cluster reached after k links from c, if every link on the way is sound. */
  function Walk(f: FatTable, c: nat, k: nat): (r: Option<nat>)
    requires WellFormed(f)
    ensures r.Some? ==> IsValidCluster(f.totalClusters, r.value) || (k == 0 && r.value == c)
    decreases k
  {
    if k == 0 then Some(c)
    else match NextCluster(f, c)
      case Success(n) => if n == 0 then None else Walk(f, n, k - 1)
      case Failure(_) => None
  }

  lemma {:induction false} WalkSnoc(f: FatTable, c: nat, k: nat)
    requires WellFormed(f) && Walk(f, c, k).Some?
    ensures var n := NextCluster(f, Walk(f, c, k).value);
      n.Success? && n.value != 0 ==> Walk(f, c, k + 1) == Some(n.value)
    decreases k
  {
    if k > 0 {
      var n := NextCluster(f, c);
      WalkSnoc(f, n.value, k - 1);
    }
  }

  /** The loop of get_cluster_chain_length, entered with `length` clusters counted before `cur`. */
  function LengthFrom(f: FatTable, cur: nat, length: nat): (r: Res<nat>)
    requires WellFormed(f) && IsValidCluster(f.totalClusters, cur) && length <= f.totalClusters
    ensures r.Success? ==> r.value > length
    ensures r.Failure? ==> r.error == Corrupted
    decreases f.totalClusters - length
  {
    match NextCluster(f, cur)
    case Failure(e) => Failure(e)
    case Success(n) =>
      if n == 0 then Success(length + 1)
      else if length + 1 > f.totalClusters then Failure(Corrupted)
      else LengthFrom(f, n, length + 1)
  }

  /** get_cluster_chain_length: the number of clusters up to the end-of-chain mark. */
  function ChainLength(f: FatTable, first: nat): (r: Res<nat>)
    requires WellFormed(f)
    ensures r.Failure? ==> r.error == (if IsValidCluster(f.totalClusters, first) then Corrupted else InvalidParam)
    ensures r.Success? ==> 1 <= r.value <= f.totalClusters + 1
  {
    if !IsValidCluster(f.totalClusters, first) then Failure(InvalidParam)
    else
      var r := LengthFrom(f, first, 0);
      LengthBound(f, first, 0);
      r
  }

  lemma {:induction false} LengthBound(f: FatTable, cur: nat, length: nat)
    requires WellFormed(f) && IsValidCluster(f.totalClusters, cur) && length <= f.totalClusters
    ensures LengthFrom(f, cur, length).Success? ==> LengthFrom(f, cur, length).value <= f.totalClusters + 1
    decreases f.totalClusters - length
  {
    var n := NextCluster(f, cur);
    if n.Success? && n.value != 0 && length + 1 <= f.totalClusters {
      LengthBound(f, n.value, length + 1);
    }
  }

  /** The loop of get_cluster_at_index, entered at position `index` of the chain. */
  function AtIndexFrom(f: FatTable, cur: nat, index: nat, target: nat): (r: Res<nat>)
    requires WellFormed(f) && IsValidCluster(f.totalClusters, cur) && index <= f.totalClusters
    ensures r.Success? ==> IsValidCluster(f.totalClusters, r.value)
    ensures r.Failure? ==> r.error == Corrupted || r.error == EndOfFile
    decreases f.totalClusters - index
  {
    if index == target then Success(cur)
    else match NextCluster(f, cur)
      case Failure(e) => Failure(e)
      case Success(n) =>
        if n == 0 then Failure(EndOfFile)
        else if index + 1 > f.totalClusters then Failure(Corrupted)
        else AtIndexFrom(f, n, index + 1, target)
  }

  /** get_cluster_at_index: the cluster at position `target` of the chain that starts at `first`. */
  function ClusterAtIndex(f: FatTable, first: nat, target: nat): (r: Res<nat>)
    requires WellFormed(f)
    ensures !IsValidCluster(f.totalClusters, first) ==> r == Failure(InvalidParam)
    ensures target == 0 && IsValidCluster(f.totalClusters, first) ==> r == Success(first)
  {
    if !IsValidCluster(f.totalClusters, first) then Failure(InvalidParam)
    else AtIndexFrom(f, first, 0, target)
  }

  /** What the index walk finds is the cluster that many links down the chain. */
  lemma {:induction false} AtIndexWalks(f: FatTable, cur: nat, index: nat, target: nat)
    requires WellFormed(f) && IsValidCluster(f.totalClusters, cur) && index <= f.totalClusters
    requires AtIndexFrom(f, cur, index, target).Success?
    ensures index <= target && Walk(f, cur, target - index) == Some(AtIndexFrom(f, cur, index, target).value)
    decreases f.totalClusters - index
  {
    if index != target {
      var n := NextCluster(f, cur).value;
      AtIndexWalks(f, n, index + 1, target);
    }
  }

  /**
   The two walks agree: when the chain length is n, every index below n
   finds a cluster and every index from n on gives END_OF_FILE.
   */
  lemma {:induction false} LengthAndIndexAgree(f: FatTable, cur: nat, k: nat, target: nat)
    requires WellFormed(f) && IsValidCluster(f.totalClusters, cur) && k <= f.totalClusters && k <= target
    requires LengthFrom(f, cur, k).Success?
    ensures target < LengthFrom(f, cur, k).value ==> AtIndexFrom(f, cur, k, target).Success?
    ensures target >= LengthFrom(f, cur, k).value ==> AtIndexFrom(f, cur, k, target) == Failure(EndOfFile)
    decreases f.totalClusters - k
  {
    if k != target {
      var n := NextCluster(f, cur).value;
      if n != 0 {
        LengthAndIndexAgree(f, n, k + 1, target);
      }
    }
  }

  lemma ChainLengthIndex(f: FatTable, first: nat, target: nat)
    requires WellFormed(f) && ChainLength(f, first).Success?
    ensures target < ChainLength(f, first).value <==> ClusterAtIndex(f, first, target).Success?
    ensures target >= ChainLength(f, first).value ==> ClusterAtIndex(f, first, target) == Failure(EndOfFile)
  {
    LengthAndIndexAgree(f, first, 0, target);
  }

  // ---------------------------------------------------------------------
  // A chain written into the table
  // ---------------------------------------------------------------------

  /** The clusters of cs are linked in order and the last is marked end of chain. */
  predicate LinkedChain(f: FatTable, cs: seq<nat>)
    requires WellFormed(f)
  {
    && |cs| > 0
    && (forall j :: 0 <= j < |cs| ==> IsValidCluster(f.totalClusters, cs[j]))
    && (forall j :: 0 <= j < |cs| - 1 ==> Low(f.entries[cs[j]]) == cs[j + 1])
    && IsEndOfChain(Low(f.entries[cs[|cs| - 1]]))
  }

  /** Following a linked chain from its head visits its clusters in order. */
  lemma {:induction false} LinkedChainWalks(f: FatTable, cs: seq<nat>, j: nat)
    requires WellFormed(f) && LinkedChain(f, cs) && j < |cs|
    ensures Walk(f, cs[0], j) == Some(cs[j])
  {
    if j > 0 {
      LinkedChainWalks(f, cs, j - 1);
      WalkSnoc(f, cs[0], j - 1);
    }
  }

  /** LengthFrom along a linked chain, from its position k. */
  lemma {:induction false} LinkedChainLengthFrom(f: FatTable, cs: seq<nat>, k: nat)
    requires WellFormed(f) && LinkedChain(f, cs) && k < |cs| && |cs| <= f.totalClusters
    ensures LengthFrom(f, cs[k], k) == Success(|cs|)
    decreases |cs| - k
  {
    if k < |cs| - 1 {
      LinkedChainLengthFrom(f, cs, k + 1);
    }
  }

  /** A linked chain of distinct clusters has its own length as chain length. */
  lemma LinkedChainLength(f: FatTable, cs: seq<nat>)
    requires WellFormed(f) && LinkedChain(f, cs) && Distinct(cs)
    ensures ChainLength(f, cs[0]) == Success(|cs|)
  {
    DistinctSubsetBound(cs, DataClusters(f.totalClusters));
    LinkedChainLengthFrom(f, cs, 0);
  }

  /** The set of data clusters of a volume with n of them. */
  function DataClusters(n: nat): (r: set<nat>)
    ensures |r| == n
    ensures forall c :: c in r <==> IsValidCluster(n, c)
  {
    if n == 0 then {} else DataClusters(n - 1) + {n + 1}
  }

  // ---------------------------------------------------------------------
  // Extending, allocating and freeing chains
  // ---------------------------------------------------------------------

  /**
   extend_cluster_chain: allocates a cluster and links the given last
   cluster to it. When the last cluster was in use, the chain now runs
   from it to the new cluster and ends there.
   */
  method ExtendChain(f: FatTable, last: nat) returns (status: FatError, g: FatTable, n: nat)
    requires WellFormed(f)
    ensures WellFormed(g) && g.totalClusters == f.totalClusters
    ensures !IsValidCluster(f.totalClusters, last) ==> status == InvalidParam && g == f
    ensures status != Ok ==> g == f
    ensures status == Ok ==> IsValidCluster(f.totalClusters, n) && IsFree(Low(f.entries[n]))
    ensures status == Ok && !IsFree(Low(f.entries[last])) ==>
      NextCluster(g, last) == Success(n) && NextCluster(g, n) == Success(0)
  {
    if !IsValidCluster(f.totalClusters, last) {
      return InvalidParam, f, 0;
    }
    status, g, n := AllocateCluster(f);
    if status != Ok {
      return;
    }
    g := WriteEntry(g, last, n);
  }

  /** The clusters not marked free: each step of free_cluster_chain takes one away. */
  function InUse(f: FatTable): set<nat>
    requires WellFormed(f)
  {
    set c | c in DataClusters(f.totalClusters) && !IsFree(Low(f.entries[c]))
  }

  /** Entries of h are those of f, with the clusters in `freed` marked free. */
  predicate FreedExactly(f: FatTable, h: FatTable, freed: seq<nat>)
    requires WellFormed(f) && WellFormed(h)
  {
    && h.entries.Keys == f.entries.Keys
    && forall d :: d in f.entries ==>
      h.entries[d] == if d in freed then Merge(f.entries[d], FreeEntry) else f.entries[d]
  }

  lemma FreeShrinksInUse(h: FatTable, c: nat)
    requires WellFormed(h) && IsValidCluster(h.totalClusters, c) && !IsFree(Low(h.entries[c]))
    ensures |InUse(FreeCluster(h, c).value)| < |InUse(h)|
  {
    var h2 := FreeCluster(h, c).value;
    assert InUse(h2) <= InUse(h) - {c};
    SubsetCardinality(InUse(h2), InUse(h) - {c});
  }

  /**
   free_cluster_chain: frees clusters along the chain from `first` until
   the end-of-chain mark. It only ever marks entries free, and when the
   table holds the distinct linked chain cs from `first`, it frees exactly
   the clusters of cs.
   */
  method FreeChain(f: FatTable, first: nat, ghost cs: seq<nat>) returns (status: FatError, h: FatTable)
    requires WellFormed(f)
    ensures WellFormed(h) && h.totalClusters == f.totalClusters && h.entries.Keys == f.entries.Keys
    ensures !IsValidCluster(f.totalClusters, first) ==> status == InvalidParam && h == f
    ensures status == Ok || status == InvalidParam || status == Corrupted
    ensures forall d :: d in f.entries ==> h.entries[d] == f.entries[d] || h.entries[d] == Merge(f.entries[d], FreeEntry)
    ensures LinkedChain(f, cs) && Distinct(cs) && cs[0] == first ==> status == Ok && FreedExactly(f, h, cs)
  {
    h := f;
    if !IsValidCluster(f.totalClusters, first) {
      return InvalidParam, h;
    }
    var cur: nat := first;
    ghost var chain := LinkedChain(f, cs) && Distinct(cs) && cs[0] == first;
    ghost var i := 0;
    while IsValidCluster(h.totalClusters, cur)
      invariant WellFormed(h) && h.totalClusters == f.totalClusters && h.entries.Keys == f.entries.Keys
      invariant forall d :: d in f.entries ==> h.entries[d] == f.entries[d] || h.entries[d] == Merge(f.entries[d], FreeEntry)
      invariant chain ==> i < |cs| && cur == cs[i] && FreedExactly(f, h, cs[..i])
      decreases |InUse(h)|
    {
      var next := NextCluster(h, cur);
      if chain {
        ChainStep(f, h, cs, i);
      }
      if next.Failure? {
        return next.error, h;
      }
      FreeShrinksInUse(h, cur);
      var h2 := FreeCluster(h, cur).value;
      FreeStepKeeps(f, h, h2, cur);
      if chain {
        FreedSnoc(f, h, h2, cs, i);
      }
      h := h2;
      if next.value == 0 {
        if chain {
          assert i == |cs| - 1;
          WholePrefix(cs, i + 1);
        }
        return Ok, h;
      }
      cur := next.value;
      if chain {
        i := i + 1;
      }
    }
    return Ok, h;
  }

  /** Freeing one more cluster keeps every entry either as it was or freed. */
  lemma FreeStepKeeps(f: FatTable, h: FatTable, h2: FatTable, c: nat)
    requires WellFormed(f) && WellFormed(h) && h.totalClusters == f.totalClusters && h.entries.Keys == f.entries.Keys
    requires forall d :: d in f.entries ==> h.entries[d] == f.entries[d] || h.entries[d] == Merge(f.entries[d], FreeEntry)
    requires FreeCluster(h, c).Success? && h2 == FreeCluster(h, c).value
    ensures WellFormed(h2) && h2.totalClusters == f.totalClusters && h2.entries.Keys == f.entries.Keys
    ensures forall d :: d in f.entries ==> h2.entries[d] == f.entries[d] || h2.entries[d] == Merge(f.entries[d], FreeEntry)
  {
  }

  lemma WholePrefix<T>(s: seq<T>, n: nat)
    requires n == |s|
    ensures s[..n] == s
  {
  }

  /** On a linked chain, the walk of free_cluster_chain reads the links that are still in place. */
  lemma ChainStep(f: FatTable, h: FatTable, cs: seq<nat>, i: nat)
    requires WellFormed(f) && WellFormed(h) && h.totalClusters == f.totalClusters
    requires LinkedChain(f, cs) && Distinct(cs) && i < |cs| && FreedExactly(f, h, cs[..i])
    ensures h.entries[cs[i]] == f.entries[cs[i]]
    ensures i < |cs| - 1 ==> NextCluster(h, cs[i]) == Success(cs[i + 1])
    ensures i == |cs| - 1 ==> NextCluster(h, cs[i]) == Success(0)
  {
    assert cs[i] !in cs[..i] by {
      forall k | 0 <= k < i ensures cs[..i][k] != cs[i] {
        assert cs[..i][k] == cs[k];
      }
    }
  }

  lemma FreedSnoc(f: FatTable, h: FatTable, h2: FatTable, cs: seq<nat>, i: nat)
    requires WellFormed(f) && WellFormed(h) && h.totalClusters == f.totalClusters
    requires LinkedChain(f, cs) && Distinct(cs) && i < |cs| && FreedExactly(f, h, cs[..i])
    requires h.entries[cs[i]] == f.entries[cs[i]]
    requires FreeCluster(h, cs[i]).Success? && h2 == FreeCluster(h, cs[i]).value
    ensures WellFormed(h2) && FreedExactly(f, h2, cs[..i + 1])
  {
    assert cs[..i + 1] == cs[..i] + [cs[i]];
    forall d | d in f.entries
      ensures h2.entries[d] == if d in cs[..i + 1] then Merge(f.entries[d], FreeEntry) else f.entries[d]
    {
      if d != cs[i] {
        assert d in cs[..i + 1] <==> d in cs[..i];
      }
    }
  }

  /**
   The table while allocate_cluster_chain builds the chain cs: cs is a
   distinct linked chain of clusters that were free in f, and nothing
   else, not even the reserved top bits of the chain's entries, differs from f.
   */
  predicate Building(f: FatTable, g: FatTable, cs: seq<nat>)
    requires WellFormed(f) && WellFormed(g)
  {
    && g.totalClusters == f.totalClusters && g.entries.Keys == f.entries.Keys
    && LinkedChain(g, cs) && Distinct(cs)
    && (forall j :: 0 <= j < |cs| ==> cs[j] in f.entries && IsFree(Low(f.entries[cs[j]])))
    && (forall j :: 0 <= j < |cs| ==> g.entries[cs[j]] / LowBits == f.entries[cs[j]] / LowBits)
    && (forall d :: d in f.entries && d !in cs ==> g.entries[d] == f.entries[d])
  }

  lemma BuildingStart(f: FatTable, first: nat)
    requires WellFormed(f) && IsValidCluster(f.totalClusters, first) && IsFree(Low(f.entries[first]))
    ensures Building(f, Allocated(f, first), [first])
  {
  }

  lemma BuildingStep(f: FatTable, g: FatTable, cs: seq<nat>, n: nat)
    requires WellFormed(f) && WellFormed(g) && Building(f, g, cs)
    requires IsValidCluster(g.totalClusters, n) && IsFree(Low(g.entries[n]))
    ensures var g2 := Allocated(g, n);
      IsValidCluster(g2.totalClusters, cs[|cs| - 1]) && Building(f, WriteEntry(g2, cs[|cs| - 1], n), cs + [n])
  {
    NewClusterFresh(g, cs, n);
    var g2 := Allocated(g, n);
    var g4 := WriteEntry(g2, cs[|cs| - 1], n);
    LinkSnoc(g, g2, g4, cs, n);
    DistinctSnoc(cs, n);
    var cs2 := cs + [n];
    forall j | 0 <= j < |cs2| ensures cs2[j] in f.entries && IsFree(Low(f.entries[cs2[j]])) {
      if j < |cs| { assert cs2[j] == cs[j]; }
    }
    forall j | 0 <= j < |cs2| ensures g4.entries[cs2[j]] / LowBits == f.entries[cs2[j]] / LowBits {
      if j < |cs| - 1 { assert cs2[j] == cs[j]; }
    }
  }

  /**
   allocate_cluster_chain: allocates count clusters one by one and links
   each to the next. On success the chain from `first` is exactly count
   clusters long and every one of them was free. When an allocation fails
   part-way, the clusters taken so far are freed again, which restores
   every entry of the table.
   */
  method AllocateChain(f: FatTable, count: nat) returns (status: FatError, g: FatTable, first: nat, ghost cs: seq<nat>)
    requires WellFormed(f) && count > 0
    ensures WellFormed(g) && g.totalClusters == f.totalClusters && g.entries.Keys == f.entries.Keys
    ensures status == Ok || status == InvalidParam || status == NoSpace
    ensures status == Ok ==> |cs| == count && cs[0] == first && LinkedChain(g, cs) && Distinct(cs)
    ensures status == Ok ==> ChainLength(g, first) == Success(count)
    ensures status == Ok ==> forall j :: 0 <= j < |cs| ==> IsFree(Low(f.entries[cs[j]]))
    ensures status == Ok ==> forall d :: d in f.entries && d !in cs ==> g.entries[d] == f.entries[d]
    ensures status != Ok ==> g.entries == f.entries
  {
    cs := [];
    status, g, first := AllocateCluster(f);
    if status != Ok {
      return;
    }
    BuildingStart(f, first);
    cs := [first];
    var prev := first;
    var i := 1;
    while i < count
      invariant WellFormed(g) && Building(f, g, cs)
      invariant 1 <= i <= count && |cs| == i && cs[0] == first && prev == cs[i - 1]
    {
      var s2, g2, n := AllocateCluster(g);
      if s2 != Ok {
        var s3, g3 := FreeChain(g, first, cs);
        RestoredAfterFree(f, g, g3, cs);
        return s2, g3, first, cs;
      }
      BuildingStep(f, g, cs, n);
      g := WriteEntry(g2, prev, n);
      cs := cs + [n];
      prev := n;
      i := i + 1;
    }
    LinkedChainLength(g, cs);
  }

  /** A free cluster is not one of a linked chain's clusters. */
  lemma NewClusterFresh(g: FatTable, cs: seq<nat>, n: nat)
    requires WellFormed(g) && LinkedChain(g, cs) && n in g.entries && IsFree(Low(g.entries[n]))
    ensures n !in cs
  {
    forall j | 0 <= j < |cs| ensures cs[j] != n {
      if j < |cs| - 1 {
        assert Low(g.entries[cs[j]]) == cs[j + 1];
      }
    }
  }

  /** Allocating n and linking the chain's last cluster to it extends the linked chain by n. */
  lemma LinkSnoc(g: FatTable, g2: FatTable, g4: FatTable, cs: seq<nat>, n: nat)
    requires WellFormed(g) && LinkedChain(g, cs) && IsValidCluster(g.totalClusters, n) && n !in cs
    requires g2 == Allocated(g, n)
    requires IsValidCluster(g2.totalClusters, cs[|cs| - 1]) && g4 == WriteEntry(g2, cs[|cs| - 1], n)
    ensures LinkedChain(g4, cs + [n])
  {
    var cs2 := cs + [n];
    forall j | 0 <= j < |cs2| - 1 ensures Low(g4.entries[cs2[j]]) == cs2[j + 1] {
      if j < |cs| - 1 {
        assert cs2[j] == cs[j] && cs2[j + 1] == cs[j + 1];
        assert g4.entries[cs[j]] == g.entries[cs[j]];
      }
    }
  }

  /** Freeing a chain of clusters that were all free before it was allocated restores every entry. */
  lemma RestoredAfterFree(f: FatTable, g: FatTable, g3: FatTable, cs: seq<nat>)
    requires WellFormed(f) && WellFormed(g) && WellFormed(g3)
    requires Building(f, g, cs) && FreedExactly(g, g3, cs)
    ensures g3.entries == f.entries
  {
    forall d | d in f.entries ensures g3.entries[d] == f.entries[d] {
      if d in cs {
        var j :| 0 <= j < |cs| && cs[j] == d;
      }
    }
  }
}
