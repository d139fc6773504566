/**
 The FAT32 boot sector and FSInfo sector: validation, the volume layout
 derived from the BIOS parameter block, cluster/sector conversion and the
 allocation hints kept in FSInfo.
 */
module Fat32Boot {
  import opened Util
  import opened CTypes
  import opened Fat32Types

  const BootSignature := 0xAA55
  const FsInfoLeadSignature := 0x4161_5252
  const FsInfoStructSignature := 0x6141_7272
  const FsInfoTrailSignature := 0xAA55_0000
  /** A volume with this many clusters or fewer is FAT12 or FAT16, not FAT32. */
  const MaxFat16Clusters := 65525

  /** The boot-sector fields the driver reads; jump code, labels and geometry are left out. */
  datatype BootSector = BootSector(
    bytesPerSector: u16,
    sectorsPerCluster: u8,
    reservedSectors: u16,
    numFats: u8,
    totalSectors16: u16,
    totalSectors32: u32,
    fatSize32: u32,
    rootCluster: u32,
    fsInfoSector: u16,
    signature: u16)

  predicate IsValidSectorSize(n: u16) {
    n == 512 || n == 1024 || n == 2048 || n == 4096
  }

  /** A non-zero sector count per cluster of at most 128 with no two bits set (n & (n - 1) == 0). */
  predicate IsValidClusterSize(n: u8) {
    n > 0 && (n as bv8) & ((n - 1) as bv8) == 0 && n <= 128
  }

  /** The valid cluster sizes are exactly the powers of two from 1 to 128. */
  lemma ClusterSizesArePowersOfTwo(n: u8)
    ensures IsValidClusterSize(n) <==> n in {1, 2, 4, 8, 16, 32, 64, 128}
  {
  }

  /** The conditions validate_boot_sector checks, each failure giving CORRUPTED; the file-system type string is only a warning. */
  predicate BootSectorOk(b: BootSector) {
    && b.signature == BootSignature
    && IsValidSectorSize(b.bytesPerSector)
    && IsValidClusterSize(b.sectorsPerCluster)
    && 1 <= b.numFats <= 2
    && b.reservedSectors != 0
    && b.fatSize32 != 0
    && b.rootCluster >= 2
  }

  /** validate_boot_sector. */
  function ValidateBootSector(b: BootSector): (r: FatError)
    ensures r == Ok || r == Corrupted
    ensures r == Ok <==> BootSectorOk(b)
    ensures r == Ok ==> b.sectorsPerCluster in {1, 2, 4, 8, 16, 32, 64, 128}
  {
    ClusterSizeOk(b.sectorsPerCluster);
    if b.signature != BootSignature then Corrupted
    else if !IsValidSectorSize(b.bytesPerSector) then Corrupted
    else if !IsValidClusterSize(b.sectorsPerCluster) then Corrupted
    else if b.numFats == 0 || b.numFats > 2 then Corrupted
    else if b.reservedSectors == 0 then Corrupted
    else if b.fatSize32 == 0 then Corrupted
    else if b.rootCluster < 2 then Corrupted
    else Ok
  }

  lemma ClusterSizeOk(n: u8)
    ensures IsValidClusterSize(n) ==> n in {1, 2, 4, 8, 16, 32, 64, 128}
  {
    ClusterSizesArePowersOfTwo(n);
  }

  // ---------------------------------------------------------------------
  // Layout
  // ---------------------------------------------------------------------

  /** The sector count: the 16-bit field is used only when the 32-bit one is zero. */
  function TotalSectors(b: BootSector): (n: u32)
    ensures b.totalSectors32 != 0 ==> n == b.totalSectors32
    ensures b.totalSectors32 == 0 ==> n == b.totalSectors16
  {
    if b.totalSectors32 == 0 then b.totalSectors16 else b.totalSectors32
  }

  /** The layout fields of the file-system information. */
  datatype Layout = Layout(
    fatStart: nat,
    dataStart: nat,
    totalClusters: nat,
    sectorsPerCluster: nat,
    bytesPerCluster: nat)

  /** The first sector after the reserved area and every copy of the FAT, before truncation to 32 bits. */
  function DataStart(b: BootSector): nat {
    b.reservedSectors + b.numFats * b.fatSize32
  }

  /**
   calculate_layout as written: the data start and the data-sector count
   are 32-bit unsigned values, so a FAT area larger than the volume wraps
   around instead of being noticed.
   */
  function CalculateLayoutAsWritten(b: BootSector): (r: Res<Layout>)
    requires b.sectorsPerCluster > 0
    ensures r.Failure? ==> r.error == Corrupted
    ensures r.Success? ==> r.value.fatStart == b.reservedSectors && r.value.dataStart == DataStart(b) % Word32
    ensures r.Success? ==> r.value.totalClusters > MaxFat16Clusters && r.value.dataStart < Word32
  {
    var dataStart := DataStart(b) % Word32;
    var dataSectors := (TotalSectors(b) - dataStart) % Word32;
    var clusters := dataSectors / b.sectorsPerCluster;
    if clusters <= MaxFat16Clusters then Failure(Corrupted)
    else Success(Layout(b.reservedSectors, dataStart, clusters, b.sectorsPerCluster,
                        b.sectorsPerCluster * b.bytesPerSector))
  }

  /** A volume whose FAT area runs past its last sector is accepted as written, with a data area beyond the volume. */
  lemma LayoutAcceptsFatPastEnd()
    ensures var b := BootSector(512, 8, 32, 2, 0, 70000, 100000, 2, 1, BootSignature);
      && ValidateBootSector(b) == Ok
      && CalculateLayoutAsWritten(b).Success?
      && CalculateLayoutAsWritten(b).value.dataStart > TotalSectors(b)
  {
  }

  /**
   calculate_layout with the evident intent: a volume whose reserved area
   and FATs do not leave room inside it is rejected as CORRUPTED, like one
   with too few clusters for FAT32.
   */
  function CalculateLayout(b: BootSector): (r: Res<Layout>)
    requires b.sectorsPerCluster > 0
    ensures r.Failure? ==> r.error == Corrupted
    ensures r.Success? <==>
      (DataStart(b) <= TotalSectors(b) && (TotalSectors(b) - DataStart(b)) / b.sectorsPerCluster > MaxFat16Clusters)
    ensures r.Success? ==> r.value.fatStart == b.reservedSectors && r.value.dataStart == DataStart(b)
    ensures r.Success? ==> r.value.totalClusters > MaxFat16Clusters
    ensures r.Success? ==> r.value.dataStart + r.value.totalClusters * r.value.sectorsPerCluster <= TotalSectors(b)
    ensures r.Success? ==> r.value.bytesPerCluster == b.sectorsPerCluster * b.bytesPerSector
  {
    var dataStart := DataStart(b);
    if dataStart > TotalSectors(b) then Failure(Corrupted)
    else
      var clusters := (TotalSectors(b) - dataStart) / b.sectorsPerCluster;
      if clusters <= MaxFat16Clusters then Failure(Corrupted)
      else Success(Layout(b.reservedSectors, dataStart, clusters, b.sectorsPerCluster,
                          b.sectorsPerCluster * b.bytesPerSector))
  }

  /** On every volume whose FAT area fits, the corrected layout is the one computed as written. */
  lemma LayoutAgreesWhenConsistent(b: BootSector)
    requires b.sectorsPerCluster > 0 && DataStart(b) <= TotalSectors(b)
    ensures CalculateLayout(b) == CalculateLayoutAsWritten(b)
  {
    ModSmall(DataStart(b), Word32);
    ModSmall(TotalSectors(b) - DataStart(b), Word32);
  }

  // ---------------------------------------------------------------------
  // Clusters and sectors
  // ---------------------------------------------------------------------

  /** cluster_to_sector: the first sector of a data cluster, 0 for the reserved numbers 0 and 1. */
  function ClusterToSector(l: Layout, c: u32): (s: u32)
    ensures c < 2 ==> s == 0
  {
    if c < 2 then 0 else (l.dataStart + (c - 2) * l.sectorsPerCluster) % Word32
  }

  /** sector_to_cluster: the cluster holding a data sector, 0 for a sector before the data area. */
  function SectorToCluster(l: Layout, s: u32): (c: u32)
    requires l.sectorsPerCluster > 0
    ensures s < l.dataStart ==> c == 0
  {
    if s < l.dataStart then 0 else ((s - l.dataStart) / l.sectorsPerCluster + 2) % Word32
  }

  /** Every sector of a data cluster maps back to that cluster, as long as the sector number fits in 32 bits. */
  lemma ClusterSectorRoundTrip(l: Layout, c: u32, i: nat)
    requires l.sectorsPerCluster > 0 && c >= 2 && i < l.sectorsPerCluster
    requires l.dataStart + (c - 2) * l.sectorsPerCluster + i < Word32
    ensures ClusterToSector(l, c) + i < Word32
    ensures SectorToCluster(l, ClusterToSector(l, c) + i) == c
  {
    MulNonneg(c - 2, l.sectorsPerCluster);
    DivOf((c - 2) * l.sectorsPerCluster + i, l.sectorsPerCluster, c - 2, i);
  }

  /** Under a layout that passed the corrected check, every sector of every data cluster lies on the volume. */
  lemma ClusterInsideVolume(b: BootSector, c: u32, i: nat)
    requires b.sectorsPerCluster > 0 && CalculateLayout(b).Success?
    requires var l := CalculateLayout(b).value; 2 <= c < l.totalClusters + 2 && i < l.sectorsPerCluster
    ensures var l := CalculateLayout(b).value;
      ClusterToSector(l, c) + i < TotalSectors(b) && SectorToCluster(l, ClusterToSector(l, c) + i) == c
  {
    var l := CalculateLayout(b).value;
    InsideLayout(l, TotalSectors(b), c, i);
  }

  lemma InsideLayout(l: Layout, total: nat, c: u32, i: nat)
    requires l.sectorsPerCluster > 0 && total < Word32
    requires l.dataStart + l.totalClusters * l.sectorsPerCluster <= total
    requires 2 <= c < l.totalClusters + 2 && i < l.sectorsPerCluster
    ensures ClusterToSector(l, c) + i < total && SectorToCluster(l, ClusterToSector(l, c) + i) == c
  {
    InsideData(l.dataStart, l.totalClusters, l.sectorsPerCluster, c - 2, i);
    ClusterSectorRoundTrip(l, c, i);
  }

  lemma InsideData(start: nat, clusters: nat, spc: nat, k: nat, i: nat)
    requires k < clusters && i < spc
    ensures start + k * spc + i < start + clusters * spc
  {
    MulMono(k + 1, clusters, spc);
    assert (k + 1) * spc == k * spc + spc;
  }

  // ---------------------------------------------------------------------
  // FSInfo
  // ---------------------------------------------------------------------

  datatype FsInfo = FsInfo(leadSig: u32, structSig: u32, freeCount: u32, nextFree: u32, trailSig: u32)

  /** The free-cluster count and next-free hint the driver keeps. */
  datatype Hints = Hints(freeCount: u32, nextFree: u32)

  /** validate_fsinfo: all three signatures must match. */
  function ValidateFsInfo(fi: FsInfo): (r: FatError)
    ensures r == Ok || r == Corrupted
    ensures r == Ok <==>
      (fi.leadSig == FsInfoLeadSignature && fi.structSig == FsInfoStructSignature && fi.trailSig == FsInfoTrailSignature)
  {
    if fi.leadSig != FsInfoLeadSignature then Corrupted
    else if fi.structSig != FsInfoStructSignature then Corrupted
    else if fi.trailSig != FsInfoTrailSignature then Corrupted
    else Ok
  }

  /**
   read_fsinfo on the sector's contents: no FSInfo sector gives NOT_FOUND,
   bad signatures give CORRUPTED; the stored count is taken as it is and
   the hint is replaced by 2 when it is unknown or below 2.
   */
  function ReadFsInfo(fsInfoSector: u16, fi: FsInfo): (r: Res<Hints>)
    ensures fsInfoSector == 0 ==> r == Failure(NotFound)
    ensures fsInfoSector != 0 ==> (r.Success? <==> ValidateFsInfo(fi) == Ok)
    ensures r.Success? ==> r.value.freeCount == fi.freeCount && r.value.nextFree >= 2
    ensures r.Success? ==> (r.value.nextFree == fi.nextFree <==> 2 <= fi.nextFree != 0xFFFF_FFFF || fi.nextFree == 2)
  {
    if fsInfoSector == 0 then Failure(NotFound)
    else if ValidateFsInfo(fi) != Ok then Failure(ValidateFsInfo(fi))
    else
      var count := if fi.freeCount != 0xFFFF_FFFF then fi.freeCount else 0xFFFF_FFFF;
      var next := if fi.nextFree != 0xFFFF_FFFF && fi.nextFree >= 2 then fi.nextFree else 2;
      Success(Hints(count, next))
  }

  /** The hints after mounting: those of FSInfo, or an unknown count and hint 2 when it cannot be read. */
  function MountHints(fsInfoSector: u16, fi: FsInfo): (h: Hints)
    ensures h.nextFree >= 2
    ensures ReadFsInfo(fsInfoSector, fi).Failure? ==> h == Hints(0xFFFF_FFFF, 2)
  {
    match ReadFsInfo(fsInfoSector, fi)
    case Success(h) => h
    case Failure(_) => Hints(0xFFFF_FFFF, 2)
  }

  /** write_fsinfo: the stored structure with the current count and hint. */
  function WriteFsInfo(fsInfoSector: u16, fi: FsInfo, h: Hints): (r: Res<FsInfo>)
    ensures fsInfoSector == 0 <==> r == Failure(NotFound)
    ensures r.Success? ==> r.value.leadSig == fi.leadSig && r.value.structSig == fi.structSig && r.value.trailSig == fi.trailSig
  {
    if fsInfoSector == 0 then Failure(NotFound)
    else Success(fi.(freeCount := h.freeCount, nextFree := h.nextFree))
  }

  /** Hints written to a valid FSInfo sector read back unchanged, when the hint is a real cluster number. */
  lemma FsInfoRoundTrip(fsInfoSector: u16, fi: FsInfo, h: Hints)
    requires fsInfoSector != 0 && ValidateFsInfo(fi) == Ok
    requires 2 <= h.nextFree < 0xFFFF_FFFF
    ensures ReadFsInfo(fsInfoSector, WriteFsInfo(fsInfoSector, fi, h).value) == Success(h)
  {
  }
}
