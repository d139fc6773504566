/**
 The disk layer under the FAT32 driver in its memory-backed mode: a 64 MiB
 byte array addressed in 512-byte sectors, with counters of reads, writes
 and errors.
 */
module Fat32Disk {
  import opened CTypes
  import opened Fat32Types

  const DiskSize := 64 * 1024 * 1024
  const TotalSectors := DiskSize / SectorSize

  datatype Disk = Disk(
    data: seq<u8>,
    totalSectors: u32,
    initialized: bool,
    readCount: u32,
    writeCount: u32,
    errorCount: u32)

  /** The byte array holds exactly the sectors the disk reports. */
  predicate Backed(d: Disk) {
    |d.data| == d.totalSectors * SectorSize
  }

  /** A counter after one more event; the counters are uint32 and wrap. */
  function Bump(n: u32): u32 {
    (n + 1) % Word32
  }

  /** disk_init in memory mode: a zeroed 64 MiB disk with all counters reset. */
  function Init(): (d: Disk)
    ensures d.initialized && Backed(d) && d.totalSectors == 131072
    ensures d.readCount == 0 && d.writeCount == 0 && d.errorCount == 0
    ensures forall i :: 0 <= i < |d.data| ==> d.data[i] == 0
  {
    Disk(seq(DiskSize, _ => 0), TotalSectors, true, 0, 0, 0)
  }

  /** is_valid_sector: the disk is set up and the sector lies below the sector count. */
  predicate IsValidSector(d: Disk, sector: u32) {
    d.initialized && sector < d.totalSectors
  }

  /**
   The range check as written adds the sector number and the count in
   uint32, so a range running past 2^32 sectors wraps to a small sum.
   */
  function CheckAsWritten(d: Disk, sector: u32, count: u32): FatError
  {
    if !d.initialized then DiskError
    else if (sector + count) % Word32 > d.totalSectors then InvalidParam
    else Ok
  }

  /** The range check: the disk is set up and the whole range lies on it. */
  function Check(d: Disk, sector: u32, count: u32): (e: FatError)
    ensures e == Ok || e == DiskError || e == InvalidParam
    ensures e == DiskError <==> !d.initialized
    ensures e == Ok <==> d.initialized && sector + count <= d.totalSectors
  {
    if !d.initialized then DiskError
    else if sector + count > d.totalSectors then InvalidParam
    else Ok
  }

  /** The last sector's number plus one wraps to zero, and the range check as written lets it through. */
  lemma CheckAcceptsWrappedRange()
    ensures CheckAsWritten(Init(), 0xFFFF_FFFF, 1) == Ok
    ensures Check(Init(), 0xFFFF_FFFF, 1) == InvalidParam
    ensures (0xFFFF_FFFF + 1) * SectorSize > |Init().data|
  {
  }

  /** Where the sum fits in 32 bits, both checks agree. */
  lemma CheckAgreesWithoutWrap(d: Disk, sector: u32, count: u32)
    requires sector + count < Word32
    ensures CheckAsWritten(d, sector, count) == Check(d, sector, count)
  {
  }

  /** The disk after a refused transfer: one more error. */
  function Refused(d: Disk): Disk {
    d.(errorCount := Bump(d.errorCount))
  }

  datatype ReadOutcome = ReadOutcome(disk: Disk, result: Res<seq<u8>>)

  /**
   read_sectors: a refused range counts an error; a read inside the disk
   returns the sectors' bytes and counts a read.
   */
  function ReadSectors(d: Disk, sector: u32, count: u32): (r: ReadOutcome)
    requires Backed(d) && count > 0
    ensures r.result.Failure? <==> Check(d, sector, count) != Ok
    ensures r.result.Failure? ==> r.result.error == Check(d, sector, count) && r.disk == Refused(d)
    ensures r.result.Success? ==>
      && |r.result.value| == count * SectorSize
      && (forall i :: 0 <= i < |r.result.value| ==> r.result.value[i] == d.data[sector * SectorSize + i])
      && r.disk == d.(readCount := Bump(d.readCount))
  {
    var e := Check(d, sector, count);
    if e != Ok then ReadOutcome(Refused(d), Failure(e))
    else ReadOutcome(d.(readCount := Bump(d.readCount)), Success(d.data[sector * SectorSize..(sector + count) * SectorSize]))
  }

  datatype WriteOutcome = WriteOutcome(disk: Disk, status: FatError)

  /**
   write_sectors: a refused range counts an error; a write inside the disk
   replaces the sectors' bytes, leaves every other byte, and counts a write.
   */
  function WriteSectors(d: Disk, sector: u32, count: u32, buf: seq<u8>): (r: WriteOutcome)
    requires Backed(d) && count > 0 && |buf| == count * SectorSize
    ensures Backed(r.disk) && r.disk.totalSectors == d.totalSectors && r.disk.initialized == d.initialized
    ensures r.status == Check(d, sector, count)
    ensures r.status != Ok ==> r.disk == Refused(d)
    ensures r.status == Ok ==>
      && r.disk.readCount == d.readCount && r.disk.errorCount == d.errorCount
      && r.disk.writeCount == Bump(d.writeCount)
      && (forall i :: 0 <= i < |buf| ==> r.disk.data[sector * SectorSize + i] == buf[i])
      && (forall i :: 0 <= i < |d.data| && !(sector * SectorSize <= i < (sector + count) * SectorSize) ==>
            r.disk.data[i] == d.data[i])
  {
    var e := Check(d, sector, count);
    if e != Ok then WriteOutcome(Refused(d), e)
    else
      var lo, hi := sector * SectorSize, (sector + count) * SectorSize;
      WriteOutcome(d.(data := d.data[..lo] + buf + d.data[hi..], writeCount := Bump(d.writeCount)), Ok)
  }

  /** Reading back the sectors just written gives the written bytes. */
  lemma ReadBackWritten(d: Disk, sector: u32, count: u32, buf: seq<u8>)
    requires Backed(d) && count > 0 && |buf| == count * SectorSize
    requires WriteSectors(d, sector, count, buf).status == Ok
    ensures ReadSectors(WriteSectors(d, sector, count, buf).disk, sector, count).result == Success(buf)
  {
  }

  /** A one-sector read succeeds exactly on a valid sector. */
  lemma ValidSectorReads(d: Disk, sector: u32)
    requires Backed(d)
    ensures ReadSectors(d, sector, 1).result.Success? <==> IsValidSector(d, sector)
  {
  }
}
