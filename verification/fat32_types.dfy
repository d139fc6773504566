/**
 Shared vocabulary of the FAT32 driver: its size limits, the driver's
 status codes and the on-disk directory entry.
 */
module Fat32Types {

  import opened CTypes

  const SectorSize := 512
  const MaxFilename := 255
  const MaxPath := 1024

  /** First byte of a directory entry that ends the directory. */
  const EntryFree: Char8 := 0x00 as char
  /** First byte of a directory entry whose file was deleted. */
  const EntryDeleted: Char8 := 0xE5 as char

  const AttrReadOnly := 0x01
  const AttrHidden := 0x02
  const AttrSystem := 0x04
  const AttrVolumeId := 0x08
  const AttrDirectory := 0x10
  const AttrArchive := 0x20
  /** The attribute value that marks a long-name entry. */
  const AttrLongName := 0x0F

  /** The status codes of the driver, in the order of their numeric values 0..14. */
  datatype FatError =
    | Ok
    | InvalidParam
    | NotMounted
    | DiskError
    | NotFound
    | AlreadyExists
    | NoSpace
    | AccessDenied
    | InvalidName
    | TooManyOpenFiles
    | EndOfFile
    | DirectoryNotEmpty
    | NotAFile
    | NotADirectory
    | Corrupted

  /** A short (8.3) directory entry; the reserved and timestamp fields the model does not use are left out. */
  datatype DirEntry = DirEntry(
    name: seq<Char8>,
    attr: u8,
    firstClusterHigh: u16,
    firstClusterLow: u16,
    fileSize: u32)

  /** The outcome of an operation that yields a value or a status code. */
  datatype Res<T> = Success(value: T) | Failure(error: FatError)
}
