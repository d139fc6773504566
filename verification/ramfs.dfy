/**
 The in-memory file system: a table of 256 file slots, a slot being free
 when its name is empty. A file's data blocks are represented by the
 identifier of its first block; the blocks' bytes and the reads and writes
 through them are not modelled. The set of released blocks records what
 unlinking gives back to the page allocator.
 */
module Ramfs {
  import opened Util
  import opened CTypes

  const MaxFiles := 256
  /** The name field's size; a stored name holds at most 511 characters and its terminator. */
  const NameField := 512

  const SeekSet := 1
  const SeekCur := 2
  const SeekEnd := 3

  datatype File = File(name: seq<Char8>, size: u32, content: nat, offset: u32, nlink: u32)

  /** A slot cleared to zero. */
  const Empty := File([], 0, 0, 0, 0)

  datatype Fs = Fs(files: seq<File>, released: set<nat>)

  predicate WellSized(fs: Fs) {
    |fs.files| == MaxFiles
  }

  predicate InUse(f: File) {
    |f.name| > 0
  }

  /** No file still in use has its data blocks released. */
  predicate NoDangling(fs: Fs) {
    forall i :: 0 <= i < |fs.files| && InUse(fs.files[i]) ==> fs.files[i].content !in fs.released
  }

  /** The first slot whose stored name equals a name; an empty name matches a free slot. */
  function Lookup(files: seq<File>, name: seq<Char8>): (r: Option<nat>)
    ensures r.Some? ==> r.value < |files| && files[r.value].name == name
    ensures r.Some? ==> forall j :: 0 <= j < r.value ==> files[j].name != name
    ensures r.None? ==> forall j :: 0 <= j < |files| ==> files[j].name != name
  {
    if |files| == 0 then None
    else if files[0].name == name then Some(0)
    else match Lookup(files[1..], name)
      case None => None
      case Some(k) => Some(k + 1)
  }

  /** The first free slot. */
  function FirstFree(files: seq<File>): (r: Option<nat>)
    ensures r.Some? ==> r.value < |files| && !InUse(files[r.value])
    ensures r.Some? ==> forall j :: 0 <= j < r.value ==> InUse(files[j])
    ensures r.None? ==> forall j :: 0 <= j < |files| ==> InUse(files[j])
  {
    if |files| == 0 then None
    else if !InUse(files[0]) then Some(0)
    else match FirstFree(files[1..])
      case None => None
      case Some(k) => Some(k + 1)
  }

  /** A name as memcpy of 511 bytes and a terminator leave it in the name field. */
  function Stored(name: seq<Char8>): (s: seq<Char8>)
    ensures |s| <= |name| && |s| < NameField && s == name[..|s|]
    ensures |name| < NameField ==> s == name
  {
    if |name| < NameField then name else name[..NameField - 1]
  }

  datatype Outcome = Outcome(fs: Fs, ret: int)

  /**
   ramfs_open: an existing name gets its offset reset and its slot back; a
   new name takes the first free slot with size 0, offset 0, one link and
   the fresh block `block`; a full table gives -1.
   */
  function Open(fs: Fs, name: seq<Char8>, block: nat): (r: Outcome)
    requires WellSized(fs) && |name| < NameField
    ensures WellSized(r.fs)
    ensures r.fs.released == if Lookup(fs.files, name).None? && FirstFree(fs.files).Some? then fs.released - {block} else fs.released
    ensures Lookup(fs.files, name).Some? ==>
      var i := Lookup(fs.files, name).value;
      r.ret == i && r.fs.files == fs.files[i := fs.files[i].(offset := 0)]
    ensures Lookup(fs.files, name).None? && FirstFree(fs.files).Some? ==>
      var i := FirstFree(fs.files).value;
      r.ret == i && r.fs.files == fs.files[i := File(name, 0, block, 0, 1)]
    ensures Lookup(fs.files, name).None? && FirstFree(fs.files).None? ==> r == Outcome(fs, -1)
    ensures r.ret == -1 <==> Lookup(fs.files, name).None? && FirstFree(fs.files).None?
  {
    match Lookup(fs.files, name)
    case Some(i) => Outcome(fs.(files := fs.files[i := fs.files[i].(offset := 0)]), i)
    case None =>
      match FirstFree(fs.files)
      case None => Outcome(fs, -1)
      case Some(i) => Outcome(Fs(fs.files[i := File(name, 0, block, 0, 1)], fs.released - {block}), i)
  }

  /** Opening the same name twice returns the same slot, and the second open only resets the offset. */
  lemma OpenTwice(fs: Fs, name: seq<Char8>, block: nat, block2: nat)
    requires WellSized(fs) && |name| < NameField && Open(fs, name, block).ret >= 0
    ensures Open(Open(fs, name, block).fs, name, block2).ret == Open(fs, name, block).ret
    ensures Open(Open(fs, name, block).fs, name, block2).fs == Open(fs, name, block).fs
  {
    var r := Open(fs, name, block);
    var i := r.ret;
    assert r.fs.files[i].name == name;
    assert forall j :: 0 <= j < i ==> r.fs.files[j] == fs.files[j];
    assert r.fs.files[i].offset == 0;
  }

  /** A descriptor names a slot in use. */
  predicate ValidFd(fs: Fs, fd: int) {
    0 <= fd < |fs.files| && InUse(fs.files[fd])
  }

  /**
   ramfs_lseek: for a valid descriptor and a known whence, the offset
   moves to the target when 0 <= target <= size and the target is returned;
   every other case returns -1 and moves nothing.
   */
  function Lseek(fs: Fs, fd: int, offset: i64, whence: int): (r: Outcome)
    requires WellSized(fs)
    ensures r.ret == -1 ==> r.fs == fs
    ensures r.ret != -1 <==>
      && ValidFd(fs, fd)
      && (whence == SeekSet || whence == SeekCur || whence == SeekEnd)
      && 0 <= LseekTarget(fs.files[fd], offset, whence) <= fs.files[fd].size
    ensures r.ret != -1 ==>
      r.ret == LseekTarget(fs.files[fd], offset, whence)
      && r.fs == fs.(files := fs.files[fd := fs.files[fd].(offset := r.ret)])
  {
    if !ValidFd(fs, fd) then Outcome(fs, -1)
    else if !(whence == SeekSet || whence == SeekCur || whence == SeekEnd) then Outcome(fs, -1)
    else
      var t := LseekTarget(fs.files[fd], offset, whence);
      if t < 0 || t > fs.files[fd].size then Outcome(fs, -1)
      else Outcome(fs.(files := fs.files[fd := fs.files[fd].(offset := t)]), t)
  }

  /** The target of a seek from the start, the current offset or the end. */
  function LseekTarget(f: File, offset: int, whence: int): int {
    if whence == SeekSet then offset
    else if whence == SeekCur then f.offset + offset
    else f.size + offset
  }

  /** After a successful seek, a relative seek by zero returns the same offset. */
  lemma LseekStays(fs: Fs, fd: int, offset: i64, whence: int)
    requires WellSized(fs) && Lseek(fs, fd, offset, whence).ret != -1
    ensures Lseek(Lseek(fs, fd, offset, whence).fs, fd, 0, SeekCur).ret == Lseek(fs, fd, offset, whence).ret
  {
  }

  /** Seeking to the end returns the size. */
  lemma LseekEnd(fs: Fs, fd: int)
    requires WellSized(fs) && ValidFd(fs, fd)
    ensures Lseek(fs, fd, 0, SeekEnd).ret == fs.files[fd].size
  {
  }

  /** ramfs_close: resets the offset of a valid descriptor; -1 otherwise. */
  function Close(fs: Fs, fd: int): (r: Outcome)
    requires WellSized(fs)
    ensures r.ret == 0 <==> ValidFd(fs, fd)
    ensures r.ret != 0 ==> r == Outcome(fs, -1)
    ensures r.ret == 0 ==> r.fs == fs.(files := fs.files[fd := fs.files[fd].(offset := 0)])
  {
    if !ValidFd(fs, fd) then Outcome(fs, -1)
    else Outcome(fs.(files := fs.files[fd := fs.files[fd].(offset := 0)]), 0)
  }

  /**
   ramfs_link: fails when the old name is missing, the new name exists or
   the table is full; otherwise the first free slot becomes an entry with
   the new name, the old file's size and data, offset 0 and one link, and
   the old entry's link count goes up by one.
   */
  function Link(fs: Fs, oldName: seq<Char8>, newName: seq<Char8>): (r: Outcome)
    requires WellSized(fs)
    ensures WellSized(r.fs) && r.fs.released == fs.released
    ensures r.ret == -1 <==>
      Lookup(fs.files, oldName).None? || Lookup(fs.files, newName).Some? || FirstFree(fs.files).None?
    ensures r.ret == -1 ==> r.fs == fs
    ensures r.ret != -1 ==>
      var o := Lookup(fs.files, oldName).value;
      var i := FirstFree(fs.files).value;
      && r.ret == i
      && r.fs.files[i].name == Stored(newName) && r.fs.files[i].size == fs.files[o].size
      && r.fs.files[i].content == fs.files[o].content && r.fs.files[i].offset == 0
      && (o != i ==> r.fs.files[i].nlink == 1 && r.fs.files[o].nlink == (fs.files[o].nlink + 1) % Word32)
      && (forall j :: 0 <= j < MaxFiles && j != i && j != o ==> r.fs.files[j] == fs.files[j])
  {
    match Lookup(fs.files, oldName)
    case None => Outcome(fs, -1)
    case Some(o) =>
      if Lookup(fs.files, newName).Some? then Outcome(fs, -1)
      else match FirstFree(fs.files)
        case None => Outcome(fs, -1)
        case Some(i) =>
          var src := fs.files[o];
          var files1 := fs.files[i := File(Stored(newName), src.size, src.content, 0, 1)];
          var files2 := files1[o := files1[o].(nlink := (files1[o].nlink + 1) % Word32)];
          Outcome(fs.(files := files2), i)
  }

  /**
   ramfs_unlink as written: an entry with more than one link loses one;
   otherwise its data blocks are released and the slot is cleared. The
   link count is the entry's own, so unlinking a hard link releases blocks
   the original entry still uses.
   */
  function UnlinkAsWritten(fs: Fs, name: seq<Char8>): (r: Outcome)
    requires WellSized(fs)
    ensures WellSized(r.fs)
    ensures r.ret == -1 <==> Lookup(fs.files, name).None?
    ensures r.ret == -1 ==> r.fs == fs
  {
    match Lookup(fs.files, name)
    case None => Outcome(fs, -1)
    case Some(i) =>
      var f := fs.files[i];
      if f.nlink > 1 then Outcome(fs.(files := fs.files[i := f.(nlink := f.nlink - 1)]), 0)
      else Outcome(Fs(fs.files[i := Empty], fs.released + {f.content}), 0)
  }

  /** Another slot in use refers to the same data blocks. */
  predicate Shared(files: seq<File>, i: nat)
    requires i < |files|
  {
    exists j :: 0 <= j < |files| && j != i && InUse(files[j]) && files[j].content == files[i].content
  }

  /**
   ramfs_unlink with the evident intent: as written, except that the data
   blocks are released only when no other entry still refers to them.
   */
  function Unlink(fs: Fs, name: seq<Char8>): (r: Outcome)
    requires WellSized(fs)
    ensures WellSized(r.fs)
    ensures r.ret == -1 <==> Lookup(fs.files, name).None?
    ensures r.ret == -1 ==> r.fs == fs
    ensures r.ret == 0 ==>
      var i := Lookup(fs.files, name).value;
      && (fs.files[i].nlink > 1 ==> r.fs.files == fs.files[i := fs.files[i].(nlink := fs.files[i].nlink - 1)])
      && (fs.files[i].nlink <= 1 ==> r.fs.files == fs.files[i := Empty])
      && (fs.files[i].nlink <= 1 && !Shared(fs.files, i) ==> r.fs.released == fs.released + {fs.files[i].content})
      && (fs.files[i].nlink > 1 || Shared(fs.files, i) ==> r.fs.released == fs.released)
  {
    match Lookup(fs.files, name)
    case None => Outcome(fs, -1)
    case Some(i) =>
      var f := fs.files[i];
      if f.nlink > 1 then Outcome(fs.(files := fs.files[i := f.(nlink := f.nlink - 1)]), 0)
      else if Shared(fs.files, i) then Outcome(fs.(files := fs.files[i := Empty]), 0)
      else Outcome(Fs(fs.files[i := Empty], fs.released + {f.content}), 0)
  }

  /** Opening with a fresh block, linking and unlinking keep every file's blocks unreleased. */
  lemma NoDanglingKept(fs: Fs, name: seq<Char8>, other: seq<Char8>, block: nat)
    requires WellSized(fs) && NoDangling(fs) && 0 < |name| < NameField
    requires forall i :: 0 <= i < MaxFiles && InUse(fs.files[i]) ==> fs.files[i].content != block
    ensures NoDangling(Open(fs, name, block).fs)
    ensures NoDangling(Link(fs, name, other).fs)
    ensures NoDangling(Unlink(fs, name).fs)
  {
    var r := Unlink(fs, name);
    if r.ret == 0 {
      var i := Lookup(fs.files, name).value;
      if fs.files[i].nlink <= 1 && !Shared(fs.files, i) {
        forall j | 0 <= j < MaxFiles && InUse(r.fs.files[j]) ensures r.fs.files[j].content !in r.fs.released {
          assert j != i;
          assert r.fs.files[j] == fs.files[j];
        }
      }
    }
    var l := Link(fs, name, other);
    if l.ret != -1 {
      var o := Lookup(fs.files, name).value;
      var i := FirstFree(fs.files).value;
      forall j | 0 <= j < MaxFiles && InUse(l.fs.files[j]) ensures l.fs.files[j].content !in l.fs.released {
        if j != i && j != o {
          assert l.fs.files[j] == fs.files[j];
        }
      }
    }
  }

  /** The file system in which only "a" exists, with one link and data block 7. */
  function OneFile(): (fs: Fs)
    ensures WellSized(fs)
  {
    Fs([File(['a'], 5, 7, 0, 1)] + seq(MaxFiles - 1, _ => Empty), {})
  }

  /** Linking "a" to "b" and unlinking "b" releases the blocks "a" still uses, as written; not so when corrected. */
  lemma UnlinkLinkDangles()
    ensures var l := Link(OneFile(), ['a'], ['b']).fs;
      && l.files[0].name == ['a'] && l.files[1].name == ['b']
      && UnlinkAsWritten(l, ['b']).fs.files[0].name == ['a']
      && 7 in UnlinkAsWritten(l, ['b']).fs.released
      && !NoDangling(UnlinkAsWritten(l, ['b']).fs)
      && NoDangling(Unlink(l, ['b']).fs)
  {
    var fs := OneFile();
    assert Lookup(fs.files, ['a']) == Some(0);
    assert fs.files[1..][0] == Empty;
    assert FirstFree(fs.files) == Some(1);
    assert forall j :: 0 <= j < MaxFiles ==> fs.files[j].name != ['b'] by {
      forall j | 0 <= j < MaxFiles ensures fs.files[j].name != ['b'] {
        if j > 0 {
          assert fs.files[j] == Empty;
        }
      }
    }
    var l := Link(fs, ['a'], ['b']).fs;
    assert l.files[1].name == ['b'];
    assert Lookup(l.files, ['b']) == Some(1);
    assert l.files[0].content == 7 && l.files[1].content == 7;
    assert Shared(l.files, 1);
    var w := UnlinkAsWritten(l, ['b']).fs;
    assert w.files[0] == l.files[0];
    var c := Unlink(l, ['b']).fs;
    assert c.released == {};
  }

  /**
   ramfs_rename: fails when the old name is missing or the new name exists;
   otherwise only the entry's name changes, to the new name as stored.
   */
  function Rename(fs: Fs, oldName: seq<Char8>, newName: seq<Char8>): (r: Outcome)
    requires WellSized(fs)
    ensures WellSized(r.fs) && r.fs.released == fs.released
    ensures r.ret == -1 <==> Lookup(fs.files, oldName).None? || Lookup(fs.files, newName).Some?
    ensures r.ret == -1 ==> r.fs == fs
    ensures r.ret == 0 ==>
      var i := Lookup(fs.files, oldName).value;
      r.fs.files == fs.files[i := fs.files[i].(name := Stored(newName))]
  {
    match Lookup(fs.files, oldName)
    case None => Outcome(fs, -1)
    case Some(i) =>
      if Lookup(fs.files, newName).Some? then Outcome(fs, -1)
      else Outcome(fs.(files := fs.files[i := fs.files[i].(name := Stored(newName))]), 0)
  }

  /** No two slots in use carry the same name. */
  predicate UniqueNames(fs: Fs) {
    forall i, j :: 0 <= i < j < |fs.files| && InUse(fs.files[i]) ==> fs.files[i].name != fs.files[j].name
  }

  /** A name carried by exactly one slot is found there. */
  lemma LookupOnly(files: seq<File>, name: seq<Char8>, i: nat)
    requires i < |files| && files[i].name == name
    requires forall j :: 0 <= j < |files| && j != i ==> files[j].name != name
    ensures Lookup(files, name) == Some(i)
  {
  }

  /**
   Every operation keeps names unique when the names it is given fit the
   name field: open, link and rename only ever store a name no slot carries.
   */
  lemma UniqueNamesKept(fs: Fs, a: seq<Char8>, b: seq<Char8>, block: nat)
    requires WellSized(fs) && UniqueNames(fs) && |a| < NameField && |b| < NameField
    ensures UniqueNames(Open(fs, a, block).fs)
    ensures UniqueNames(Link(fs, a, b).fs)
    ensures UniqueNames(Unlink(fs, a).fs)
    ensures UniqueNames(Rename(fs, a, b).fs)
  {
    assert UniqueNames(Open(fs, a, block).fs) by { OpenKeepsUnique(fs, a, block); }
    assert UniqueNames(Link(fs, a, b).fs) by { LinkKeepsUnique(fs, a, b); }
    assert UniqueNames(Unlink(fs, a).fs) by { UnlinkKeepsUnique(fs, a); }
    assert UniqueNames(Rename(fs, a, b).fs) by { RenameKeepsUnique(fs, a, b); }
  }

  /** Open creates a file only under a name no slot carries. */
  lemma OpenKeepsUnique(fs: Fs, a: seq<Char8>, block: nat)
    requires WellSized(fs) && UniqueNames(fs) && |a| < NameField
    ensures UniqueNames(Open(fs, a, block).fs)
  {
  }

  /** Unlink only frees a slot. */
  lemma UnlinkKeepsUnique(fs: Fs, a: seq<Char8>)
    requires WellSized(fs) && UniqueNames(fs)
    ensures UniqueNames(Unlink(fs, a).fs)
  {
  }

  /** Rename stores the new name only when no slot carries it. */
  lemma RenameKeepsUnique(fs: Fs, a: seq<Char8>, b: seq<Char8>)
    requires WellSized(fs) && UniqueNames(fs) && |b| < NameField
    ensures UniqueNames(Rename(fs, a, b).fs)
  {
  }

  /** A link stores the new name in a free slot only when no slot carries it. */
  lemma LinkKeepsUnique(fs: Fs, a: seq<Char8>, b: seq<Char8>)
    requires WellSized(fs) && UniqueNames(fs) && |b| < NameField
    ensures UniqueNames(Link(fs, a, b).fs)
  {
    var l := Link(fs, a, b);
    if l.ret != -1 {
      var o := Lookup(fs.files, a).value;
      var i := FirstFree(fs.files).value;
      forall x, y | 0 <= x < y < MaxFiles && InUse(l.fs.files[x]) ensures l.fs.files[x].name != l.fs.files[y].name {
        if x != i && x != o && y != i && y != o {
          assert l.fs.files[x] == fs.files[x] && l.fs.files[y] == fs.files[y];
        }
      }
    }
  }

  /** Renaming a file there and back restores the table, for names that fit the name field. */
  lemma RenameBack(fs: Fs, a: seq<Char8>, b: seq<Char8>)
    requires WellSized(fs) && UniqueNames(fs) && 0 < |a| < NameField && 0 < |b| < NameField
    requires Rename(fs, a, b).ret == 0
    ensures Rename(Rename(fs, a, b).fs, b, a) == Outcome(fs, 0)
  {
    var i := Lookup(fs.files, a).value;
    var r := Rename(fs, a, b).fs;
    assert r.files == fs.files[i := fs.files[i].(name := b)];
    LookupOnly(r.files, b, i);
    assert Lookup(r.files, a).None? by {
      forall j | 0 <= j < MaxFiles ensures r.files[j].name != a {
        if j != i {
          assert fs.files[j].name != fs.files[i].name;
        }
      }
    }
    assert r.files[i := r.files[i].(name := a)] == fs.files;
  }
}
