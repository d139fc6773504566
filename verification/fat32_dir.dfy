/**
 FAT32 directory entries: the 8.3 short-name conversions, the file-name
 check, the deletion mark and the entry helpers of the directory header.
 */
module Fat32Dir {
  import opened Util
  import opened CTypes
  import opened Fat32Types

  // ---------------------------------------------------------------------
  // Entry helpers
  // ---------------------------------------------------------------------

  predicate IsFreeEntry(e: DirEntry) requires |e.name| == 11 {
    e.name[0] == EntryFree
  }

  predicate IsDeletedEntry(e: DirEntry) requires |e.name| == 11 {
    e.name[0] == EntryDeleted
  }

  predicate IsLongNameEntry(e: DirEntry) {
    e.attr == AttrLongName
  }

  /** Bit 4 (0x10) of the attribute byte. */
  predicate IsDirectory(e: DirEntry) {
    (e.attr / AttrDirectory) % 2 == 1
  }

  /** The first cluster, from its high and low halves. */
  function GetFirstCluster(e: DirEntry): (c: u32)
    ensures c % 0x1_0000 == e.firstClusterLow && c / 0x1_0000 == e.firstClusterHigh
  {
    e.firstClusterHigh * 0x1_0000 + e.firstClusterLow
  }

  /** Stores a 32-bit cluster number as its two 16-bit halves. */
  function SetFirstCluster(e: DirEntry, c: u32): (r: DirEntry)
    ensures r.name == e.name && r.attr == e.attr && r.fileSize == e.fileSize
  {
    e.(firstClusterHigh := c / 0x1_0000, firstClusterLow := c % 0x1_0000)
  }

  /** Reading back a stored cluster number gives it unchanged, for every 32-bit value. */
  lemma FirstClusterRoundTrip(e: DirEntry, c: u32)
    ensures GetFirstCluster(SetFirstCluster(e, c)) == c
  {
  }

  /** Storing the cluster number an entry already holds changes nothing. */
  lemma SetFirstClusterIdempotent(e: DirEntry)
    ensures SetFirstCluster(e, GetFirstCluster(e)) == e
  {
  }

  /** Marking an entry deleted: only the first name byte changes, to 0xE5. */
  function MarkDeleted(e: DirEntry): (r: DirEntry)
    requires |e.name| == 11
    ensures |r.name| == 11 && IsDeletedEntry(r) && !IsFreeEntry(r)
    ensures r.name[1..] == e.name[1..]
    ensures r == e.(name := r.name)
  {
    e.(name := [EntryDeleted] + e.name[1..])
  }

  // ---------------------------------------------------------------------
  // Short names
  // ---------------------------------------------------------------------

  const Blank: Char8 := ' '

  function Spaces(n: nat): (s: seq<Char8>)
    ensures |s| == n && forall i :: 0 <= i < n ==> s[i] == Blank
  {
    if n == 0 then [] else Spaces(n - 1) + [Blank]
  }

  /** The characters a short name keeps as they are (after upper-casing). */
  predicate ShortNameChar(c: Char8) {
    ('A' <= c <= 'Z') || ('0' <= c <= '9') || c == '_' || c == '-' || c == '~'
  }

  function ToUpper(c: Char8): Char8 {
    if 'a' <= c <= 'z' then (c as int - 'a' as int + 'A' as int) as char else c
  }

  /** One character of the long name as it appears in the short name. */
  function ShortChar(c: Char8): (r: Char8)
    ensures ShortNameChar(r)
    ensures ShortNameChar(c) ==> r == c
    ensures 'a' <= c <= 'z' ==> r == ToUpper(c)
  {
    var u := ToUpper(c);
    if ShortNameChar(u) then u else '_'
  }

  function ShortChars(s: seq<Char8>): (r: seq<Char8>)
    ensures |r| == |s| && forall i :: 0 <= i < |s| ==> r[i] == ShortChar(s[i])
  {
    if s == [] then [] else ShortChars(s[..|s| - 1]) + [ShortChar(s[|s| - 1])]
  }

  /** Where the base name ends and how much of the extension is kept. */
  datatype NameSplit = NameSplit(baseLen: nat, extStart: nat, extLen: nat)

  /**
   The split used by the conversion: the last dot separates the extension
   unless it is the first character; the base keeps at most 8 characters
   and the extension at most 3.
   */
  function SplitName(name: seq<Char8>): (p: NameSplit)
    ensures p.baseLen <= 8 && p.extLen <= 3
    ensures p.baseLen <= |name| && p.extStart + p.extLen <= |name|
  {
    var dot := LastIndex(name, '.');
    if dot > 0 then
      NameSplit(Min(dot, 8), dot + 1, Min(|name| - dot - 1, 3))
    else
      NameSplit(Min(|name|, 8), |name|, 0)
  }

  datatype Converted = Converted(status: FatError, short: seq<Char8>)

  /**
   convert_to_short_name: the 11-byte buffer is space-filled first; an empty
   name or one over 255 characters is rejected, leaving it blank.
   */
  function ToShortName(name: seq<Char8>): (r: Converted)
    ensures |r.short| == 11
    ensures r.status == InvalidName <==> |name| == 0 || |name| > MaxFilename
    ensures r.status != InvalidName ==> r.status == Ok
    ensures r.status == InvalidName ==> r.short == Spaces(11)
    ensures forall i :: 0 <= i < 11 ==> ShortNameChar(r.short[i]) || r.short[i] == Blank
  {
    if |name| == 0 || |name| > MaxFilename then Converted(InvalidName, Spaces(11))
    else
      var p := SplitName(name);
      var base := ShortChars(name[..p.baseLen]);
      var ext := ShortChars(name[p.extStart..p.extStart + p.extLen]);
      Converted(Ok, base + Spaces(8 - p.baseLen) + ext + Spaces(3 - p.extLen))
  }

  /** The base part of a converted name holds the first characters of the long name, mapped. */
  lemma ToShortNameBase(name: seq<Char8>, i: nat)
    requires 0 < |name| <= MaxFilename && i < 8
    ensures var p := SplitName(name);
      ToShortName(name).short[i] == if i < p.baseLen then ShortChar(name[i]) else Blank
  {
  }

  /** The extension part holds the characters after the last dot, mapped. */
  lemma ToShortNameExt(name: seq<Char8>, i: nat)
    requires 0 < |name| <= MaxFilename && i < 3
    ensures var p := SplitName(name);
      ToShortName(name).short[8 + i] == if i < p.extLen then ShortChar(name[p.extStart + i]) else Blank
  {
  }

  /** A leading dot does not start an extension: ".profile" keeps its dot (as `_`) in the base. */
  lemma LeadingDotIsNotExtension()
    ensures ToShortName(".ab").short == ['_', 'A', 'B', ' ', ' ', ' ', ' ', ' ', ' ', ' ', ' ']
  {
    assert LastIndex(".ab", '.') == 0;
  }

  /** The characters before the first space. */
  function TakeUntilSpace(s: seq<Char8>): (r: seq<Char8>)
    ensures |r| <= |s| && r == s[..|r|] && Blank !in r
    ensures |r| < |s| ==> s[|r|] == Blank
  {
    if s == [] || s[0] == Blank then [] else [s[0]] + TakeUntilSpace(s[1..])
  }

  /**
   convert_from_short_name: needs room for 12 characters and the terminator;
   the base stops at its first space, and a dot is added only when some
   extension byte is not a space.
   */
  function FromShortName(short: seq<Char8>, maxLen: nat): (r: Res<seq<Char8>>)
    requires |short| == 11
    ensures r.Failure? <==> maxLen < 13
    ensures r.Failure? ==> r.error == InvalidParam
    ensures r.Success? ==> |r.value| <= 12 && |r.value| < maxLen
  {
    if maxLen < 13 then Failure(InvalidParam)
    else
      var base := TakeUntilSpace(short[..8]);
      var hasExt := exists i :: 8 <= i < 11 && short[i] != Blank;
      Success(if hasExt then base + ['.'] + TakeUntilSpace(short[8..]) else base)
  }

  /** A conventional 8.3 name: 1-8 short-name characters, then optionally a dot and 1-3 more. */
  predicate Canonical83(name: seq<Char8>) {
    var dot := LastIndex(name, '.');
    if dot == -1 then
      1 <= |name| <= 8 && forall i :: 0 <= i < |name| ==> ShortNameChar(name[i])
    else
      && 1 <= dot <= 8 && 1 <= |name| - dot - 1 <= 3
      && (forall i :: 0 <= i < dot ==> ShortNameChar(name[i]))
      && (forall i :: dot < i < |name| ==> ShortNameChar(name[i]))
  }

  lemma ShortCharsKeep(s: seq<Char8>)
    requires forall i :: 0 <= i < |s| ==> ShortNameChar(s[i])
    ensures ShortChars(s) == s
  {
  }

  lemma TakeUntilSpaceOf(a: seq<Char8>, n: nat)
    requires Blank !in a
    ensures TakeUntilSpace(a + Spaces(n)) == a
    decreases |a|
  {
    if a == [] {
      assert a + Spaces(n) == Spaces(n);
    } else {
      assert (a + Spaces(n))[1..] == a[1..] + Spaces(n);
      TakeUntilSpaceOf(a[1..], n);
    }
  }

  /** The layout of a converted name: the mapped base and extension, each padded with spaces. */
  lemma ShortNameLayout(name: seq<Char8>, p: NameSplit)
    requires 0 < |name| <= MaxFilename && p == SplitName(name)
    ensures ToShortName(name) == Converted(Ok,
      ShortChars(name[..p.baseLen]) + Spaces(8 - p.baseLen)
      + ShortChars(name[p.extStart..p.extStart + p.extLen]) + Spaces(3 - p.extLen))
  {
  }

  /** The short name of a name without an extension: the name, padded with spaces. */
  lemma ShortNameNoDot(name: seq<Char8>)
    requires 1 <= |name| <= 8 && forall i :: 0 <= i < |name| ==> ShortNameChar(name[i])
    requires LastIndex(name, '.') == -1
    ensures ToShortName(name) == Converted(Ok, name + Spaces(8 - |name|) + Spaces(3))
  {
    var p := SplitName(name);
    assert p == NameSplit(|name|, |name|, 0);
    ShortNameLayout(name, p);
    assert name[..p.baseLen] == name;
    ShortCharsKeep(name);
    assert ShortChars(name[p.extStart..p.extStart + p.extLen]) == [];
    var pad := name + Spaces(8 - |name|);
    assert pad + [] == pad;
  }

  /** The short name of `base.ext`: each part padded to its field. */
  lemma ShortNameWithDot(name: seq<Char8>, dot: int)
    requires dot == LastIndex(name, '.') && 1 <= dot <= 8 && 1 <= |name| - dot - 1 <= 3
    requires forall i :: 0 <= i < dot ==> ShortNameChar(name[i])
    requires forall i :: dot < i < |name| ==> ShortNameChar(name[i])
    ensures ToShortName(name) ==
      Converted(Ok, name[..dot] + Spaces(8 - dot) + name[dot + 1..] + Spaces(3 - (|name| - dot - 1)))
  {
    var p := SplitName(name);
    assert p == NameSplit(dot, dot + 1, |name| - dot - 1);
    ShortNameLayout(name, p);
    var base, ext := name[..dot], name[dot + 1..];
    assert name[p.extStart..p.extStart + p.extLen] == ext;
    ShortCharsKeep(base);
    ShortCharsKeep(ext);
  }

  /** Reading back a short name made of padded base and extension fields. */
  lemma FromPadded(base: seq<Char8>, ext: seq<Char8>)
    requires 1 <= |base| <= 8 && |ext| <= 3 && Blank !in base && Blank !in ext
    ensures FromShortName(base + Spaces(8 - |base|) + ext + Spaces(3 - |ext|), 13)
      == Success(if ext == [] then base else base + ['.'] + ext)
  {
    var sn := base + Spaces(8 - |base|) + ext + Spaces(3 - |ext|);
    assert TakeUntilSpace(sn[..8]) == base by {
      assert sn[..8] == base + Spaces(8 - |base|);
      TakeUntilSpaceOf(base, 8 - |base|);
    }
    assert TakeUntilSpace(sn[8..]) == ext by {
      assert sn[8..] == ext + Spaces(3 - |ext|);
      TakeUntilSpaceOf(ext, 3 - |ext|);
    }
    assert (exists i :: 8 <= i < 11 && sn[i] != Blank) <==> ext != [] by {
      assert sn[8..] == ext + Spaces(3 - |ext|);
      if ext == [] {
        assert forall i :: 8 <= i < 11 ==> sn[i] == sn[8..][i - 8];
      } else {
        assert sn[8] == ext[0];
      }
    }
  }

  /** A conventional 8.3 name survives the conversion to a short name and back. */
  lemma ShortNameRoundTrip(name: seq<Char8>)
    requires Canonical83(name)
    ensures ToShortName(name).status == Ok
    ensures FromShortName(ToShortName(name).short, 13) == Success(name)
  {
    var dot := LastIndex(name, '.');
    if dot == -1 {
      ShortNameNoDot(name);
      assert name + Spaces(8 - |name|) + Spaces(3) == name + Spaces(8 - |name|) + [] + Spaces(3 - 0);
      FromPadded(name, []);
    } else {
      ShortNameWithDot(name, dot);
      assert name == name[..dot] + ['.'] + name[dot + 1..];
      FromPadded(name[..dot], name[dot + 1..]);
    }
  }

  /**
   compare_short_names: the difference of the first differing bytes of the
   11-byte names, or 0 when they are equal.
   */
  function CompareShortNames(a: seq<Char8>, b: seq<Char8>): (r: int)
    requires |a| == |b|
    ensures r == 0 <==> a == b
    ensures r != 0 ==> exists k :: 0 <= k < |a| && a[..k] == b[..k] && r == a[k] as int - b[k] as int
  {
    if |a| == 0 then 0
    else if a[0] != b[0] then
      assert a[..0] == b[..0];
      a[0] as int - b[0] as int
    else
      var r := CompareShortNames(a[1..], b[1..]);
      assert a == [a[0]] + a[1..] && b == [b[0]] + b[1..];
      if r != 0 then
        var k :| 0 <= k < |a[1..]| && a[1..][..k] == b[1..][..k] && r == a[1..][k] as int - b[1..][k] as int;
        assert a[..k + 1] == [a[0]] + a[1..][..k];
        assert b[..k + 1] == [b[0]] + b[1..][..k];
        r
      else r
  }

  /** Swapping the operands of the comparison negates it. */
  lemma {:induction false} CompareAntisymmetric(a: seq<Char8>, b: seq<Char8>)
    requires |a| == |b|
    ensures CompareShortNames(a, b) == -CompareShortNames(b, a)
  {
    if |a| > 0 && a[0] == b[0] {
      CompareAntisymmetric(a[1..], b[1..]);
    }
  }

  // ---------------------------------------------------------------------
  // File-name check
  // ---------------------------------------------------------------------

  /** The characters a file name may not contain, besides control characters. */
  const InvalidChars: seq<Char8> := "\\/:*?\"<>|"

  predicate BadNameChar(c: Char8) {
    c as int < 32 || c in InvalidChars
  }

  /**
   is_valid_filename: 1-255 characters, no control character and none of
   `\ / : * ? " < > |`, and neither `.` nor `..`.
   */
  predicate IsValidFilename(name: seq<Char8>) {
    && 0 < |name| <= MaxFilename
    && (forall i :: 0 <= i < |name| ==> !BadNameChar(name[i]))
    && name != "." && name != ".."
  }

  /** A valid file name always converts to a short name without error. */
  lemma ValidNameConverts(name: seq<Char8>)
    requires IsValidFilename(name)
    ensures ToShortName(name).status == Ok
  {
  }

  /** A name with a path separator or a control character is never valid. */
  lemma SeparatorInvalid(name: seq<Char8>, i: nat)
    requires i < |name| && (name[i] == '/' || name[i] == '\\' || name[i] as int < 32)
    ensures !IsValidFilename(name)
  {
    assert BadNameChar(name[i]);
  }
}
