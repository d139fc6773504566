/**
 FAT32 utility functions: path normalisation, splitting and joining, the
 packed FAT date and time fields, and the long-name checksum of a short name.
 */
module Fat32Utils {
  import opened Util
  import opened CTypes
  import opened Fat32Types

  // ---------------------------------------------------------------------
  // Paths
  // ---------------------------------------------------------------------

  predicate IsSeparator(c: Char8) {
    c == '/' || c == '\\'
  }

  /**
   The copy loop of normalize_path: every run of separators becomes a
   single `/`; `lastSlash` says whether the previous output was a slash.
   */
  function Collapse(s: seq<Char8>, lastSlash: bool): (r: seq<Char8>)
    ensures |r| <= |s|
    ensures |s| > 0 && !lastSlash ==> |r| > 0
    ensures forall i :: 0 <= i < |r| ==> r[i] != '\\'
  {
    if s == [] then []
    else if IsSeparator(s[0]) then
      if lastSlash then Collapse(s[1..], true) else ['/'] + Collapse(s[1..], true)
    else [s[0]] + Collapse(s[1..], false)
  }

  /** No two slashes in a row. */
  predicate NoDoubleSlash(r: seq<Char8>) {
    forall i :: 0 <= i < |r| - 1 ==> !(r[i] == '/' && r[i + 1] == '/')
  }

  /** The shape every normalised path has. */
  predicate IsNormalized(r: seq<Char8>) {
    && |r| > 0 && r[0] == '/'
    && (forall i :: 0 <= i < |r| ==> r[i] != '\\')
    && NoDoubleSlash(r)
    && (|r| > 1 ==> r[|r| - 1] != '/')
  }

  /**
   normalize_path: an empty path or one of max_len characters or more is
   rejected; separators are collapsed, a `/` is put in front when the
   result does not start with one (if it still fits), and one trailing `/`
   is removed unless the path is the root.
   */
  function NormalizePath(path: seq<Char8>, maxLen: nat): (r: Res<seq<Char8>>)
    ensures |path| == 0 || |path| >= maxLen ==> r == Failure(InvalidParam)
    ensures r.Failure? ==> r.error == InvalidParam
    ensures r.Success? ==> |r.value| < maxLen
  {
    if |path| == 0 || |path| >= maxLen then Failure(InvalidParam)
    else
      var c := Collapse(path, false);
      if c[0] != '/' && |c| >= maxLen - 1 then Failure(InvalidParam)
      else
        var d := if c[0] != '/' then ['/'] + c else c;
        Success(if |d| > 1 && d[|d| - 1] == '/' then d[..|d| - 1] else d)
  }

  lemma {:induction false} CollapseNoDouble(s: seq<Char8>, lastSlash: bool)
    ensures var r := Collapse(s, lastSlash);
      NoDoubleSlash(r) && (lastSlash && |r| > 0 ==> r[0] != '/')
  {
    if s != [] {
      CollapseNoDouble(s[1..], IsSeparator(s[0]));
    }
  }

  /** A slash at the end of the collapsed text follows a non-slash, unless it is all there is. */
  lemma {:induction false} CollapseFirst(s: seq<Char8>)
    requires |s| > 0
    ensures Collapse(s, false)[0] == '/' <==> IsSeparator(s[0])
  {
  }

  /** Every successful normalisation has the normalised shape. */
  lemma NormalizeShape(path: seq<Char8>, maxLen: nat)
    requires NormalizePath(path, maxLen).Success?
    ensures IsNormalized(NormalizePath(path, maxLen).value)
  {
    var c := Collapse(path, false);
    CollapseNoDouble(path, false);
    var d := if c[0] != '/' then ['/'] + c else c;
    assert NoDoubleSlash(d) by {
      if c[0] != '/' {
        forall i | 0 <= i < |d| - 1 ensures !(d[i] == '/' && d[i + 1] == '/') {
          if i > 0 { assert d[i] == c[i - 1] && d[i + 1] == c[i]; }
        }
      }
    }
    var r := NormalizePath(path, maxLen).value;
    if |d| > 1 && d[|d| - 1] == '/' {
      assert r == d[..|d| - 1];
      assert d[|d| - 2] != '/';
    }
  }

  /** Collapsing text that is already collapsed changes nothing. */
  lemma {:induction false} CollapseFixed(r: seq<Char8>, lastSlash: bool)
    requires (forall i :: 0 <= i < |r| ==> r[i] != '\\') && NoDoubleSlash(r)
    requires lastSlash && |r| > 0 ==> r[0] != '/'
    ensures Collapse(r, lastSlash) == r
  {
    if r != [] {
      assert r == [r[0]] + r[1..];
      CollapseFixed(r[1..], r[0] == '/');
    }
  }

  /** A normalised path is left as it is: normalisation is idempotent. */
  lemma NormalizeFixedPoint(r: seq<Char8>, maxLen: nat)
    requires IsNormalized(r) && |r| < maxLen
    ensures NormalizePath(r, maxLen) == Success(r)
  {
    CollapseFixed(r, false);
  }

  lemma NormalizeIdempotent(path: seq<Char8>, maxLen: nat)
    requires NormalizePath(path, maxLen).Success?
    ensures var r := NormalizePath(path, maxLen).value; NormalizePath(r, maxLen) == Success(r)
  {
    NormalizeShape(path, maxLen);
    NormalizeFixedPoint(NormalizePath(path, maxLen).value, maxLen);
  }

  /** The non-separator characters of a text, in order. */
  function Words(s: seq<Char8>): seq<Char8> {
    if s == [] then [] else (if IsSeparator(s[0]) then [] else [s[0]]) + Words(s[1..])
  }

  /** Collapsing keeps every other character, in order. */
  lemma {:induction false} CollapseKeepsWords(s: seq<Char8>, lastSlash: bool)
    ensures Words(Collapse(s, lastSlash)) == Words(s)
  {
    if s != [] {
      CollapseKeepsWords(s[1..], IsSeparator(s[0]));
      var t := Collapse(s[1..], IsSeparator(s[0]));
      if IsSeparator(s[0]) && !lastSlash {
        assert (['/'] + t)[1..] == t;
      } else if !IsSeparator(s[0]) {
        assert ([s[0]] + t)[1..] == t;
      }
    }
  }

  /** The index of the last separator, or -1. */
  function LastSeparator(s: seq<Char8>): (i: int)
    ensures -1 <= i < |s|
    ensures i >= 0 ==> IsSeparator(s[i]) && forall j :: i < j < |s| ==> !IsSeparator(s[j])
    ensures i == -1 ==> forall j :: 0 <= j < |s| ==> !IsSeparator(s[j])
  {
    if s == [] then -1
    else if IsSeparator(s[|s| - 1]) then |s| - 1
    else LastSeparator(s[..|s| - 1])
  }

  datatype SplitPath = SplitPath(dir: seq<Char8>, file: seq<Char8>)

  /**
   split_path: the last separator divides directory from file name; with
   none the directory is `/`, and a separator at the start keeps a
   one-character directory. Each part must fit its buffer.
   */
  function Split(full: seq<Char8>, maxDir: nat, maxName: nat): (r: Res<SplitPath>)
    ensures |full| == 0 ==> r == Failure(InvalidParam)
    ensures r.Failure? ==> r.error == InvalidParam
    ensures r.Success? ==> |r.value.dir| < maxDir || r.value.dir == "/"
    ensures r.Success? ==> |r.value.file| < maxName
    ensures r.Success? ==> forall j :: 0 <= j < |r.value.file| ==> !IsSeparator(r.value.file[j])
  {
    if |full| == 0 then Failure(InvalidParam)
    else
      var k := LastSeparator(full);
      if k == -1 then
        if |full| >= maxName then Failure(InvalidParam) else Success(SplitPath("/", full))
      else
        var dirLen := if k == 0 then 1 else k;
        if dirLen >= maxDir || |full| - k - 1 >= maxName then Failure(InvalidParam)
        else Success(SplitPath(full[..dirLen], full[k + 1..]))
  }

  /** A name without separators splits into the root directory and itself. */
  lemma SplitNoSeparator(full: seq<Char8>, maxDir: nat, maxName: nat)
    requires 0 < |full| < maxName && forall j :: 0 <= j < |full| ==> !IsSeparator(full[j])
    ensures Split(full, maxDir, maxName) == Success(SplitPath("/", full))
  {
  }

  /** A path whose only separator leads it splits into that one-character directory and the rest. */
  lemma SplitRootChild(full: seq<Char8>, maxDir: nat, maxName: nat)
    requires |full| > 0 && full[0] == '/' && 1 < maxDir && |full| - 1 < maxName
    requires forall j :: 0 < j < |full| ==> !IsSeparator(full[j])
    ensures Split(full, maxDir, maxName) == Success(SplitPath("/", full[1..]))
  {
    assert LastSeparator(full) == 0;
    assert full[..1] == "/";
  }

  /**
   join_path: fails when directory, name, separator and terminator do not
   fit; a `/` goes between them only when the directory is non-empty and
   does not already end in a separator.
   */
  function Join(dir: seq<Char8>, name: seq<Char8>, maxLen: nat): (r: Res<seq<Char8>>)
    ensures r.Failure? <==> |dir| + |name| + 2 > maxLen
    ensures r.Failure? ==> r.error == InvalidParam
    ensures r.Success? ==> |r.value| < maxLen
    ensures r.Success? ==> |r.value| == |dir| + |name| + (if |dir| > 0 && !IsSeparator(dir[|dir| - 1]) then 1 else 0)
    ensures r.Success? ==> r.value[..|dir|] == dir && r.value[|r.value| - |name|..] == name
  {
    if |dir| + |name| + 2 > maxLen then Failure(InvalidParam)
    else if |dir| > 0 && !IsSeparator(dir[|dir| - 1]) then Success(dir + "/" + name)
    else Success(dir + name)
  }

  /** Joining the text on either side of a `/` that follows a non-separator gives the text back. */
  lemma JoinAround(full: seq<Char8>, k: nat, maxLen: nat)
    requires 0 < k < |full| && full[k] == '/' && !IsSeparator(full[k - 1]) && |full| + 1 <= maxLen
    ensures Join(full[..k], full[k + 1..], maxLen) == Success(full)
  {
    assert [full[k]] == "/";
    SplitAround(full, k);
  }

  /**
   Joining the parts of a split gives the path back, when the last
   separator is a `/` that follows a non-separator.
   */
  lemma SplitJoinRoundTrip(full: seq<Char8>, maxDir: nat, maxName: nat, maxLen: nat)
    requires Split(full, maxDir, maxName).Success?
    requires var k := LastSeparator(full); k > 0 && full[k] == '/' && !IsSeparator(full[k - 1])
    requires |full| + 1 <= maxLen
    ensures var p := Split(full, maxDir, maxName).value; Join(p.dir, p.file, maxLen) == Success(full)
  {
    var k := LastSeparator(full);
    assert Split(full, maxDir, maxName).value == SplitPath(full[..k], full[k + 1..]);
    JoinAround(full, k, maxLen);
  }

  // ---------------------------------------------------------------------
  // Dates and times
  // ---------------------------------------------------------------------

  /** The broken-down time of the driver; the second has two-second resolution on disk. */
  datatype DateTime = DateTime(year: u16, month: u8, day: u8, hour: u8, minute: u8, second: u8)

  predicate ValidDateTime(d: DateTime) {
    && 1980 <= d.year <= 2107
    && 1 <= d.month <= 12 && 1 <= d.day <= 31
    && d.hour <= 23 && d.minute <= 59 && d.second <= 59
  }

  /**
   The packed date and time words. Shifts and masks are written as
   division and remainder by powers of two, and the OR of the disjoint
   fields as their sum (FieldsAreDisjoint).
   */
  datatype FatStamp = FatStamp(time: u16, date: u16)

  /** The OR of three bit fields that do not overlap is their sum. */
  lemma FieldsAreDisjoint(a: bv16, b: bv16, c: bv16)
    requires c < 0x20
    ensures a < 0x80 && b < 0x10 ==> (a << 9) | (b << 5) | c == (a << 9) + (b << 5) + c
    ensures a < 0x20 && b < 0x40 ==> (a << 11) | (b << 5) | c == (a << 11) + (b << 5) + c
  {
  }

  /** datetime_to_fat: packs a valid date and time, halving the second. */
  function DateTimeToFat(d: DateTime): (r: Res<FatStamp>)
    ensures r.Success? <==> ValidDateTime(d)
    ensures r.Failure? ==> r.error == InvalidParam
  {
    if !ValidDateTime(d) then Failure(InvalidParam)
    else Success(FatStamp(
      d.hour * 2048 + d.minute * 32 + d.second / 2,
      (d.year - 1980) * 512 + d.month * 32 + d.day))
  }

  /** fat_to_datetime unpacks the fields; the structure is filled even when the check fails. */
  datatype Unpacked = Unpacked(status: FatError, value: DateTime)

  function FatToDateTime(time: u16, date: u16): (r: Unpacked)
    ensures r.status == Ok || r.status == InvalidParam
    ensures r.status == Ok <==> ValidDateTime(r.value)
    ensures r.value.second % 2 == 0
  {
    var d := DateTime(
      1980 + (date / 512) % 0x80,
      (date / 32) % 0x10,
      date % 0x20,
      (time / 2048) % 0x20,
      (time / 32) % 0x40,
      (time % 0x20) * 2);
    if d.month == 0 || d.month > 12 || d.day == 0 || d.day > 31
      || d.hour > 23 || d.minute > 59 || d.second > 59
    then Unpacked(InvalidParam, d)
    else Unpacked(Ok, d)
  }

  /** The three fields of a word packed as hi:mid:lo, with lo 5 bits wide and mid `hiBits` values wide. */
  lemma Unpack(hi: int, mid: int, lo: int, w: int, hiBits: int)
    requires hiBits == 0x10 || hiBits == 0x40
    requires 0 <= hi && 0 <= mid < hiBits && 0 <= lo < 32
    requires w == hi * (32 * hiBits) + mid * 32 + lo
    ensures w / (32 * hiBits) == hi && (w / 32) % hiBits == mid && w % 32 == lo
  {
    if hiBits == 0x10 {
      UnpackDate(hi, mid, lo, w);
    } else {
      UnpackTime(hi, mid, lo, w);
    }
  }

  lemma UnpackDate(hi: int, mid: int, lo: int, w: int)
    requires 0 <= hi && 0 <= mid < 0x10 && 0 <= lo < 32 && w == hi * 512 + mid * 32 + lo
    ensures w / 512 == hi && (w / 32) % 0x10 == mid && w % 32 == lo
  {
    assert w / 32 == hi * 0x10 + mid;
  }

  lemma UnpackTime(hi: int, mid: int, lo: int, w: int)
    requires 0 <= hi && 0 <= mid < 0x40 && 0 <= lo < 32 && w == hi * 2048 + mid * 32 + lo
    ensures w / 2048 == hi && (w / 32) % 0x40 == mid && w % 32 == lo
  {
    assert w / 32 == hi * 0x40 + mid;
  }

  /** Unpacking a packed valid date and time with an even second gives it back. */
  lemma DateTimeRoundTrip(d: DateTime)
    requires ValidDateTime(d) && d.second % 2 == 0
    ensures var s := DateTimeToFat(d).value; FatToDateTime(s.time, s.date) == Unpacked(Ok, d)
  {
    var s := DateTimeToFat(d).value;
    Unpack(d.year - 1980, d.month, d.day, s.date, 0x10);
    Unpack(d.hour, d.minute, d.second / 2, s.time, 0x40);
  }

  /** Packing what was successfully unpacked gives the same words. */
  lemma FatStampRoundTrip(time: u16, date: u16)
    requires FatToDateTime(time, date).status == Ok
    ensures DateTimeToFat(FatToDateTime(time, date).value) == Success(FatStamp(time, date))
  {
    var d := FatToDateTime(time, date).value;
    assert date == ((date / 512) % 0x80) * 512 + ((date / 32) % 0x10) * 32 + date % 0x20;
    assert time == ((time / 2048) % 0x20) * 2048 + ((time / 32) % 0x40) * 32 + time % 0x20;
  }

  // ---------------------------------------------------------------------
  // Long-name checksum
  // ---------------------------------------------------------------------

  /** One step of calculate_checksum, written as the driver writes it. */
  function ChecksumStep(sum: bv8, b: bv8): bv8 {
    ((sum & 1) << 7) + (sum >> 1) + b
  }

  /** The step is a rotation right by one bit followed by an 8-bit add. */
  lemma ChecksumStepRotates(sum: bv8, b: bv8)
    ensures ChecksumStep(sum, b) == sum.RotateRight(1) + b
  {
  }

  /** The checksum of the first n characters. */
  function ChecksumOf(name: seq<bv8>, n: nat): bv8
    requires n <= |name|
  {
    if n == 0 then 0 else ChecksumStep(ChecksumOf(name, n - 1), name[n - 1])
  }

  /** calculate_checksum over the 11 bytes of a short name. */
  method CalculateChecksum(name: seq<bv8>) returns (sum: bv8)
    requires |name| == 11
    ensures sum == ChecksumOf(name, 11)
    ensures sum == ChecksumStep(ChecksumOf(name, 10), name[10])
  {
    sum := 0;
    var i := 0;
    while i < 11
      invariant 0 <= i <= 11 && sum == ChecksumOf(name, i)
    {
      sum := ChecksumStep(sum, name[i]);
      i := i + 1;
    }
  }

  /** verify_checksum: true exactly when the stored checksum equals the computed one. */
  method VerifyChecksum(name: seq<bv8>, stored: bv8) returns (ok: bool)
    requires |name| == 11
    ensures ok <==> stored == ChecksumOf(name, 11)
  {
    var sum := CalculateChecksum(name);
    ok := sum == stored;
  }

  /** The checksum depends on every byte: changing only the last byte changes it. */
  lemma ChecksumSeesLastByte(a: seq<bv8>, b: seq<bv8>)
    requires |a| == |b| == 11 && a[..10] == b[..10] && a[10] != b[10]
    ensures ChecksumOf(a, 11) != ChecksumOf(b, 11)
  {
    ChecksumPrefix(a, b, 10);
  }

  lemma {:induction false} ChecksumPrefix(a: seq<bv8>, b: seq<bv8>, n: nat)
    requires n <= |a| && n <= |b| && a[..n] == b[..n]
    ensures ChecksumOf(a, n) == ChecksumOf(b, n)
  {
    if n > 0 {
      assert a[n - 1] == a[..n][n - 1] && b[n - 1] == b[..n][n - 1];
      assert a[..n - 1] == a[..n][..n - 1] && b[..n - 1] == b[..n][..n - 1];
      ChecksumPrefix(a, b, n - 1);
    }
  }
}
