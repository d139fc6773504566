/**
 The include-dependency analyser: file discovery, `#include` extraction and
 resolution, and construction of the forward graph with its reverse index.
 The file system is a parameter: the directory walk is the sequence of
 (directory, file name) pairs `os.walk` yields, the current directory is a
 string, file contents are a map from path to lines (a missing path is an
 unreadable file), and `os.path.exists` is a function on path strings.
 Discovered files and resolved includes are named by `relpath` of the
 joined path, so `./boot/x.c` from the walk of `.` and `boot/x.c` from the
 walk of `boot` are one node.
 */
module CheckDeps {
  import opened Util
  import opened PosixPath

  type Path = string

  /** One file reported by the directory walk: its directory and bare name. */
  datatype WalkEntry = WalkEntry(root: string, name: string)

  predicate HasSourceExt(name: string) {
    EndsWith(name, ".c") || EndsWith(name, ".h") || EndsWith(name, ".S")
  }

  /** Compiled sources (C and assembly) are the only edge sources. */
  predicate IsCompiled(path: Path) {
    EndsWith(path, ".c") || EndsWith(path, ".S")
  }

  /** Directories whose files are skipped outright (substring tests on the walk root). */
  predicate PrunedRoot(root: string) {
    || HasSubstring(root, "clib")
    || HasSubstring(root, "guest/linux")
    || HasSubstring(root, "guest/nimbos")
    || HasSubstring(root, "guest/testos")
  }

  const GuestAllowList: set<string> := {"test_guest.S", "guest_manifests.c", "guest_manifest.h"}

  /** Whether discovery records a walked file. */
  predicate Kept(e: WalkEntry) {
    && !PrunedRoot(e.root)
    && HasSourceExt(e.name)
    && if HasSubstring(e.root, "guest") then e.name in GuestAllowList
       else !(HasSubstring(e.root, "app") && e.name == "syscall.S")
  }

  /**
   The discovery mapping, bare file name to path, with the dictionary's
   insertion order kept in `order` (re-assigning a key keeps its position).
   */
  datatype FileIndex = FileIndex(order: seq<string>, path: map<string, Path>)

  ghost predicate IndexValid(f: FileIndex) {
    Distinct(f.order) && (forall n :: n in f.order <==> n in f.path)
  }

  /** `files[name] = path` */
  function Assign(f: FileIndex, name: string, path: Path): (r: FileIndex)
    requires IndexValid(f)
    ensures IndexValid(r)
    ensures r.path == f.path[name := path]
    ensures name in f.path ==> r.order == f.order
    ensures name !in f.path ==> r.order == f.order + [name]
  {
    if name in f.path then f.(path := f.path[name := path])
    else FileIndex(f.order + [name], f.path[name := path])
  }

  /** A later kept entry of the walk with the same bare name as entry `i`. */
  ghost predicate Overridden(walk: seq<WalkEntry>, i: int) {
    exists j :: 0 <= i < j < |walk| && Kept(walk[j]) && walk[j].name == walk[i].name
  }

  /** The path discovery records for a walked file: `relpath(join(root, name))`. */
  function RecordedPath(cwd: string, e: WalkEntry): (p: Path)
    requires e.name != ""
  {
    RelPath(cwd, Join(e.root, e.name))
  }

  /** A naming of walked files that is defined on every file discovery keeps. */
  ghost predicate NamesKept(record: WalkEntry --> Path) {
    forall e :: Kept(e) ==> record.requires(e)
  }

  lemma KeptNamed()
    ensures forall e :: Kept(e) ==> e.name != ""
  {
    forall e | Kept(e) ensures e.name != "" {
      assert HasSourceExt(e.name);
    }
  }

  /** `RecordedPath` as a value; a kept file's name has an extension, so it is never empty. */
  function Recorder(cwd: string): (record: WalkEntry --> Path)
    ensures NamesKept(record)
  {
    KeptNamed();
    (e: WalkEntry) requires e.name != "" => RecordedPath(cwd, e)
  }

  /** The loop of find_source_files, naming each kept file with `record`. */
  function Discover(walk: seq<WalkEntry>, record: WalkEntry --> Path): (f: FileIndex)
    requires NamesKept(record)
    ensures IndexValid(f)
  {
    if |walk| == 0 then FileIndex([], map[])
    else
      var e := walk[|walk| - 1];
      var f0 := Discover(walk[..|walk| - 1], record);
      if Kept(e) then Assign(f0, e.name, record(e)) else f0
  }

  /** find_source_files: walk the entries in order, recording each kept file under its `relpath`. */
  function FindSourceFiles(walk: seq<WalkEntry>, cwd: string): (f: FileIndex)
    ensures IndexValid(f)
  {
    Discover(walk, Recorder(cwd))
  }

  /** Exactly the names of kept files are recorded, however files are named. */
  lemma {:induction false} DiscoverRecordsKeptNames(walk: seq<WalkEntry>, record: WalkEntry --> Path, n: string)
    requires NamesKept(record)
    ensures n in Discover(walk, record).path <==> exists i :: 0 <= i < |walk| && Kept(walk[i]) && walk[i].name == n
  {
    if |walk| > 0 {
      var prefix := walk[..|walk| - 1];
      DiscoverRecordsKeptNames(prefix, record, n);
      if exists i :: 0 <= i < |prefix| && Kept(prefix[i]) && prefix[i].name == n {
        var i :| 0 <= i < |prefix| && Kept(prefix[i]) && prefix[i].name == n;
        assert walk[i] == prefix[i];
      }
      if exists i :: 0 <= i < |walk| && Kept(walk[i]) && walk[i].name == n {
        var i :| 0 <= i < |walk| && Kept(walk[i]) && walk[i].name == n;
        if i < |prefix| {
          assert prefix[i] == walk[i];
        }
      }
    }
  }

  /** A kept file that no later kept file shadows keeps its own name's path. */
  lemma {:induction false} DiscoverLastWriterWins(walk: seq<WalkEntry>, record: WalkEntry --> Path, i: int)
    requires NamesKept(record)
    requires 0 <= i < |walk| && Kept(walk[i]) && !Overridden(walk, i)
    ensures walk[i].name in Discover(walk, record).path
    ensures Discover(walk, record).path[walk[i].name] == record(walk[i])
  {
    var prefix := walk[..|walk| - 1];
    var e := walk[|walk| - 1];
    if i < |walk| - 1 {
      assert prefix[i] == walk[i];
      assert !Overridden(prefix, i);
      DiscoverLastWriterWins(prefix, record, i);
      if Kept(e) {
        assert e.name != walk[i].name;
      }
    }
  }

  /** Exactly the names of kept files are recorded. */
  lemma DiscoveryRecordsKeptNames(walk: seq<WalkEntry>, cwd: string, n: string)
    ensures n in FindSourceFiles(walk, cwd).path <==> exists i :: 0 <= i < |walk| && Kept(walk[i]) && walk[i].name == n
  {
    DiscoverRecordsKeptNames(walk, Recorder(cwd), n);
  }

  /** A kept file that no later kept file shadows is recorded under `relpath(join(root, name))`. */
  lemma DiscoveryLastWriterWins(walk: seq<WalkEntry>, cwd: string, i: int)
    requires 0 <= i < |walk| && Kept(walk[i]) && !Overridden(walk, i)
    ensures walk[i].name in FindSourceFiles(walk, cwd).path
    ensures FindSourceFiles(walk, cwd).path[walk[i].name] == RecordedPath(cwd, walk[i])
  {
    DiscoverLastWriterWins(walk, Recorder(cwd), i);
  }

  /** Scenario: `syscall.S` under an application directory is never recorded. */
  lemma {:induction false} AppSyscallStubExcluded(walk: seq<WalkEntry>, cwd: string)
    requires forall i :: 0 <= i < |walk| && walk[i].name == "syscall.S" ==>
               HasSubstring(walk[i].root, "app") && !HasSubstring(walk[i].root, "guest")
    ensures "syscall.S" !in FindSourceFiles(walk, cwd).path
  {
    DiscoveryRecordsKeptNames(walk, cwd, "syscall.S");
  }

  /** Under a guest directory only the allow-listed names are kept. */
  lemma {:induction false} GuestOnlyAllowListed(walk: seq<WalkEntry>, cwd: string, n: string)
    requires n !in GuestAllowList
    requires forall i :: 0 <= i < |walk| && walk[i].name == n ==> HasSubstring(walk[i].root, "guest")
    ensures n !in FindSourceFiles(walk, cwd).path
  {
    DiscoveryRecordsKeptNames(walk, cwd, n);
  }

  /**
   A file of a plain subdirectory is recorded as `dir/name` whether the walk
   reached it from the directory itself or from `.`, so both walks name one
   node.
   */
  lemma RecordedUnderDir(cwd: string, d: string, n: string)
    requires IsPiece(d) && IsPiece(n)
    ensures RecordedPath(cwd, WalkEntry(d, n)) == d + "/" + n
    ensures RecordedPath(cwd, WalkEntry("./" + d, n)) == d + "/" + n
  {
    RelPathOfDirFile(cwd, d, n);
    RelPathDotWalk(cwd, d, n);
  }

  // ---------------------------------------------------------------------
  // Include extraction
  // ---------------------------------------------------------------------

  /**
   Python's whitespace test on code points, used by `str.strip()`, by `\s`
   in regular expressions and by `int()`: the ASCII controls 9-13 and 28-31,
   the space, NEL, NBSP and the Unicode space separators.
   */
  predicate IsSpace(c: char) {
    var n := c as int;
    || 9 <= n <= 13 || 28 <= n <= 32 || n == 0x85 || n == 0xA0 || n == 0x1680
    || 0x2000 <= n <= 0x200A || n == 0x2028 || n == 0x2029 || n == 0x202F
    || n == 0x205F || n == 0x3000
  }

  function TrimLeft(s: string): (r: string)
    ensures |r| <= |s| && r == s[|s| - |r|..]
    ensures |r| > 0 ==> !IsSpace(r[0])
  {
    if |s| > 0 && IsSpace(s[0]) then TrimLeft(s[1..]) else s
  }

  function TrimRight(s: string): (r: string)
    ensures |r| <= |s| && r == s[..|r|]
    ensures |r| > 0 ==> !IsSpace(r[|r| - 1])
  {
    if |s| > 0 && IsSpace(s[|s| - 1]) then TrimRight(s[..|s| - 1]) else s
  }

  /** `str.strip()` */
  function Strip(s: string): string {
    TrimRight(TrimLeft(s))
  }

  predicate IsOpenDelim(c: char) { c == '<' || c == '"' }
  predicate IsCloseDelim(c: char) { c == '>' || c == '"' }

  predicate AllSpace(s: string) { forall i :: 0 <= i < |s| ==> IsSpace(s[i]) }
  predicate NoCloseDelim(s: string) { forall i :: 0 <= i < |s| ==> !IsCloseDelim(s[i]) }

  /** The longest prefix of `s` with no `>` and no `"`. */
  function TakeTarget(s: string): (r: string)
    ensures |r| <= |s| && r == s[..|r|]
    ensures NoCloseDelim(r)
    ensures |r| < |s| ==> IsCloseDelim(s[|r|])
  {
    if |s| == 0 || IsCloseDelim(s[0]) then [] else [s[0]] + TakeTarget(s[1..])
  }

  const Directive: string := "#include"

  /**
   The target of one line, matching `#include\s*[<"]([^>"]+)[>"]` at the start
   of the stripped line; the two delimiters need not agree.
   */
  function ParseIncludeLine(line: string): (r: Option<string>)
    ensures r.Some? ==> StartsWith(Strip(line), Directive)
  {
    ParseDirective(Strip(line))
  }

  function ParseDirective(s: string): (r: Option<string>)
    ensures r.Some? ==> StartsWith(s, Directive)
  {
    if !StartsWith(s, Directive) then None else ParseTarget(TrimLeft(s[|Directive|..]))
  }

  /** An opening delimiter, a non-empty target, then a closing delimiter. */
  function ParseTarget(rest: string): (r: Option<string>)
    ensures r.Some? ==> |r.value| > 0 && NoCloseDelim(r.value)
    ensures r.Some? ==> |rest| >= |r.value| + 2 && IsOpenDelim(rest[0]) && IsCloseDelim(rest[|r.value| + 1])
  {
    if |rest| == 0 || !IsOpenDelim(rest[0]) then None
    else
      var target := TakeTarget(rest[1..]);
      if |target| == 0 || |target| == |rest| - 1 then None
      else Some(target)
  }

  /** Every well-formed directive is recognised, whatever its indentation and trailer. */
  lemma {:induction false} ParseIncludeLineComplete(indent: string, gap: string, open: char, target: string, close: char, trailer: string)
    requires AllSpace(indent) && AllSpace(gap)
    requires IsOpenDelim(open) && IsCloseDelim(close)
    requires |target| > 0 && NoCloseDelim(target)
    ensures ParseIncludeLine(indent + Directive + gap + [open] + target + [close] + trailer) == Some(target)
  {
    var tgt := [open] + target + [close];
    assert tgt[1..|tgt| - 1] == target;
    assert indent + Directive + gap + [open] + target + [close] + trailer == indent + Directive + gap + tgt + trailer;
    ParseLineOfParts(indent, gap, tgt, trailer, target);
  }

  lemma {:induction false} ParseLineOfParts(indent: string, gap: string, tgt: string, trailer: string, target: string)
    requires AllSpace(indent) && AllSpace(gap)
    requires |target| > 0 && NoCloseDelim(target)
    requires |tgt| == |target| + 2 && IsOpenDelim(tgt[0]) && IsCloseDelim(tgt[|tgt| - 1]) && tgt[1..|tgt| - 1] == target
    ensures ParseIncludeLine(indent + Directive + gap + tgt + trailer) == Some(target)
  {
    var t := TrimRight(trailer);
    StripDirectiveLine(indent, gap, tgt, trailer);
    ParseDirectiveComplete(gap, tgt, t);
    ParseTargetComplete(tgt, target, t);
  }

  lemma {:induction false} StripDirectiveLine(indent: string, gap: string, tgt: string, trailer: string)
    requires AllSpace(indent)
    requires |tgt| > 0 && !IsSpace(tgt[|tgt| - 1])
    ensures Strip(indent + Directive + gap + tgt + trailer) == Directive + gap + tgt + TrimRight(trailer)
  {
    var core := Directive + gap + tgt;
    assert indent + Directive + gap + tgt + trailer == indent + (core + trailer);
    assert core[0] == '#' && core[|core| - 1] == tgt[|tgt| - 1];
    StripAroundCore(indent, core, trailer);
  }

  lemma {:induction false} StripAroundCore(indent: string, core: string, trailer: string)
    requires AllSpace(indent)
    requires |core| > 0 && !IsSpace(core[0]) && !IsSpace(core[|core| - 1])
    ensures Strip(indent + (core + trailer)) == core + TrimRight(trailer)
  {
    assert (core + trailer)[0] == core[0];
    TrimLeftSkips(indent, core + trailer);
    TrimRightKeeps(core, trailer);
  }

  lemma {:induction false} ParseDirectiveComplete(gap: string, tgt: string, t: string)
    requires AllSpace(gap)
    requires |tgt| > 0 && !IsSpace(tgt[0])
    ensures ParseDirective(Directive + gap + tgt + t) == ParseTarget(tgt + t)
  {
    var s := Directive + gap + tgt + t;
    assert s[..|Directive|] == Directive;
    assert s[|Directive|..] == gap + (tgt + t);
    assert (tgt + t)[0] == tgt[0];
    TrimLeftSkips(gap, tgt + t);
  }

  lemma {:induction false} ParseTargetComplete(tgt: string, target: string, t: string)
    requires |target| > 0 && NoCloseDelim(target)
    requires |tgt| == |target| + 2 && IsOpenDelim(tgt[0]) && IsCloseDelim(tgt[|tgt| - 1]) && tgt[1..|tgt| - 1] == target
    ensures ParseTarget(tgt + t) == Some(target)
  {
    var rest := tgt + t;
    var tail := rest[1..];
    assert tail[..|target|] == target;
    assert tail[|target|] == tgt[|tgt| - 1];
    TakeTargetExact(target, tail);
  }

  lemma {:induction false} TrimRightKeeps(core: string, trailer: string)
    requires |core| > 0 && !IsSpace(core[|core| - 1])
    ensures TrimRight(core + trailer) == core + TrimRight(trailer)
  {
    if |trailer| == 0 {
      assert core + trailer == core;
      assert core + TrimRight(trailer) == core;
    } else {
      var s := core + trailer;
      assert s[..|s| - 1] == core + trailer[..|trailer| - 1];
      assert s[|s| - 1] == trailer[|trailer| - 1];
      TrimRightKeeps(core, trailer[..|trailer| - 1]);
    }
  }

  /** Nothing is left of a run of whitespace. */
  lemma {:induction false} TrimRightSpaces(pad: string)
    requires AllSpace(pad)
    ensures TrimRight(pad) == ""
  {
    if |pad| > 0 {
      var init := pad[..|pad| - 1];
      assert AllSpace(init) by { forall i | 0 <= i < |init| ensures IsSpace(init[i]) { assert init[i] == pad[i]; } }
      TrimRightSpaces(init);
    }
  }

  /** `str.strip()` keeps only characters of the original string. */
  lemma StripInside(s: string)
    ensures forall c :: c in Strip(s) ==> c in s
  {
    var l := TrimLeft(s);
    var r := TrimRight(l);
    var o := |s| - |l|;
    forall c | c in r ensures c in s {
      var k :| 0 <= k < |r| && r[k] == c;
      assert r[k] == l[k] == s[o + k];
    }
  }

  lemma {:induction false} TrimLeftSkips(pad: string, s: string)
    requires AllSpace(pad)
    requires |s| > 0 && !IsSpace(s[0])
    ensures TrimLeft(pad + s) == s
  {
    if |pad| > 0 {
      assert (pad + s)[0] == pad[0];
      assert (pad + s)[1..] == pad[1..] + s;
      TrimLeftSkips(pad[1..], s);
    } else {
      assert pad + s == s;
    }
  }

  lemma {:induction false} TakeTargetExact(target: string, s: string)
    requires NoCloseDelim(target)
    requires |target| < |s| && s[..|target|] == target && IsCloseDelim(s[|target|])
    ensures TakeTarget(s) == target
  {
    if |target| > 0 {
      assert s[0] == target[0];
      var t', s' := target[1..], s[1..];
      assert s'[..|t'|] == t';
      assert s'[|t'|] == s[|target|];
      TakeTargetExact(t', s');
      assert TakeTarget(s) == [s[0]] + TakeTarget(s');
      assert [target[0]] + t' == target;
    }
  }

  /**
   parse_includes: the targets of every line, in order of first appearance
   and without repeats. An unreadable file (`None`) has no includes.
   */
  function ParseIncludes(content: Option<seq<string>>): (r: seq<string>)
    ensures Distinct(r)
    ensures content.None? ==> r == []
  {
    if content.None? then [] else CollectTargets(ParseLines(content.value))
  }

  /** The per-line parse results, line for line. */
  function ParseLines(lines: seq<string>): (r: seq<Option<string>>)
    ensures |r| == |lines|
    ensures forall i :: 0 <= i < |lines| ==> r[i] == ParseIncludeLine(lines[i])
  {
    if |lines| == 0 then [] else [ParseIncludeLine(lines[0])] + ParseLines(lines[1..])
  }

  /** Gathers the present targets of per-line results into a repeat-free sequence. */
  function CollectTargets(parsed: seq<Option<string>>): (r: seq<string>)
    ensures Distinct(r)
  {
    if |parsed| == 0 then []
    else
      var r0 := CollectTargets(parsed[..|parsed| - 1]);
      match parsed[|parsed| - 1]
      case Some(x) => if x in r0 then r0 else r0 + [x]
      case None => r0
  }

  /** A target is collected exactly when some line carries it. */
  lemma {:induction false} CollectTargetsExact(parsed: seq<Option<string>>, x: string)
    ensures x in CollectTargets(parsed) <==> Some(x) in parsed
  {
    if |parsed| > 0 {
      var prefix := parsed[..|parsed| - 1];
      CollectTargetsExact(prefix, x);
      assert parsed == prefix + [parsed[|parsed| - 1]];
    }
  }

  /** The includes of a readable file are exactly the targets its lines carry. */
  lemma {:induction false} ParseIncludesExact(lines: seq<string>, x: string)
    ensures x in ParseIncludes(Some(lines)) <==> exists i :: 0 <= i < |lines| && ParseIncludeLine(lines[i]) == Some(x)
  {
    var parsed := ParseLines(lines);
    CollectTargetsExact(parsed, x);
    if Some(x) in parsed {
      var i :| 0 <= i < |parsed| && parsed[i] == Some(x);
      assert ParseIncludeLine(lines[i]) == Some(x);
    }
    if exists i :: 0 <= i < |lines| && ParseIncludeLine(lines[i]) == Some(x) {
      var i :| 0 <= i < |lines| && ParseIncludeLine(lines[i]) == Some(x);
      assert parsed[i] == Some(x);
    }
  }

  // ---------------------------------------------------------------------
  // Include resolution
  // ---------------------------------------------------------------------

  predicate IsSystemInclude(name: string) {
    StartsWith(name, "sys/") || StartsWith(name, "linux/") || StartsWith(name, "asm/")
  }

  /** `os.path.exists(p)`, the file system's answer given as `exists_`; the empty path never exists. */
  predicate PathExists(exists_: string -> bool, p: string) {
    p != "" && exists_(p)
  }

  /** The first include directory from position `from` on that holds `name`, if any. */
  function FirstIncludeDir(dirs: seq<string>, name: string, exists_: string -> bool, from: nat): (r: Option<nat>)
    requires from <= |dirs|
    ensures r.Some? ==> from <= r.value < |dirs| && PathExists(exists_, Join(dirs[r.value], name))
    ensures r.Some? ==> forall k :: from <= k < r.value ==> !PathExists(exists_, Join(dirs[k], name))
    ensures r.None? ==> forall k :: from <= k < |dirs| ==> !PathExists(exists_, Join(dirs[k], name))
    decreases |dirs| - from
  {
    if from == |dirs| then None
    else if PathExists(exists_, Join(dirs[from], name)) then Some(from)
    else FirstIncludeDir(dirs, name, exists_, from + 1)
  }

  /**
   resolve_include: a discovered bare name wins; otherwise the first include
   directory that holds the target, named by `relpath`; otherwise nothing
   (system headers and unknown targets alike). `ResolveFromDirs` states the
   include-directory search.
   */
  function ResolveInclude(name: string, files: FileIndex, dirs: seq<string>, cwd: string, exists_: string -> bool): (r: Option<Path>)
    ensures name in files.path ==> r == Some(files.path[name])
  {
    if name in files.path then Some(files.path[name])
    else
      match FirstIncludeDir(dirs, name, exists_, 0)
      case Some(k) => Some(RelPath(cwd, Join(dirs[k], name)))
      case None =>
        // The source tests for a system header here and returns None on both branches.
        if IsSystemInclude(name) then None else None
  }

  /**
   An undiscovered name resolves exactly when some include directory holds
   it, and then to the `relpath` of the first such directory's entry.
   */
  lemma ResolveFromDirs(name: string, files: FileIndex, dirs: seq<string>, cwd: string, exists_: string -> bool)
    requires name !in files.path
    ensures var r := ResolveInclude(name, files, dirs, cwd, exists_);
      (r.Some? <==> exists k :: 0 <= k < |dirs| && PathExists(exists_, Join(dirs[k], name)))
      && (r.Some? ==>
            exists k :: 0 <= k < |dirs| && PathExists(exists_, Join(dirs[k], name))
              && r.value == RelPath(cwd, Join(dirs[k], name))
              && forall k' :: 0 <= k' < k ==> !PathExists(exists_, Join(dirs[k'], name)))
  {
    match FirstIncludeDir(dirs, name, exists_, 0)
    case Some(k) =>
    case None =>
  }

  // ---------------------------------------------------------------------
  // Graph construction
  // ---------------------------------------------------------------------

  /**
   The forward mapping `dependencies` (keys in insertion order, each value
   an insertion-ordered set) and the reverse index `reverse_deps`.
   */
  datatype Graph = Graph(keys: seq<Path>, fwd: map<Path, seq<Path>>, rev: map<Path, set<Path>>)

  const EmptyGraph: Graph := Graph([], map[], map[])

  /** `dependencies[a]`, empty for a file that includes nothing. */
  function Succ(g: Graph, a: Path): seq<Path> {
    if a in g.fwd then g.fwd[a] else []
  }

  /** `reverse_deps[b]`, empty for a file nothing includes. */
  function Preds(g: Graph, b: Path): set<Path> {
    if b in g.rev then g.rev[b] else {}
  }

  /** The reverse index is exactly the transpose of the forward mapping. */
  ghost predicate Transposed(g: Graph) {
    && (forall a, b | a in g.fwd && b in g.fwd[a] :: b in g.rev && a in g.rev[b])
    && (forall b, a | b in g.rev && a in g.rev[b] :: a in g.fwd && b in g.fwd[a])
  }

  ghost predicate NoSelfEdges(g: Graph) {
    forall a | a in g.fwd :: a !in g.fwd[a]
  }

  ghost predicate GraphValid(g: Graph) {
    && Distinct(g.keys)
    && (forall a :: a in g.keys <==> a in g.fwd)
    && (forall a | a in g.fwd :: Distinct(g.fwd[a]))
    && (forall b | b in g.rev :: g.rev[b] != {})
    && Transposed(g)
    && NoSelfEdges(g)
  }

  /** `dependencies[a].add(b)` together with `reverse_deps[b].add(a)`. */
  function AddEdge(g: Graph, a: Path, b: Path): (r: Graph)
    ensures forall x, y :: y in Succ(r, x) <==> y in Succ(g, x) || (x == a && y == b)
    ensures forall y, x :: x in Preds(r, y) <==> x in Preds(g, y) || (x == a && y == b)
    ensures r.fwd.Keys == g.fwd.Keys + {a}
  {
    var out := Succ(g, a);
    var out' := if b in out then out else out + [b];
    Graph(if a in g.fwd then g.keys else g.keys + [a],
          g.fwd[a := out'],
          g.rev[b := Preds(g, b) + {a}])
  }

  /** Inserting an edge between two different files keeps the graph's invariants. */
  lemma AddEdgeValid(g: Graph, a: Path, b: Path)
    requires GraphValid(g) && a != b
    ensures GraphValid(AddEdge(g, a, b))
  {
    AddEdgeKeys(g, a, b);
    AddEdgeLists(g, a, b);
    AddEdgeTransposed(g, a, b);
    AddEdgeNoSelf(g, a, b);
  }

  lemma AddEdgeKeys(g: Graph, a: Path, b: Path)
    requires GraphValid(g)
    ensures Distinct(AddEdge(g, a, b).keys)
    ensures forall x :: x in AddEdge(g, a, b).keys <==> x in AddEdge(g, a, b).fwd
  {
  }

  lemma AddEdgeLists(g: Graph, a: Path, b: Path)
    requires GraphValid(g)
    ensures forall x | x in AddEdge(g, a, b).fwd :: Distinct(AddEdge(g, a, b).fwd[x])
    ensures forall y | y in AddEdge(g, a, b).rev :: AddEdge(g, a, b).rev[y] != {}
  {
    var r := AddEdge(g, a, b);
    forall x | x in r.fwd ensures Distinct(r.fwd[x]) {
      if x == a && a in g.fwd {
        assert Distinct(g.fwd[a]);
      }
    }
  }

  lemma AddEdgeTransposed(g: Graph, a: Path, b: Path)
    requires GraphValid(g)
    ensures Transposed(AddEdge(g, a, b))
  {
    var r := AddEdge(g, a, b);
    forall x, y | x in r.fwd && y in r.fwd[x] ensures y in r.rev && x in r.rev[y] {
      assert y in Succ(r, x);
      assert x in Preds(r, y);
    }
    forall y, x | y in r.rev && x in r.rev[y] ensures x in r.fwd && y in r.fwd[x] {
      assert x in Preds(r, y);
      assert y in Succ(r, x);
    }
  }

  lemma AddEdgeNoSelf(g: Graph, a: Path, b: Path)
    requires GraphValid(g) && a != b
    ensures NoSelfEdges(AddEdge(g, a, b))
  {
    var r := AddEdge(g, a, b);
    forall x | x in r.fwd ensures x !in r.fwd[x] {
      assert x !in Succ(g, x);
      assert r.fwd[x] == Succ(r, x);
    }
  }

  /** The contents of a file, or `None` when it cannot be read. */
  function ReadFile(contents: map<Path, seq<string>>, p: Path): Option<seq<string>> {
    if p in contents then Some(contents[p]) else None
  }

  /**
   What the graph loop works with: the discovered files, include resolution
   (`Analysis` fixes it to `ResolveInclude` over the discovery, the include
   directories and the file system) and file contents.
   */
  datatype Env = Env(files: FileIndex, resolve: string -> Option<Path>, contents: map<Path, seq<string>>)

  function Analysis(files: FileIndex, dirs: seq<string>, cwd: string, exists_: string -> bool,
                    contents: map<Path, seq<string>>): (env: Env)
    ensures env.files == files && env.contents == contents
    ensures forall x :: env.resolve(x) == ResolveInclude(x, files, dirs, cwd, exists_)
  {
    Env(files, x => ResolveInclude(x, files, dirs, cwd, exists_), contents)
  }

  /** An include of `src` resolves to `dst` and is kept as an edge. */
  predicate KeptTarget(env: Env, src: Path, x: string, dst: Path) {
    env.resolve(x) == Some(dst) && dst != "" && dst != src
  }

  /** The edges the loop over one file's includes inserts. */
  function AddIncludes(g: Graph, env: Env, src: Path, targets: seq<string>): (r: Graph)
    requires GraphValid(g)
    ensures GraphValid(r)
    ensures r.fwd.Keys <= g.fwd.Keys + {src}
    decreases |targets|
  {
    if |targets| == 0 then g
    else
      var g' := AddIncludes(g, env, src, targets[..|targets| - 1]);
      var x := targets[|targets| - 1];
      match env.resolve(x)
      case Some(dst) =>
        if dst != "" && dst != src then AddEdgeValid(g', src, dst); AddEdge(g', src, dst) else g'
      case None => g'
  }

  /** The loop of build_dependency_graph over the first `|names|` discovered names. */
  function BuildFrom(env: Env, names: seq<string>): (g: Graph)
    requires forall i :: 0 <= i < |names| ==> names[i] in env.files.path
    ensures GraphValid(g)
    ensures forall a | a in g.fwd :: IsCompiled(a)
  {
    if |names| == 0 then EmptyGraph
    else
      var g0 := BuildFrom(env, names[..|names| - 1]);
      var path := env.files.path[names[|names| - 1]];
      if !IsCompiled(path) then g0
      else AddIncludes(g0, env, path, ParseIncludes(ReadFile(env.contents, path)))
  }

  /** build_dependency_graph over a walk, with the environment's include directories and contents. */
  function BuildDependencyGraph(walk: seq<WalkEntry>, dirs: seq<string>, cwd: string, exists_: string -> bool,
                                contents: map<Path, seq<string>>): (g: Graph)
    ensures GraphValid(g)
    ensures forall a | a in g.fwd :: IsCompiled(a)
  {
    var files := FindSourceFiles(walk, cwd);
    BuildFrom(Analysis(files, dirs, cwd, exists_, contents), files.order)
  }

  /** An edge `src -> dst` is exactly an include of `src` that resolves to another file. */
  lemma {:induction false} AddIncludesEdges(g: Graph, env: Env, src: Path, targets: seq<string>, a: Path, b: Path)
    requires GraphValid(g)
    ensures b in Succ(AddIncludes(g, env, src, targets), a) <==>
              b in Succ(g, a) || (a == src && KeptAmong(env, src, targets, b))
    decreases |targets|
  {
    if |targets| > 0 {
      AddIncludesEdges(g, env, src, targets[..|targets| - 1], a, b);
      KeptAmongSnoc(env, src, targets, b);
    }
  }

  /** Some include among `targets` of `src` is kept as an edge to `dst`. */
  ghost predicate KeptAmong(env: Env, src: Path, targets: seq<string>, dst: Path) {
    exists k :: 0 <= k < |targets| && KeptTarget(env, src, targets[k], dst)
  }

  lemma KeptAmongSnoc(env: Env, src: Path, targets: seq<string>, dst: Path)
    requires |targets| > 0
    ensures KeptAmong(env, src, targets, dst) <==>
              KeptAmong(env, src, targets[..|targets| - 1], dst)
              || KeptTarget(env, src, targets[|targets| - 1], dst)
  {
    var prefix := targets[..|targets| - 1];
    if KeptAmong(env, src, prefix, dst) {
      var k :| 0 <= k < |prefix| && KeptTarget(env, src, prefix[k], dst);
      assert targets[k] == prefix[k];
    }
    if KeptAmong(env, src, targets, dst) {
      var k :| 0 <= k < |targets| && KeptTarget(env, src, targets[k], dst);
      if k < |prefix| {
        assert prefix[k] == targets[k];
      }
    }
  }

  /** The includes the analyser reads from a file. */
  function IncludesOf(env: Env, src: Path): seq<string> {
    ParseIncludes(ReadFile(env.contents, src))
  }

  /** One discovered compiled file's resolved includes (other than itself). */
  ghost predicate FileIncludes(env: Env, src: Path, dst: Path) {
    && IsCompiled(src)
    && KeptAmong(env, src, IncludesOf(env, src), dst)
  }

  /** Some name among `names` is discovered at `path`. */
  ghost predicate DiscoveredAmong(env: Env, names: seq<string>, path: Path) {
    exists i :: 0 <= i < |names| && names[i] in env.files.path && env.files.path[names[i]] == path
  }

  lemma DiscoveredAmongSnoc(env: Env, names: seq<string>, path: Path)
    requires |names| > 0
    ensures DiscoveredAmong(env, names, path) <==>
              DiscoveredAmong(env, names[..|names| - 1], path)
              || (names[|names| - 1] in env.files.path && env.files.path[names[|names| - 1]] == path)
  {
    var prefix := names[..|names| - 1];
    if DiscoveredAmong(env, prefix, path) {
      var i :| 0 <= i < |prefix| && prefix[i] in env.files.path && env.files.path[prefix[i]] == path;
      assert names[i] == prefix[i];
    }
    if DiscoveredAmong(env, names, path) {
      var i :| 0 <= i < |names| && names[i] in env.files.path && env.files.path[names[i]] == path;
      if i < |prefix| {
        assert prefix[i] == names[i];
      }
    }
  }

  /** Edges of the graph are exactly the kept includes of the discovered compiled files. */
  lemma {:induction false} BuildFromEdges(env: Env, names: seq<string>, a: Path, b: Path)
    requires forall i :: 0 <= i < |names| ==> names[i] in env.files.path
    ensures b in Succ(BuildFrom(env, names), a) <==> DiscoveredAmong(env, names, a) && FileIncludes(env, a, b)
  {
    if |names| > 0 {
      var prefix := names[..|names| - 1];
      var path := env.files.path[names[|names| - 1]];
      BuildFromEdges(env, prefix, a, b);
      DiscoveredAmongSnoc(env, names, a);
      if IsCompiled(path) {
        AddIncludesEdges(BuildFrom(env, prefix), env, path, IncludesOf(env, path), a, b);
      }
    }
  }

  /**
   Scenario: a compiled file whose includes all resolve to one other file
   gets exactly that one edge, and that file records it as an includer.
   */
  lemma SingleIncludeScenario(env: Env, names: seq<string>, src: Path, hdr: Path, b: Path)
    requires forall i :: 0 <= i < |names| ==> names[i] in env.files.path
    requires DiscoveredAmong(env, names, src)
    requires IsCompiled(src) && hdr != src && hdr != ""
    requires |IncludesOf(env, src)| > 0
    requires forall k :: 0 <= k < |IncludesOf(env, src)| ==> env.resolve(IncludesOf(env, src)[k]) == Some(hdr)
    ensures b in Succ(BuildFrom(env, names), src) <==> b == hdr
    ensures src in Preds(BuildFrom(env, names), hdr)
  {
    var g := BuildFrom(env, names);
    BuildFromEdges(env, names, src, hdr);
    assert KeptTarget(env, src, IncludesOf(env, src)[0], hdr);
    EdgeRecorded(g, src, hdr);
    BuildFromEdges(env, names, src, b);
  }

  /** Every forward edge is recorded in the reverse index. */
  lemma EdgeRecorded(g: Graph, a: Path, b: Path)
    requires GraphValid(g) && b in Succ(g, a)
    ensures a in Preds(g, b)
  {
  }
}
