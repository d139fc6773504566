/**
 The two pieces of Python's `posixpath` the dependency analyser relies on:
 `os.path.join` of a directory and a name, and `os.path.relpath` of a path
 against the current directory. `relpath` makes both paths absolute,
 normalises them to lists of components (empty and `.` components vanish,
 `..` removes the component before it, and at the root it is dropped), and
 climbs out of the start directory with `..` before descending into the
 target. The current directory is a parameter.
 */
module PosixPath {

  predicate IsAbsolute(p: string) { |p| > 0 && p[0] == '/' }

  /** `os.path.join(a, b)` for two arguments. */
  function Join(a: string, b: string): (r: string)
    ensures IsAbsolute(b) ==> r == b
    ensures |r| >= |b|
  {
    if IsAbsolute(b) then b
    else if a == "" || a[|a| - 1] == '/' then a + b
    else a + "/" + b
  }

  /** Length of the leading run of characters other than `/`. */
  function PieceLen(s: string): (n: nat)
    ensures n <= |s|
    ensures n < |s| ==> s[n] == '/'
  {
    if s == [] || s[0] == '/' then 0 else 1 + PieceLen(s[1..])
  }

  /** The non-empty pieces between slashes, in order. */
  function Components(s: string): seq<string>
    decreases |s|
  {
    if s == [] then []
    else if s[0] == '/' then Components(s[1..])
    else
      var n := PieceLen(s);
      [s[..n]] + Components(s[n..])
  }

  /**
   The component pass of `normpath` on an absolute path, continuing from
   the components `acc` already kept.
   */
  function Resolve(acc: seq<string>, parts: seq<string>): seq<string>
    decreases |parts|
  {
    if parts == [] then acc
    else if parts[0] == "." then Resolve(acc, parts[1..])
    else if parts[0] == ".." then Resolve(if acc == [] then [] else acc[..|acc| - 1], parts[1..])
    else Resolve(acc + [parts[0]], parts[1..])
  }

  /** `abspath(p)` as a list of components: `p` joined onto the current directory and normalised. */
  function AbsParts(cwd: string, p: string): seq<string> {
    Resolve([], Components(Join(cwd, p)))
  }

  function Ups(n: nat): (r: seq<string>)
    ensures |r| == n && forall i :: 0 <= i < n ==> r[i] == ".."
  {
    if n == 0 then [] else [".."] + Ups(n - 1)
  }

  /** `join(*parts)` of components that hold no slash. */
  function JoinAll(parts: seq<string>): string
    requires parts != []
  {
    if |parts| == 1 then parts[0] else parts[0] + "/" + JoinAll(parts[1..])
  }

  /**
   The way from the directory `start` to `target`, both normalised component
   lists: their common prefix (`commonprefix`) is dropped, one `..` climbs
   out of each remaining component of `start`, and the rest of `target`
   follows; `.` when nothing is left.
   */
  function RelFrom(start: seq<string>, target: seq<string>): string
    decreases |start|
  {
    if start != [] && target != [] && start[0] == target[0] then RelFrom(start[1..], target[1..])
    else
      var rel := Ups(|start|) + target;
      if rel == [] then "." else JoinAll(rel)
  }

  /**
   `os.path.relpath(p)` against the current directory `cwd`. Python rejects
   the empty path with `ValueError`.
   */
  function RelPath(cwd: string, p: string): string
    requires p != ""
  {
    RelFrom(AbsParts(cwd, "."), AbsParts(cwd, p))
  }

  predicate NoEmpty(parts: seq<string>) {
    forall i :: 0 <= i < |parts| ==> parts[i] != ""
  }

  /** Every component is a non-empty run of characters other than `/`. */
  lemma {:induction false} ComponentsArePieces(s: string)
    ensures forall i :: 0 <= i < |Components(s)| ==> Components(s)[i] != "" && '/' !in Components(s)[i]
    decreases |s|
  {
    if s != [] {
      if s[0] == '/' {
        ComponentsArePieces(s[1..]);
      } else {
        var n := PieceLen(s);
        ComponentsArePieces(s[n..]);
        assert s[..n] != "" && '/' !in s[..n] by {
          assert s[0] != '/';
          PieceLenStops(s);
        }
      }
    }
  }

  lemma {:induction false} PieceLenStops(s: string)
    ensures 0 < |s| && s[0] != '/' ==> PieceLen(s) > 0
    ensures forall k :: 0 <= k < PieceLen(s) ==> s[k] != '/'
    decreases |s|
  {
    if s != [] && s[0] != '/' {
      PieceLenStops(s[1..]);
      assert forall k :: 1 <= k < PieceLen(s) ==> s[k] == s[1..][k - 1];
    }
  }

  /** `relpath` never returns the empty string. */
  lemma RelPathNonEmpty(cwd: string, p: string)
    requires p != ""
    ensures RelPath(cwd, p) != ""
  {
    ComponentsArePieces(Join(cwd, p));
    ResolveNoEmpty([], Components(Join(cwd, p)));
    RelFromNonEmpty(AbsParts(cwd, "."), AbsParts(cwd, p));
  }

  lemma {:induction false} RelFromNonEmpty(start: seq<string>, target: seq<string>)
    requires NoEmpty(target)
    ensures RelFrom(start, target) != ""
    decreases |start|
  {
    if start != [] && target != [] && start[0] == target[0] {
      RelFromNonEmpty(start[1..], target[1..]);
    } else {
      var rel := Ups(|start|) + target;
      if rel != [] {
        assert rel[0] != "" by {
          if |start| == 0 { assert rel[0] == target[0]; }
        }
      }
    }
  }

  lemma {:induction false} ResolveNoEmpty(acc: seq<string>, parts: seq<string>)
    requires NoEmpty(acc) && NoEmpty(parts)
    ensures NoEmpty(Resolve(acc, parts))
    decreases |parts|
  {
    if parts != [] {
      var acc' := if parts[0] == "." then acc
                  else if parts[0] == ".." then (if acc == [] then [] else acc[..|acc| - 1])
                  else acc + [parts[0]];
      assert NoEmpty(acc');
      ResolveNoEmpty(acc', parts[1..]);
    }
  }

  // ---------------------------------------------------------------------
  // Splitting and normalising
  // ---------------------------------------------------------------------

  /** A slash separates: the components of `a/b` are those of `a` followed by those of `b`. */
  lemma {:induction false} ComponentsAcrossSlash(a: string, b: string)
    ensures Components(a + "/" + b) == Components(a) + Components(b)
    decreases |a|
  {
    var s := a + "/" + b;
    if a == [] {
      assert s[1..] == b;
    } else if a[0] == '/' {
      assert s[1..] == a[1..] + "/" + b;
      ComponentsAcrossSlash(a[1..], b);
    } else {
      var n := PieceLen(a);
      FirstPieceAcross(a, b);
      ComponentsAcrossSlash(a[n..], b);
    }
  }

  /** Splitting `a/b` starts with the first piece of `a` when `a` does not start with a slash. */
  lemma FirstPieceAcross(a: string, b: string)
    requires a != [] && a[0] != '/'
    ensures var s := a + "/" + b; var n := PieceLen(a);
      n <= |a| && Components(s) == [a[..n]] + Components(a[n..] + "/" + b)
  {
    var s := a + "/" + b;
    var n := PieceLen(a);
    PieceLenAcross(a, "/" + b);
    assert s == a + ("/" + b);
    assert s[..n] == a[..n];
    assert s[n..] == a[n..] + "/" + b;
  }

  /** The first piece of `a + t` is that of `a` when `t` starts with a slash. */
  lemma {:induction false} PieceLenAcross(a: string, t: string)
    requires |t| > 0 && t[0] == '/'
    ensures PieceLen(a + t) == PieceLen(a)
    decreases |a|
  {
    if a != [] && a[0] != '/' {
      assert (a + t)[1..] == a[1..] + t;
      PieceLenAcross(a[1..], t);
    } else if a == [] {
      assert a + t == t;
    }
  }

  /** Normalising in two stretches is normalising the whole. */
  lemma {:induction false} ResolveAppend(acc: seq<string>, a: seq<string>, b: seq<string>)
    ensures Resolve(acc, a + b) == Resolve(Resolve(acc, a), b)
    decreases |a|
  {
    if a == [] {
      assert a + b == b;
    } else {
      assert (a + b)[0] == a[0] && (a + b)[1..] == a[1..] + b;
      var acc' := if a[0] == "." then acc
                  else if a[0] == ".." then (if acc == [] then [] else acc[..|acc| - 1])
                  else acc + [a[0]];
      ResolveAppend(acc', a[1..], b);
    }
  }

  /** Components with neither `.` nor `..` among them. */
  predicate Plain(parts: seq<string>) {
    forall i :: 0 <= i < |parts| ==> parts[i] != "." && parts[i] != ".."
  }

  /** The components of a path, `.` left out. */
  function DropDots(parts: seq<string>): (r: seq<string>)
    ensures |r| <= |parts|
  {
    if parts == [] then []
    else if parts[0] == "." then DropDots(parts[1..])
    else [parts[0]] + DropDots(parts[1..])
  }

  /** Without `..`, normalising only appends the components that are not `.`. */
  lemma {:induction false} ResolveNoParent(acc: seq<string>, parts: seq<string>)
    requires forall i :: 0 <= i < |parts| ==> parts[i] != ".."
    ensures Resolve(acc, parts) == acc + DropDots(parts)
    ensures Plain(DropDots(parts))
    decreases |parts|
  {
    if parts != [] {
      ResolveNoParent(if parts[0] == "." then acc else acc + [parts[0]], parts[1..]);
      if parts[0] != "." {
        var rest := DropDots(parts[1..]);
        assert ([parts[0]] + rest)[0] == parts[0];
        assert forall i :: 1 <= i < |rest| + 1 ==> ([parts[0]] + rest)[i] == rest[i - 1];
      }
    }
  }

  /** From a directory into a plain extension of it, `relpath` is just the extension. */
  lemma {:induction false} RelFromExtension(start: seq<string>, d: seq<string>)
    ensures RelFrom(start, start + d) == if d == [] then "." else JoinAll(d)
    decreases |start|
  {
    if start != [] {
      assert (start + d)[0] == start[0] && (start + d)[1..] == start[1..] + d;
      RelFromExtension(start[1..], d);
    } else {
      assert start + d == d && Ups(0) + d == d;
    }
  }

  lemma ComponentsDot()
    ensures Components(".") == ["."]
  {
    assert PieceLen(".") == 1 by { assert "."[1..] == ""; }
    assert "."[1..] == "" && "."[..1] == ".";
  }

  /** Joining onto a directory splits into the directory's components and the name's. */
  lemma JoinComponents(a: string, b: string)
    requires !IsAbsolute(b)
    ensures Components(Join(a, b)) == Components(a) + Components(b)
  {
    if a == "" {
      assert Join(a, b) == b;
    } else if a[|a| - 1] == '/' {
      var a' := a[..|a| - 1];
      assert a == a' + "/";
      assert Join(a, b) == a' + "/" + b;
      ComponentsAfterSlash(a', b);
    } else {
      assert Join(a, b) == a + "/" + b;
      ComponentsAcrossSlash(a, b);
    }
  }

  /** A trailing slash adds no component. */
  lemma ComponentsAfterSlash(a: string, b: string)
    ensures Components(a + "/" + b) == Components(a + "/") + Components(b)
  {
    ComponentsAcrossSlash(a, b);
    ComponentsAcrossSlash(a, "");
    assert a + "/" + "" == a + "/";
    assert Components("") == [];
  }

  // ---------------------------------------------------------------------
  // What relpath does to the paths the analyser builds
  // ---------------------------------------------------------------------

  /**
   A relative path without `..` comes back from `relpath` as its own
   components, `.` and empty ones dropped, joined by single slashes; `.`
   when nothing is left.
   */
  lemma RelPathOfPlain(cwd: string, p: string)
    requires p != "" && !IsAbsolute(p)
    requires forall i :: 0 <= i < |Components(p)| ==> Components(p)[i] != ".."
    ensures var d := DropDots(Components(p));
      RelPath(cwd, p) == if d == [] then "." else JoinAll(d)
  {
    var c := Components(cwd);
    var d := DropDots(Components(p));
    JoinComponents(cwd, ".");
    ComponentsDot();
    ResolveAppend([], c, ["."]);
    var start := Resolve([], c);
    assert AbsParts(cwd, ".") == start;
    JoinComponents(cwd, p);
    ResolveAppend([], c, Components(p));
    ResolveNoParent(start, Components(p));
    assert AbsParts(cwd, p) == start + d;
    RelFromExtension(start, d);
  }

  lemma ComponentsDotSlash(q: string)
    ensures Components("./" + q) == ["."] + Components(q)
  {
    assert "./" + q == "." + "/" + q;
    ComponentsAcrossSlash(".", q);
    ComponentsDot();
  }

  /** A `.` component anywhere changes nothing. */
  lemma ResolveSkipsDot(c: seq<string>, r: seq<string>)
    ensures Resolve([], c + (["."] + r)) == Resolve([], c + r)
  {
    ResolveAppend([], c, ["."] + r);
    assert (["."] + r)[0] == "." && (["."] + r)[1..] == r;
    ResolveAppend([], c, r);
  }

  /** `./q` and `q` are the same place. */
  lemma AbsPartsDotSlash(cwd: string, q: string)
    requires !IsAbsolute(q)
    ensures AbsParts(cwd, "./" + q) == AbsParts(cwd, q)
  {
    ComponentsDotSlash(q);
    JoinComponents(cwd, "./" + q);
    JoinComponents(cwd, q);
    ResolveSkipsDot(Components(cwd), Components(q));
  }

  /** `relpath` depends only on where a path leads. */
  lemma RelPathSamePlace(cwd: string, p: string, q: string)
    requires p != "" && q != "" && AbsParts(cwd, p) == AbsParts(cwd, q)
    ensures RelPath(cwd, p) == RelPath(cwd, q)
  {
  }

  lemma JoinUnderDot(d: string, n: string)
    requires !IsAbsolute(d) && !IsAbsolute(n)
    ensures Join("./" + d, n) == "./" + Join(d, n)
  {
    var dd := "./" + d;
    if d == "" {
      assert dd == "./" && dd[|dd| - 1] == '/';
      assert Join(dd, n) == dd + n;
    } else if d[|d| - 1] == '/' {
      assert dd[|dd| - 1] == '/';
      assert Join(dd, n) == dd + n;
      assert dd + n == "./" + (d + n);
    } else {
      assert dd[|dd| - 1] == d[|d| - 1];
      assert Join(dd, n) == dd + "/" + n;
      assert dd + "/" + n == "./" + (d + "/" + n);
    }
  }

  /**
   A walk of `.` reaches the file `n` of directory `d` as `./d/n`, a walk
   of `d` as `d/n`: `relpath` names both the same.
   */
  lemma RelPathDotWalk(cwd: string, d: string, n: string)
    requires !IsAbsolute(d) && n != "" && !IsAbsolute(n)
    ensures RelPath(cwd, Join("./" + d, n)) == RelPath(cwd, Join(d, n))
  {
    var q := Join(d, n);
    JoinUnderDot(d, n);
    AbsPartsDotSlash(cwd, q);
    RelPathSamePlace(cwd, "./" + q, q);
  }

  /** A plain path component: non-empty, no slash, neither `.` nor `..`. */
  predicate IsPiece(s: string) { s != "" && '/' !in s && s != "." && s != ".." }

  lemma {:induction false} PieceLenWhole(s: string)
    requires '/' !in s
    ensures PieceLen(s) == |s|
  {
    if s != [] {
      assert s[1..] == s[1..] && '/' !in s[1..] by { forall k | 0 <= k < |s[1..]| ensures s[1..][k] != '/' { assert s[1..][k] == s[k + 1]; } }
      PieceLenWhole(s[1..]);
    }
  }

  lemma ComponentsOfPiece(s: string)
    requires s != "" && '/' !in s
    ensures Components(s) == [s]
  {
    PieceLenWhole(s);
    assert s[..|s|] == s && s[|s|..] == [];
  }

  /** The file `n` of the relative directory `d`, both plain, is `d/n` to `relpath`. */
  lemma RelPathOfDirFile(cwd: string, d: string, n: string)
    requires IsPiece(d) && IsPiece(n)
    ensures RelPath(cwd, Join(d, n)) == d + "/" + n
  {
    var p := d + "/" + n;
    assert d[|d| - 1] != '/' by { assert d[|d| - 1] in d; }
    assert Join(d, n) == p;
    ComponentsAcrossSlash(d, n);
    ComponentsOfPiece(d);
    ComponentsOfPiece(n);
    assert Components(p) == [d, n];
    assert DropDots([d, n]) == [d, n] by {
      assert [d, n][1..] == [n] && [n][1..] == [];
    }
    RelPathOfPlain(cwd, p);
    assert JoinAll([d, n]) == d + "/" + JoinAll([n]) by { assert [d, n][1..] == [n]; }
  }
}
