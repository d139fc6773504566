/**
 The kernel's string library (lib/string.c). A C string is a buffer of
 8-bit characters holding a NUL somewhere; its contents are the
 characters before the first NUL. Pointers into a buffer are indices, and
 NULL is None. Memory routines work on byte buffers.
 */
module CString {
  import opened CTypes
  import opened Util

  const Nul: Char8 := '\0'

  /** The buffer holds a terminating NUL. */
  predicate Terminated(b: seq<Char8>) {
    exists i | 0 <= i < |b| :: b[i] == Nul
  }

  /** The strlen loop from index i: counts characters up to the first NUL. */
  function LenFrom(b: seq<Char8>, i: nat): (n: nat)
    requires exists j | i <= j < |b| :: b[j] == Nul
    requires forall k | 0 <= k < i :: b[k] != Nul
    decreases |b| - i
    ensures i <= n < |b| && b[n] == Nul && forall k | 0 <= k < n :: b[k] != Nul
  {
    if b[i] == Nul then i
    else LenFrom(b, i + 1)
  }

  /** strlen: the index of the first NUL, i.e. the number of characters before it. */
  function StrLen(b: seq<Char8>): (n: nat)
    requires Terminated(b)
    ensures n < |b| && b[n] == Nul && forall k | 0 <= k < n :: b[k] != Nul
  {
    LenFrom(b, 0)
  }

  /** The characters of the string held in b. */
  function Str(b: seq<Char8>): (s: seq<Char8>)
    requires Terminated(b)
    ensures |s| == StrLen(b) && Nul !in s && b[..|s| + 1] == s + [Nul]
  {
    b[..StrLen(b)]
  }

  /** The buffer a string literal occupies: its characters and a NUL. */
  function CStr(s: seq<Char8>): (b: seq<Char8>)
    requires Nul !in s
    ensures Terminated(b) && Str(b) == s
  {
    var b := s + [Nul];
    assert b[|s|] == Nul;
    assert forall k | 0 <= k < |s| :: b[k] == s[k] && s[k] != Nul;
    b
  }

  // ---------------------------------------------------------------------
  // Comparison
  // ---------------------------------------------------------------------

  /** Byte-wise lexicographic order of C strings: a proper prefix comes first. */
  predicate LexLess(x: seq<Char8>, y: seq<Char8>) {
    if |x| == 0 then |y| > 0
    else |y| > 0 && (x[0] < y[0] || (x[0] == y[0] && LexLess(x[1..], y[1..])))
  }

  /** The strcmp loop from index i, where the two strings agree before i. */
  function CmpFrom(a: seq<Char8>, b: seq<Char8>, i: nat): (r: int)
    requires Terminated(a) && Terminated(b) && i <= StrLen(a) && i <= StrLen(b)
    decreases StrLen(a) - i
  {
    if a[i] != Nul && a[i] == b[i] then CmpFrom(a, b, i + 1)
    else a[i] as int - b[i] as int
  }

  /** strcmp: the difference of the first unequal characters (as unsigned bytes), or 0. */
  function StrCmp(a: seq<Char8>, b: seq<Char8>): (r: int)
    requires Terminated(a) && Terminated(b)
    ensures -0xFF <= r <= 0xFF
  {
    CmpBound(a, b, 0);
    CmpFrom(a, b, 0)
  }

  lemma {:induction false} CmpBound(a: seq<Char8>, b: seq<Char8>, i: nat)
    requires Terminated(a) && Terminated(b) && i <= StrLen(a) && i <= StrLen(b)
    decreases StrLen(a) - i
    ensures -0xFF <= CmpFrom(a, b, i) <= 0xFF
  {
    if a[i] != Nul && a[i] == b[i] {
      CmpBound(a, b, i + 1);
    }
  }

  /** From index i on, the loop's sign is the order of the remaining characters. */
  lemma {:induction false} CmpFromOrder(a: seq<Char8>, b: seq<Char8>, i: nat)
    requires Terminated(a) && Terminated(b) && i <= StrLen(a) && i <= StrLen(b)
    decreases StrLen(a) - i
    ensures CmpFrom(a, b, i) == 0 <==> Str(a)[i..] == Str(b)[i..]
    ensures CmpFrom(a, b, i) < 0 <==> LexLess(Str(a)[i..], Str(b)[i..])
  {
    var x, y := Str(a)[i..], Str(b)[i..];
    if a[i] != Nul && a[i] == b[i] {
      CmpFromOrder(a, b, i + 1);
      assert x == [a[i]] + Str(a)[i + 1..] && y == [b[i]] + Str(b)[i + 1..];
      assert x[1..] == Str(a)[i + 1..] && y[1..] == Str(b)[i + 1..];
    } else if a[i] == Nul {
      assert |x| == 0;
      if b[i] == Nul {
        assert |y| == 0;
      } else {
        assert |y| > 0;
      }
    } else {
      assert |x| > 0 && x[0] == a[i];
      if b[i] == Nul {
        assert |y| == 0;
      } else {
        assert |y| > 0 && y[0] == b[i] && x[0] != y[0];
      }
    }
  }

  /** strcmp is 0 exactly for equal strings and negative exactly when a sorts before b. */
  lemma StrCmpOrder(a: seq<Char8>, b: seq<Char8>)
    requires Terminated(a) && Terminated(b)
    ensures StrCmp(a, b) == 0 <==> Str(a) == Str(b)
    ensures StrCmp(a, b) < 0 <==> LexLess(Str(a), Str(b))
  {
    CmpFromOrder(a, b, 0);
    assert Str(a)[0..] == Str(a) && Str(b)[0..] == Str(b);
  }

  /** At most the first m characters of a string, counting its terminator. */
  function Bounded(s: seq<Char8>, m: nat): (r: seq<Char8>)
  {
    (s + [Nul])[..Min(m, |s| + 1)]
  }

  /** The strncmp loop from index i with m characters still to compare. */
  function NCmpFrom(a: seq<Char8>, b: seq<Char8>, i: nat, m: nat): (r: int)
    requires Terminated(a) && Terminated(b) && i <= StrLen(a) && i <= StrLen(b)
    decreases m
  {
    if m == 0 then 0
    else if a[i] != b[i] || a[i] == Nul then a[i] as int - b[i] as int
    else NCmpFrom(a, b, i + 1, m - 1)
  }

  /** strncmp: compares at most n characters, stopping after a NUL. */
  function StrNCmp(a: seq<Char8>, b: seq<Char8>, n: nat): (r: int)
    requires Terminated(a) && Terminated(b)
  {
    NCmpFrom(a, b, 0, n)
  }

  /** Bounding a string that starts with c keeps c and bounds the rest one shorter. */
  lemma BoundedCons(c: Char8, x: seq<Char8>, m: nat)
    requires m > 0
    ensures Bounded([c] + x, m) == [c] + Bounded(x, m - 1)
  {
    assert ([c] + x) + [Nul] == [c] + (x + [Nul]);
  }

  /** Strings that start with the same character are equal exactly when their rests are. */
  lemma ConsEqual(c: Char8, p: seq<Char8>, q: seq<Char8>)
    ensures [c] + p == [c] + q <==> p == q
  {
    if [c] + p == [c] + q {
      assert p == ([c] + p)[1..] && q == ([c] + q)[1..];
    }
  }

  lemma {:induction false} NCmpFromZero(a: seq<Char8>, b: seq<Char8>, i: nat, m: nat)
    requires Terminated(a) && Terminated(b) && i <= StrLen(a) && i <= StrLen(b)
    decreases m
    ensures NCmpFrom(a, b, i, m) == 0 <==> Bounded(Str(a)[i..], m) == Bounded(Str(b)[i..], m)
    ensures m > StrLen(a) - i ==> NCmpFrom(a, b, i, m) == CmpFrom(a, b, i)
  {
    var x, y := Str(a)[i..], Str(b)[i..];
    if m > 0 {
      assert (x + [Nul])[0] == a[i] by {
        if i < StrLen(a) { assert x[0] == a[i]; }
      }
      assert (y + [Nul])[0] == b[i] by {
        if i < StrLen(b) { assert y[0] == b[i]; }
      }
      assert Bounded(x, m)[0] == a[i] && Bounded(y, m)[0] == b[i];
      if a[i] == b[i] && a[i] != Nul {
        NCmpFromZero(a, b, i + 1, m - 1);
        assert x == [a[i]] + Str(a)[i + 1..] && y == [b[i]] + Str(b)[i + 1..];
        BoundedCons(a[i], Str(a)[i + 1..], m);
        BoundedCons(b[i], Str(b)[i + 1..], m);
        ConsEqual(a[i], Bounded(Str(a)[i + 1..], m - 1), Bounded(Str(b)[i + 1..], m - 1));
      } else if a[i] == b[i] {
        assert |x| == 0 && |y| == 0;
      }
    }
  }

  /** strncmp is 0 exactly when the first n characters (stopping at the terminator) agree. */
  lemma StrNCmpPrefix(a: seq<Char8>, b: seq<Char8>, n: nat)
    requires Terminated(a) && Terminated(b)
    ensures StrNCmp(a, b, n) == 0 <==> Bounded(Str(a), n) == Bounded(Str(b), n)
    ensures n > StrLen(a) ==> StrNCmp(a, b, n) == StrCmp(a, b)
  {
    NCmpFromZero(a, b, 0, n);
    assert Str(a)[0..] == Str(a) && Str(b)[0..] == Str(b);
  }

  // ---------------------------------------------------------------------
  // Searching
  // ---------------------------------------------------------------------

  /** `(char) c`: the low eight bits of an int. */
  function AsChar(c: int): (r: Char8)
    ensures r as int == c % 0x100
  {
    (c % 0x100) as char
  }

  /** The strchr loop from index i. */
  function ChrFrom(b: seq<Char8>, ch: Char8, i: nat): (r: Option<nat>)
    requires Terminated(b) && i <= StrLen(b)
    decreases StrLen(b) - i
  {
    if b[i] == ch then Some(i)
    else if b[i] == Nul then None
    else ChrFrom(b, ch, i + 1)
  }

  /** strchr: the first occurrence of `(char) c`, the terminator for c's low byte 0, or NULL. */
  function StrChr(b: seq<Char8>, c: int): (r: Option<nat>)
    requires Terminated(b)
    ensures r.Some? ==> (r.value <= StrLen(b) && b[r.value] == AsChar(c)
      && forall k | 0 <= k < r.value :: b[k] != AsChar(c))
    ensures r.None? <==> AsChar(c) != Nul && AsChar(c) !in Str(b)
  {
    ChrFromSpec(b, AsChar(c), 0);
    ChrFrom(b, AsChar(c), 0)
  }

  lemma {:induction false} ChrFromSpec(b: seq<Char8>, ch: Char8, i: nat)
    requires Terminated(b) && i <= StrLen(b)
    decreases StrLen(b) - i
    ensures var r := ChrFrom(b, ch, i);
      (r.Some? ==> i <= r.value <= StrLen(b) && b[r.value] == ch && forall k | i <= k < r.value :: b[k] != ch)
      && (r.None? <==> ch != Nul && forall k | i <= k < StrLen(b) :: b[k] != ch)
  {
    if b[i] != ch && b[i] != Nul {
      ChrFromSpec(b, ch, i + 1);
    }
  }

  /** The strrchr loop from index i, with `last` the latest match so far. */
  function RChrFrom(b: seq<Char8>, ch: Char8, i: nat, last: Option<nat>): (r: Option<nat>)
    requires Terminated(b) && i <= StrLen(b)
    decreases StrLen(b) - i
  {
    if b[i] == Nul then last
    else RChrFrom(b, ch, i + 1, if b[i] == ch then Some(i) else last)
  }

  /**
   strrchr: the last occurrence of `(char) c` among the characters; for
   c == 0 the terminator. The NUL test is on c itself, so a c whose low
   byte is 0 but which is not 0 finds nothing.
   */
  function StrRChr(b: seq<Char8>, c: int): (r: Option<nat>)
    requires Terminated(b)
    ensures c == 0 ==> r == Some(StrLen(b))
    ensures c != 0 && r.Some? ==> (r.value < StrLen(b) && b[r.value] == AsChar(c)
      && forall k | r.value < k < StrLen(b) :: b[k] != AsChar(c))
    ensures c != 0 && r.None? ==> forall k | 0 <= k < StrLen(b) :: b[k] != AsChar(c)
  {
    RChrFromSpec(b, AsChar(c), 0, None);
    if c == 0 then Some(StrLen(b)) else RChrFrom(b, AsChar(c), 0, None)
  }

  lemma {:induction false} RChrFromSpec(b: seq<Char8>, ch: Char8, i: nat, last: Option<nat>)
    requires Terminated(b) && i <= StrLen(b)
    requires last.Some? ==> last.value < i && b[last.value] == ch && forall k | last.value < k < i :: b[k] != ch
    requires last.None? ==> forall k | 0 <= k < i :: b[k] != ch
    decreases StrLen(b) - i
    ensures var r := RChrFrom(b, ch, i, last);
      (r.Some? ==> r.value < StrLen(b) && b[r.value] == ch && forall k | r.value < k < StrLen(b) :: b[k] != ch)
      && (r.None? ==> forall k | 0 <= k < StrLen(b) :: b[k] != ch)
  {
    if b[i] != Nul {
      RChrFromSpec(b, ch, i + 1, if b[i] == ch then Some(i) else last);
    }
  }

  /** strchr and strrchr agree on whether a non-NUL character occurs, and the first occurrence is not after the last. */
  lemma ChrAndRChr(b: seq<Char8>, c: int)
    requires Terminated(b) && AsChar(c) != Nul
    ensures StrChr(b, c).None? <==> StrRChr(b, c).None?
    ensures StrChr(b, c).Some? ==> StrChr(b, c).value <= StrRChr(b, c).value
  {
    var f, l := StrChr(b, c), StrRChr(b, c);
    if f.Some? {
      assert f.value < StrLen(b);
      assert l.Some?;
    }
    if l.Some? {
      assert AsChar(c) in Str(b) by {
        assert Str(b)[l.value] == AsChar(c);
      }
    }
  }

  /** The strstr loop: candidate positions from i while the needle still fits. */
  function StrFrom(h: seq<Char8>, n: seq<Char8>, i: nat): (r: Option<nat>)
    requires i + |n| <= |h| + 1
    decreases |h| - i
  {
    if i + |n| > |h| then None
    else if h[i..i + |n|] == n then Some(i)
    else StrFrom(h, n, i + 1)
  }

  /** strstr: the first position where the needle's characters occur in the haystack's; an empty needle matches at 0. */
  function StrStr(hay: seq<Char8>, needle: seq<Char8>): (r: Option<nat>)
    requires Terminated(hay) && Terminated(needle)
    ensures StrLen(needle) == 0 ==> r == Some(0)
    ensures r.Some? ==> (OccursAt(Str(hay), Str(needle), r.value)
      && forall k | 0 <= k < r.value :: !OccursAt(Str(hay), Str(needle), k))
    ensures r.None? ==> forall k :: !OccursAt(Str(hay), Str(needle), k)
  {
    var h, n := Str(hay), Str(needle);
    if |n| == 0 then Some(0)
    else if |h| < |n| then None
    else
      StrFromSpec(h, n, 0);
      StrFrom(h, n, 0)
  }

  lemma {:induction false} StrFromSpec(h: seq<Char8>, n: seq<Char8>, i: nat)
    requires i + |n| <= |h| + 1
    requires forall k | 0 <= k < i :: !OccursAt(h, n, k)
    decreases |h| - i
    ensures var r := StrFrom(h, n, i);
      (r.Some? ==> OccursAt(h, n, r.value) && forall k | 0 <= k < r.value :: !OccursAt(h, n, k))
      && (r.None? ==> forall k :: !OccursAt(h, n, k))
  {
    if i + |n| <= |h| && h[i..i + |n|] != n {
      StrFromSpec(h, n, i + 1);
    }
  }

  /** strstr agrees with the substring test. */
  lemma StrStrFinds(hay: seq<Char8>, needle: seq<Char8>)
    requires Terminated(hay) && Terminated(needle)
    ensures StrStr(hay, needle).Some? <==> HasSubstring(Str(hay), Str(needle))
  {
    if StrStr(hay, needle).Some? {
      assert OccursAt(Str(hay), Str(needle), StrStr(hay, needle).value);
    }
  }

  // ---------------------------------------------------------------------
  // Copying
  // ---------------------------------------------------------------------

  /**
   strncpy: the first n cells of dest get the source's characters up to its
   NUL and then NULs; the rest of dest is untouched.
   */
  function StrNCpy(dest: seq<Char8>, src: seq<Char8>, n: nat): (r: seq<Char8>)
    requires Terminated(src) && n <= |dest|
    ensures |r| == |dest| && r[n..] == dest[n..]
    ensures forall k | 0 <= k < n :: r[k] == if k < StrLen(src) then src[k] else Nul
  {
    var m := Min(n, StrLen(src));
    src[..m] + seq(n - m, _ => Nul) + dest[n..]
  }

  /** When the source is shorter than n, strncpy leaves a copy of the string in dest. */
  lemma StrNCpyCopies(dest: seq<Char8>, src: seq<Char8>, n: nat)
    requires Terminated(src) && n <= |dest| && StrLen(src) < n
    ensures Terminated(StrNCpy(dest, src, n)) && Str(StrNCpy(dest, src, n)) == Str(src)
  {
    var r := StrNCpy(dest, src, n);
    assert r[StrLen(src)] == Nul;
    assert StrLen(r) == StrLen(src) by {
      assert forall k | 0 <= k < StrLen(src) :: r[k] == src[k];
    }
  }

  /** strcat: the source's characters and NUL written over dest's terminator. */
  function StrCat(dest: seq<Char8>, src: seq<Char8>): (r: seq<Char8>)
    requires Terminated(dest) && Terminated(src) && StrLen(dest) + StrLen(src) < |dest|
    ensures |r| == |dest| && Terminated(r) && Str(r) == Str(dest) + Str(src)
    ensures r[StrLen(dest) + StrLen(src) + 1..] == dest[StrLen(dest) + StrLen(src) + 1..]
  {
    var d, s := StrLen(dest), StrLen(src);
    var r := dest[..d] + src[..s + 1] + dest[d + s + 1..];
    assert r[d + s] == Nul;
    assert forall k | 0 <= k < d + s :: r[k] == (Str(dest) + Str(src))[k] && r[k] != Nul;
    assert StrLen(r) == d + s;
    r
  }

  /** strcpy: an empty string in dest, then strcat. */
  function StrCpy(dest: seq<Char8>, src: seq<Char8>): (r: seq<Char8>)
    requires |dest| > 0 && Terminated(src) && StrLen(src) < |dest|
    ensures |r| == |dest| && Terminated(r) && Str(r) == Str(src)
  {
    var d := dest[0 := Nul];
    assert d[0] == Nul;
    StrCat(d, src)
  }

  // ---------------------------------------------------------------------
  // Memory routines
  // ---------------------------------------------------------------------

  /** The contents of mem after n bytes at src are copied to dst, as if through a temporary. */
  function Moved(mem: seq<u8>, dst: nat, src: nat, n: nat): (r: seq<u8>)
    requires dst + n <= |mem| && src + n <= |mem|
    ensures |r| == |mem| && forall k | 0 <= k < |mem| :: r[k] == if dst <= k < dst + n then mem[src + k - dst] else mem[k]
  {
    mem[..dst] + mem[src..src + n] + mem[dst + n..]
  }

  /**
   memmove within one buffer: a forward byte loop when dst <= src, a
   backward one otherwise, so that no byte is overwritten before it is read.
   */
  method MemMove(mem: seq<u8>, dst: nat, src: nat, n: nat) returns (r: seq<u8>)
    requires dst + n <= |mem| && src + n <= |mem|
    ensures r == Moved(mem, dst, src, n)
  {
    r := mem;
    if dst <= src {
      var i := 0;
      while i < n
        invariant 0 <= i <= n && |r| == |mem|
        invariant forall k | dst <= k < dst + i :: r[k] == mem[src + k - dst]
        invariant forall k | 0 <= k < |mem| && !(dst <= k < dst + i) :: r[k] == mem[k]
      {
        r := r[dst + i := r[src + i]];
        i := i + 1;
      }
    } else {
      var i := n;
      while i > 0
        invariant 0 <= i <= n && |r| == |mem|
        invariant forall k | dst + i <= k < dst + n :: r[k] == mem[src + k - dst]
        invariant forall k | 0 <= k < |mem| && !(dst + i <= k < dst + n) :: r[k] == mem[k]
      {
        r := r[dst + i - 1 := r[src + i - 1]];
        i := i - 1;
      }
    }
  }

  /** memcpy: n bytes of src over the start of dest. */
  function MemCpy(dest: seq<u8>, src: seq<u8>, n: nat): (r: seq<u8>)
    requires n <= |dest| && n <= |src|
    ensures |r| == |dest| && forall k | 0 <= k < |dest| :: r[k] == if k < n then src[k] else dest[k]
  {
    src[..n] + dest[n..]
  }

  /** A move between separate ranges is a plain copy of the source range over the destination range. */
  lemma MoveIsCopy(mem: seq<u8>, dst: nat, src: nat, n: nat)
    requires dst + n <= |mem| && src + n <= |mem|
    ensures Moved(mem, dst, src, n)[dst..dst + n] == MemCpy(mem[dst..dst + n], mem[src..src + n], n)
    ensures Moved(mem, dst, src, n)[..dst] == mem[..dst] && Moved(mem, dst, src, n)[dst + n..] == mem[dst + n..]
  {}

  /** memset: n bytes set to `(char) c`. */
  function MemSet(s: seq<u8>, c: int, n: nat): (r: seq<u8>)
    requires n <= |s|
    ensures |r| == |s| && forall k | 0 <= k < |s| :: r[k] == if k < n then c % 0x100 else s[k]
  {
    seq(n, _ => c % 0x100) + s[n..]
  }

  /** memcmp from index i: the difference of the first unequal bytes among the first n, or 0. */
  function MemCmpFrom(a: seq<u8>, b: seq<u8>, n: nat, i: nat): (r: int)
    requires n <= |a| && n <= |b| && i <= n
    decreases n - i
  {
    if i == n then 0
    else if a[i] != b[i] then a[i] as int - b[i] as int
    else MemCmpFrom(a, b, n, i + 1)
  }

  /** memcmp: 0 exactly for equal ranges; otherwise the sign of the first difference. */
  function MemCmp(a: seq<u8>, b: seq<u8>, n: nat): (r: int)
    requires n <= |a| && n <= |b|
    ensures r == 0 <==> a[..n] == b[..n]
    ensures r != 0 ==> exists k | 0 <= k < n :: a[..k] == b[..k] && r == a[k] as int - b[k] as int
  {
    MemCmpSpec(a, b, n, 0);
    MemCmpFrom(a, b, n, 0)
  }

  lemma {:induction false} MemCmpSpec(a: seq<u8>, b: seq<u8>, n: nat, i: nat)
    requires n <= |a| && n <= |b| && i <= n && a[..i] == b[..i]
    decreases n - i
    ensures MemCmpFrom(a, b, n, i) == 0 <==> a[..n] == b[..n]
    ensures MemCmpFrom(a, b, n, i) != 0 ==> exists k | i <= k < n :: a[..k] == b[..k] && MemCmpFrom(a, b, n, i) == a[k] as int - b[k] as int
  {
    if i < n {
      if a[i] != b[i] {
        assert a[..n][i] != b[..n][i];
      } else {
        assert a[..i + 1] == a[..i] + [a[i]] && b[..i + 1] == b[..i] + [b[i]];
        MemCmpSpec(a, b, n, i + 1);
      }
    }
  }

  /** memchr from index i. */
  function MemChrFrom(s: seq<u8>, ch: u8, n: nat, i: nat): (r: Option<nat>)
    requires n <= |s| && i <= n
    decreases n - i
  {
    if i == n then None
    else if s[i] == ch then Some(i)
    else MemChrFrom(s, ch, n, i + 1)
  }

  /** memchr: the first of the first n bytes equal to `(uint8_t) c`. */
  function MemChr(s: seq<u8>, c: int, n: nat): (r: Option<nat>)
    requires n <= |s|
    ensures r.Some? ==> r.value < n && s[r.value] == c % 0x100 && forall k | 0 <= k < r.value :: s[k] != c % 0x100
    ensures r.None? ==> forall k | 0 <= k < n :: s[k] != c % 0x100
  {
    MemChrSpec(s, c % 0x100, n, 0);
    MemChrFrom(s, c % 0x100, n, 0)
  }

  lemma {:induction false} MemChrSpec(s: seq<u8>, ch: u8, n: nat, i: nat)
    requires n <= |s| && i <= n && forall k | 0 <= k < i :: s[k] != ch
    decreases n - i
    ensures var r := MemChrFrom(s, ch, n, i);
      (r.Some? ==> i <= r.value < n && s[r.value] == ch && forall k | 0 <= k < r.value :: s[k] != ch)
      && (r.None? ==> forall k | 0 <= k < n :: s[k] != ch)
  {
    if i < n && s[i] != ch {
      MemChrSpec(s, ch, n, i + 1);
    }
  }

  // ---------------------------------------------------------------------
  // Numbers and file names
  // ---------------------------------------------------------------------

  predicate IsDigit(c: Char8) { '0' <= c <= '9' }
  predicate IsBlank(c: Char8) { c == ' ' || c == '\t' }

  /** `c - '0'` for a decimal digit. */
  function DigitOf(c: Char8): (d: nat)
    requires IsDigit(c)
    ensures d < 10
  {
    c as int - '0' as int
  }

  /** The value of a run of decimal digits, most significant first. */
  function DigitValue(ds: seq<Char8>): (v: nat)
    requires forall k | 0 <= k < |ds| :: IsDigit(ds[k])
  {
    if |ds| == 0 then 0
    else DigitValue(ds[..|ds| - 1]) * 10 + DigitOf(ds[|ds| - 1])
  }

  function Pow10(k: nat): (p: nat)
    ensures p >= 1
  {
    if k == 0 then 1 else 10 * Pow10(k - 1)
  }

  /** The atol digit loop from index i with accumulator acc. */
  function DigitsFrom(b: seq<Char8>, i: nat, acc: nat): (r: nat)
    requires Terminated(b) && i <= StrLen(b)
    decreases StrLen(b) - i
  {
    if b[i] == Nul || !IsDigit(b[i]) then acc
    else DigitsFrom(b, i + 1, acc * 10 + DigitOf(b[i]))
  }

  /** The atol blank skip: the index of the first character that is neither space nor tab. */
  function SkipBlanks(b: seq<Char8>, i: nat): (j: nat)
    requires Terminated(b) && i <= StrLen(b)
    decreases StrLen(b) - i
    ensures i <= j <= StrLen(b) && !IsBlank(b[j]) && forall k | i <= k < j :: IsBlank(b[k])
  {
    if IsBlank(b[i]) then SkipBlanks(b, i + 1) else i
  }

  /**
   atol: optional blanks, one optional sign, then digits up to the first
   other character. The int64 accumulator is taken to wrap on overflow.
   */
  function Atol(b: seq<Char8>): (r: i64)
    requires Terminated(b)
  {
    var i := SkipBlanks(b, 0);
    var j := if b[i] == '-' || b[i] == '+' then i + 1 else i;
    AsI64(Signed(b[i] == '-', DigitsFrom(b, j, 0)))
  }

  /** Peeling the leading digit: value = d * 10^(n-1) + value of the rest. */
  lemma {:induction false} DigitValueFront(ds: seq<Char8>)
    requires |ds| > 0 && forall k | 0 <= k < |ds| :: IsDigit(ds[k])
    ensures DigitValue(ds) == DigitOf(ds[0]) * Pow10(|ds| - 1) + DigitValue(ds[1..])
  {
    if |ds| > 1 {
      var m, t := ds[..|ds| - 1], ds[1..];
      DigitValueFront(m);
      assert m[1..] == t[..|t| - 1];
      assert t[|t| - 1] == ds[|ds| - 1];
      var e := DigitOf(ds[|ds| - 1]);
      assert DigitValue(ds) == DigitValue(m) * 10 + e;
      assert DigitValue(t) == DigitValue(m[1..]) * 10 + e;
      Shift(DigitOf(ds[0]), Pow10(|ds| - 2), DigitValue(m[1..]), e);
    }
  }

  lemma Shift(d: int, p: int, v: int, e: int)
    ensures (d * p + v) * 10 + e == d * (10 * p) + (v * 10 + e)
  {}

  /** The digit loop reads the value of the digits it passes. */
  lemma {:induction false} DigitsFromValue(b: seq<Char8>, i: nat, ds: seq<Char8>, acc: nat)
    requires Terminated(b) && i + |ds| <= StrLen(b)
    requires forall k | 0 <= k < |ds| :: IsDigit(ds[k]) && b[i + k] == ds[k]
    requires !IsDigit(b[i + |ds|])
    decreases |ds|
    ensures DigitsFrom(b, i, acc) == DigitValue(ds) + acc * Pow10(|ds|)
  {
    if |ds| > 0 {
      var d, rest := DigitOf(ds[0]), ds[1..];
      assert b[i] == ds[0];
      assert forall k | 0 <= k < |rest| :: IsDigit(rest[k]) && b[i + 1 + k] == rest[k] by {
        forall k | 0 <= k < |rest| ensures IsDigit(rest[k]) && b[i + 1 + k] == rest[k] {
          assert rest[k] == ds[k + 1];
        }
      }
      assert DigitsFrom(b, i, acc) == DigitsFrom(b, i + 1, acc * 10 + d);
      DigitsFromValue(b, i + 1, rest, acc * 10 + d);
      DigitValueFront(ds);
      Horner(acc, d, Pow10(|rest|), DigitValue(rest));
    }
  }

  lemma Horner(acc: int, d: int, p: int, v: int)
    ensures v + (acc * 10 + d) * p == (d * p + v) + acc * (10 * p)
  {}

  /** A NUL-free prefix moves the terminator along by its length. */
  lemma StrLenAppend(p: seq<Char8>, rest: seq<Char8>)
    requires Nul !in p && Terminated(rest)
    ensures Terminated(p + rest) && StrLen(p + rest) == |p| + StrLen(rest)
  {
    var b := p + rest;
    assert b[|p| + StrLen(rest)] == Nul;
    assert forall k | 0 <= k < |p| + StrLen(rest) :: b[k] != Nul by {
      forall k | 0 <= k < |p| + StrLen(rest) ensures b[k] != Nul {
        if k < |p| { assert b[k] == p[k]; } else { assert b[k] == rest[k - |p|]; }
      }
    }
  }

  /** Where the blank skip stops, given the blanks before it. */
  lemma SkipBlanksAt(b: seq<Char8>, j: nat)
    requires Terminated(b) && j <= StrLen(b) && !IsBlank(b[j]) && forall k | 0 <= k < j :: IsBlank(b[k])
    ensures SkipBlanks(b, 0) == j
  {}

  /** The blank skip passes a run of blanks in front of a string that does not start with one. */
  lemma SkipPrefix(blanks: seq<Char8>, tail: seq<Char8>)
    requires forall k | 0 <= k < |blanks| :: IsBlank(blanks[k])
    requires Terminated(tail) && !IsBlank(tail[0])
    ensures Terminated(blanks + tail) && SkipBlanks(blanks + tail, 0) == |blanks|
    ensures (blanks + tail)[|blanks|..] == tail
  {
    var b := blanks + tail;
    assert Nul !in blanks by {
      forall k | 0 <= k < |blanks| ensures blanks[k] != Nul {
        assert IsBlank(blanks[k]);
      }
    }
    StrLenAppend(blanks, tail);
    assert b[|blanks|] == tail[0];
    assert forall k | 0 <= k < |blanks| :: IsBlank(b[k]) by {
      forall k | 0 <= k < |blanks| ensures IsBlank(b[k]) {
        assert b[k] == blanks[k];
      }
    }
    SkipBlanksAt(b, |blanks|);
  }

  /** The digit loop over digits followed by a non-digit, at offset p of a buffer. */
  lemma DigitsAt(b: seq<Char8>, p: nat, ds: seq<Char8>, rest: seq<Char8>)
    requires Terminated(b) && p <= |b| && b[p..] == ds + rest
    requires forall k | 0 <= k < |ds| :: IsDigit(ds[k])
    requires Terminated(rest) && !IsDigit(rest[0])
    ensures p <= StrLen(b) ==> DigitsFrom(b, p, 0) == DigitValue(ds)
  {
    if p <= StrLen(b) {
      var t := b[p..];
      forall k | 0 <= k < |ds| ensures b[p + k] == ds[k] && ds[k] != Nul {
        assert t[k] == ds[k];
        assert IsDigit(ds[k]);
      }
      assert b[p + |ds|] == rest[0] by {
        assert t[|ds|] == rest[0];
      }
      DigitsFromValue(b, p, ds, 0);
    }
  }

  /** The sign atol applies to the value of the digits. */
  function Signed(neg: bool, v: nat): (r: int)
    ensures neg ==> r == -(v as int)
    ensures !neg ==> r == v
  {
    if neg then -(v as int) else v
  }

  /** atol of blanks, an optional sign and digits followed by anything else is the signed value of the digits. */
  lemma AtolReads(blanks: seq<Char8>, sign: seq<Char8>, ds: seq<Char8>, rest: seq<Char8>)
    requires forall k | 0 <= k < |blanks| :: IsBlank(blanks[k])
    requires sign == [] || sign == ['-'] || sign == ['+']
    requires forall k | 0 <= k < |ds| :: IsDigit(ds[k])
    requires Terminated(rest) && !IsDigit(rest[0])
    requires sign == [] && |ds| == 0 ==> !IsBlank(rest[0]) && rest[0] != '-' && rest[0] != '+'
    ensures Terminated(blanks + sign + ds + rest)
    ensures Atol(blanks + sign + ds + rest) == AsI64(Signed(sign == ['-'], DigitValue(ds)))
  {
    AtolOfTail(blanks, sign, ds, rest);
    Assoc(blanks, sign, ds, rest);
    assert Atol(blanks + (sign + (ds + rest))) == Atol(blanks + sign + ds + rest);
  }

  lemma AtolOfTail(blanks: seq<Char8>, sign: seq<Char8>, ds: seq<Char8>, rest: seq<Char8>)
    requires forall k | 0 <= k < |blanks| :: IsBlank(blanks[k])
    requires sign == [] || sign == ['-'] || sign == ['+']
    requires forall k | 0 <= k < |ds| :: IsDigit(ds[k])
    requires Terminated(rest) && !IsDigit(rest[0])
    requires sign == [] && |ds| == 0 ==> !IsBlank(rest[0]) && rest[0] != '-' && rest[0] != '+'
    ensures Terminated(blanks + (sign + (ds + rest)))
    ensures Atol(blanks + (sign + (ds + rest))) == AsI64(Signed(sign == ['-'], DigitValue(ds)))
  {
    SignedTail(sign, ds, rest);
    SkipPrefix(blanks, sign + (ds + rest));
    AtolAt(blanks + (sign + (ds + rest)), |blanks|, sign, ds, rest);
  }

  /** What atol sees after the blanks: the sign, if any, then the digits. */
  lemma SignedTail(sign: seq<Char8>, ds: seq<Char8>, rest: seq<Char8>)
    requires sign == [] || sign == ['-'] || sign == ['+']
    requires forall k | 0 <= k < |ds| :: IsDigit(ds[k])
    requires Terminated(rest) && !IsDigit(rest[0])
    requires sign == [] && |ds| == 0 ==> !IsBlank(rest[0]) && rest[0] != '-' && rest[0] != '+'
    ensures var tail := sign + (ds + rest);
      Terminated(tail) && !IsBlank(tail[0])
  {
    var dr := ds + rest;
    assert Terminated(dr) by {
      assert dr[|ds| + StrLen(rest)] == Nul;
    }
    var tail := sign + dr;
    assert Terminated(tail) by {
      assert tail[|sign| + |ds| + StrLen(rest)] == Nul;
    }
    if sign == [] {
      assert tail == dr;
      if |ds| > 0 { assert tail[0] == ds[0] && IsDigit(ds[0]); } else { assert tail[0] == rest[0]; }
    } else {
      assert tail[0] == sign[0];
    }
  }

  lemma Assoc(a: seq<Char8>, b: seq<Char8>, c: seq<Char8>, d: seq<Char8>)
    ensures a + (b + (c + d)) == a + b + c + d
  {
    assert b + (c + d) == b + c + d;
  }

  /** atol once the blank skip and the sign are known. */
  lemma AtolAt(b: seq<Char8>, i: nat, sign: seq<Char8>, ds: seq<Char8>, rest: seq<Char8>)
    requires Terminated(b) && SkipBlanks(b, 0) == i && b[i..] == sign + (ds + rest)
    requires sign == [] || sign == ['-'] || sign == ['+']
    requires forall k | 0 <= k < |ds| :: IsDigit(ds[k])
    requires Terminated(rest) && !IsDigit(rest[0])
    requires sign == [] && |ds| == 0 ==> rest[0] != '-' && rest[0] != '+'
    ensures Atol(b) == AsI64(Signed(sign == ['-'], DigitValue(ds)))
  {
    SignAt(b, i, sign, ds, rest);
    DigitsAt(b, i + |sign|, ds, rest);
    assert Signed(b[i] == '-', DigitsFrom(b, i + |sign|, 0)) == Signed(sign == ['-'], DigitValue(ds));
  }

  /** The character after the blanks is the sign, if there is one; the digits follow it. */
  lemma SignAt(b: seq<Char8>, i: nat, sign: seq<Char8>, ds: seq<Char8>, rest: seq<Char8>)
    requires Terminated(b) && i <= StrLen(b) && b[i..] == sign + (ds + rest)
    requires sign == [] || sign == ['-'] || sign == ['+']
    requires forall k | 0 <= k < |ds| :: IsDigit(ds[k])
    requires sign == [] && |ds| == 0 ==> rest[0] != '-' && rest[0] != '+'
    requires |rest| > 0
    ensures b[i] == '-' <==> sign == ['-']
    ensures b[i] == '-' || b[i] == '+' <==> sign != []
    ensures i + |sign| <= StrLen(b) && b[i + |sign|..] == ds + rest
  {
    var tail := b[i..];
    assert b[i] == tail[0];
    var p := i + |sign|;
    if sign == [] {
      if |ds| > 0 { assert tail[0] == ds[0] && IsDigit(ds[0]); } else { assert tail[0] == rest[0]; }
    } else {
      assert tail[0] == sign[0];
      assert b[i] != Nul;
    }
    assert b[p..] == tail[|sign|..];
  }

  predicate IsSeparator(c: Char8) { c == '/' || c == '\\' }

  /**
   get_file_name: the index just after the last '/' or '\' of the string,
   or 0 when it has none. (The source's backward scan tests the character
   before testing the pointer against the buffer start, so with no
   separator it reads one byte before the buffer; the result is 0 either
   way.)
   */
  function FileNameAt(b: seq<Char8>): (r: nat)
    requires Terminated(b)
    ensures r <= StrLen(b)
    ensures forall k | r <= k < StrLen(b) :: !IsSeparator(b[k])
    ensures r > 0 ==> IsSeparator(b[r - 1])
  {
    BackFrom(b, StrLen(b))
  }

  /** The backward scan from position s, stopping at a separator. */
  function BackFrom(b: seq<Char8>, s: nat): (r: nat)
    requires Terminated(b) && s <= StrLen(b) && forall k | s < k < StrLen(b) :: !IsSeparator(b[k])
    ensures r <= s + 1 && r <= StrLen(b)
    ensures forall k | r <= k < StrLen(b) :: !IsSeparator(b[k])
    ensures r > 0 ==> IsSeparator(b[r - 1])
  {
    if IsSeparator(b[s]) then s + 1
    else if s == 0 then 0
    else BackFrom(b, s - 1)
  }

  /** The file name of "dir/sub/name" is "name". */
  lemma FileNameOfPath()
    ensures var b := CStr("dir/sub/name");
      b[FileNameAt(b)..StrLen(b)] == "name"
  {
    var b := CStr("dir/sub/name");
    assert StrLen(b) == 12;
    assert IsSeparator(b[7]);
  }
}
