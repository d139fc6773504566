/**
 Shared vocabulary for the model: an optional value, string prefix/suffix
 and substring tests, and duplicate-free sequences.
 */
module Util {

  datatype Option<+T> = None | Some(value: T)

  predicate StartsWith(s: string, prefix: string) {
    |prefix| <= |s| && s[..|prefix|] == prefix
  }

  predicate EndsWith(s: string, suffix: string) {
    |suffix| <= |s| && s[|s| - |suffix|..] == suffix
  }

  /** `t` occurs in `s` starting at position `i`. */
  predicate OccursAt(s: string, t: string, i: nat) {
    i + |t| <= |s| && s[i..i + |t|] == t
  }

  /** Python's `t in s` on strings: `t` is a substring of `s`. */
  ghost predicate Contains(s: string, t: string) {
    exists i: nat :: OccursAt(s, t, i)
  }

  /** Decidable substring test, searching from position `from`. */
  function ContainsFrom(s: string, t: string, from: nat): (b: bool)
    requires from <= |s|
    ensures b <==> exists i: nat :: from <= i && OccursAt(s, t, i)
    decreases |s| - from
  {
    if OccursAt(s, t, from) then true
    else if from == |s| then false
    else ContainsFrom(s, t, from + 1)
  }

  function HasSubstring(s: string, t: string): (b: bool)
    ensures b <==> Contains(s, t)
  {
    ContainsFrom(s, t, 0)
  }

  /** A sequence that holds no element twice. */
  predicate Distinct<T(==)>(s: seq<T>) {
    forall i, j :: 0 <= i < j < |s| ==> s[i] != s[j]
  }

  /** A duplicate-free sequence drawn from a set is no longer than the set. */
  lemma DistinctSubsetBound<T>(s: seq<T>, u: set<T>)
    requires Distinct(s)
    requires forall i :: 0 <= i < |s| ==> s[i] in u
    ensures |s| <= |u|
  {
    if |s| > 0 {
      var last := s[|s| - 1];
      var rest := s[..|s| - 1];
      assert forall i :: 0 <= i < |rest| ==> rest[i] in u - {last};
      DistinctSubsetBound(rest, u - {last});
    }
  }

  lemma DistinctSnoc<T>(s: seq<T>, x: T)
    requires Distinct(s) && x !in s
    ensures Distinct(s + [x])
  {
  }

  /** Index of the first occurrence of `x` in `s`. */
  function IndexOf<T(==)>(s: seq<T>, x: T): (i: nat)
    requires x in s
    ensures i < |s| && s[i] == x
    ensures forall j :: 0 <= j < i ==> s[j] != x
  {
    if s[0] == x then 0 else 1 + IndexOf(s[1..], x)
  }

  /** Index of the last occurrence of `x` in `s`, or -1 (C's `strrchr` on the characters before the terminator). */
  function LastIndex<T(==)>(s: seq<T>, x: T): (i: int)
    ensures -1 <= i < |s|
    ensures i >= 0 ==> s[i] == x && forall j :: i < j < |s| ==> s[j] != x
    ensures i == -1 ==> x !in s
  {
    if |s| == 0 then -1
    else if s[|s| - 1] == x then |s| - 1
    else LastIndex(s[..|s| - 1], x)
  }

  /** A sequence is its part before k, its k-th element and its part after k. */
  lemma SplitAround<T>(s: seq<T>, k: nat)
    requires k < |s|
    ensures s == s[..k] + [s[k]] + s[k + 1..]
  {
  }

  lemma MulNonneg(a: int, b: int)
    requires a >= 0 && b >= 0
    ensures a * b >= 0
  {
  }

  /** Multiplying by a non-negative number keeps an order. */
  lemma MulMono(a: int, b: int, n: int)
    requires a <= b && n >= 0
    ensures a * n <= b * n
  {
    MulNonneg(b - a, n);
    assert (b - a) * n == b * n - a * n;
  }

  /** Quotient and remainder are determined by any decomposition a == q * n + r with 0 <= r < n. */
  lemma DivOf(a: int, n: int, q: int, r: int)
    requires n > 0 && a == q * n + r && 0 <= r < n
    ensures a / n == q && a % n == r
  {
    var q0, r0 := a / n, a % n;
    var d := q - q0;
    assert d * n == r0 - r by {
      assert q * n - q0 * n == d * n;
    }
    if d > 0 {
      MulNonneg(d - 1, n);
    } else if d < 0 {
      MulNonneg(-d - 1, n);
    }
  }

  /** Reduction leaves a value already below the modulus alone. */
  lemma ModSmall(x: int, n: int)
    requires 0 <= x < n
    ensures x % n == x
  {
  }

  lemma ModIfSmall(x: int, n: int)
    requires n > 0
    ensures 0 <= x < n ==> x % n == x
  {
  }

  /** Adding then taking away the same amount, each reduced modulo n, gives back a reduced value. */
  lemma AddSubMod(x: int, d: int, n: int)
    requires n > 0 && 0 <= x < n
    ensures ((x + d) % n - d) % n == x
  {
    var q := (x + d) / n;
    var y := (x + d) % n;
    assert x + d == q * n + y;
    assert y - d == (-q) * n + x;
    DivOf(y - d, n, -q, x);
  }

  function Min(a: int, b: int): int {
    if a <= b then a else b
  }

  /** A subset is no larger than its superset. */
  lemma {:induction false} SubsetCardinality<T>(a: set<T>, b: set<T>)
    requires a <= b
    ensures |a| <= |b|
  {
    if a != {} {
      var x :| x in a;
      SubsetCardinality(a - {x}, b - {x});
    }
  }
}
