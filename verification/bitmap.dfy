/**
 The page bitmap: one bit per page, packed eight to a byte with bit
 `index % 8` of byte `index / 8` standing for page `index`; a set bit means
 the page is allocated.
 */
module MemBitmap {
  import opened Util
  import opened CTypes

  datatype Bitmap = Bitmap(bits: seq<bv8>, size: nat)

  /** The buffer holds at least one bit per page. */
  predicate Valid(m: Bitmap) {
    |m.bits| >= (m.size + 7) / 8
  }

  /** The bit of a byte that stands for page number `k` modulo 8. */
  function Mask(k: nat): bv8
    requires k < 8
  {
    (1 as bv8) << k
  }

  lemma MaskBits(b: bv8, k: nat, k': nat)
    requires k < 8 && k' < 8
    ensures (b | Mask(k)) & Mask(k') != 0 <==> k == k' || b & Mask(k') != 0
    ensures (b & !Mask(k)) & Mask(k') != 0 <==> k != k' && b & Mask(k') != 0
  {
  }

  /** bitmap_init: the bytes that cover `size` bits are zeroed. */
  function Init(buffer: seq<bv8>, size: nat): (m: Bitmap)
    requires |buffer| >= (size + 7) / 8
    ensures Valid(m) && m.size == size && |m.bits| == |buffer|
    ensures forall j: nat :: !Test(m, j)
    ensures forall i :: (size + 7) / 8 <= i < |buffer| ==> m.bits[i] == buffer[i]
  {
    var n := (size + 7) / 8;
    var m := Bitmap(seq(n, _ => 0) + buffer[n..], size);
    assert forall j: nat :: j < size ==> m.bits[j / 8] == 0;
    m
  }

  /** bitmap_test: whether page `index` is allocated; an index past the end reads as free. */
  predicate Test(m: Bitmap, index: nat)
    requires Valid(m)
  {
    index < m.size && m.bits[index / 8] & Mask(index % 8) != 0
  }

  /** bitmap_set: allocates one free page inside the bitmap; no other bit moves. */
  function Set(m: Bitmap, index: nat): (r: Bitmap)
    requires Valid(m) && index < m.size && !Test(m, index)
    ensures Valid(r) && r.size == m.size && |r.bits| == |m.bits|
    ensures forall j: nat :: Test(r, j) <==> j == index || Test(m, j)
  {
    var r := m.(bits := m.bits[index / 8 := m.bits[index / 8] | Mask(index % 8)]);
    forall j: nat ensures Test(r, j) <==> j == index || Test(m, j) {
      if j < m.size && j / 8 == index / 8 {
        MaskBits(m.bits[index / 8], index % 8, j % 8);
      }
    }
    r
  }

  /**
   bitmap_clear: frees page `index`; a page already free stays free (the
   source only notices it in a comment). No other bit moves.
   */
  function Clear(m: Bitmap, index: nat): (r: Bitmap)
    requires Valid(m) && index < m.size
    ensures Valid(r) && r.size == m.size && |r.bits| == |m.bits|
    ensures forall j: nat :: Test(r, j) <==> j != index && Test(m, j)
  {
    var r := m.(bits := m.bits[index / 8 := m.bits[index / 8] & !Mask(index % 8)]);
    forall j: nat ensures Test(r, j) <==> j != index && Test(m, j) {
      if j < m.size && j / 8 == index / 8 {
        MaskBits(m.bits[index / 8], index % 8, j % 8);
      }
    }
    r
  }

  /** Pages `start` to `start + count - 1` are all free. */
  predicate RunFree(m: Bitmap, start: nat, count: nat)
    requires Valid(m)
  {
    forall k :: start <= k < start + count ==> !Test(m, k)
  }

  /** Pages `start` to `start + count - 1` are all allocated. */
  predicate RunUsed(m: Bitmap, start: nat, count: nat)
    requires Valid(m)
  {
    forall k :: start <= k < start + count ==> Test(m, k)
  }

  /** Sets pages `start` onwards one at a time, as the loop of bitmap_set_range does. */
  function {:induction false} SetEach(m: Bitmap, start: nat, count: nat): (r: Bitmap)
    requires Valid(m) && start + count <= m.size && RunFree(m, start, count)
    ensures Valid(r) && r.size == m.size && |r.bits| == |m.bits|
    ensures forall j: nat :: Test(r, j) <==> Test(m, j) || start <= j < start + count
    decreases count
  {
    if count == 0 then m else SetEach(Set(m, start), start + 1, count - 1)
  }

  /** Clears pages `start` onwards one at a time, as the loop of bitmap_clear_range does. */
  function {:induction false} ClearEach(m: Bitmap, start: nat, count: nat): (r: Bitmap)
    requires Valid(m) && start + count <= m.size
    ensures Valid(r) && r.size == m.size && |r.bits| == |m.bits|
    ensures forall j: nat :: Test(r, j) <==> Test(m, j) && !(start <= j < start + count)
    decreases count
  {
    if count == 0 then m else ClearEach(Clear(m, start), start + 1, count - 1)
  }

  /**
   bitmap_set_range: a range running past the end does nothing; otherwise
   every page of the range, each of which must be free, becomes allocated.
   The `size_t` sum of start and count must not wrap, since a wrapped range
   would halt on the assertion in bitmap_set.
   */
  function SetRange(m: Bitmap, start: nat, count: nat): (r: Bitmap)
    requires Valid(m) && start + count < Word64
    requires start + count <= m.size ==> RunFree(m, start, count)
    ensures Valid(r) && r.size == m.size
    ensures start + count > m.size ==> r == m
    ensures forall j: nat :: Test(r, j) <==> Test(m, j) || (start + count <= m.size && start <= j < start + count)
  {
    if start + count > m.size then m else SetEach(m, start, count)
  }

  /** bitmap_clear_range: a range running past the end does nothing; otherwise every page of the range becomes free. */
  function ClearRange(m: Bitmap, start: nat, count: nat): (r: Bitmap)
    requires Valid(m) && start + count < Word64
    ensures Valid(r) && r.size == m.size
    ensures start + count > m.size ==> r == m
    ensures forall j: nat :: Test(r, j) <==> Test(m, j) && !(start + count <= m.size && start <= j < start + count)
  {
    if start + count > m.size then m else ClearEach(m, start, count)
  }

  /** Allocating a free range and freeing it again gives back the same allocation state. */
  lemma SetThenClear(m: Bitmap, start: nat, count: nat)
    requires Valid(m) && start + count < Word64 && start + count <= m.size && RunFree(m, start, count)
    ensures forall j: nat :: Test(ClearRange(SetRange(m, start, count), start, count), j) <==> Test(m, j)
  {
  }

  /** The value `(uint64_t)-1` the searches return when they find nothing. */
  const NotFound: u64 := Word64 - 1

  /** bitmap_find_first_free: the lowest free page, or NotFound when every page is allocated. */
  method FindFirstFree(m: Bitmap) returns (r: u64)
    requires Valid(m) && m.size < Word64
    ensures r == NotFound <==> forall j: nat :: 0 <= j < m.size ==> Test(m, j)
    ensures r != NotFound ==> r < m.size && !Test(m, r) && forall j: nat :: 0 <= j < r ==> Test(m, j)
  {
    var i := 0;
    while i < m.size
      invariant 0 <= i <= m.size
      invariant forall j: nat :: 0 <= j < i ==> Test(m, j)
    {
      if !Test(m, i) {
        return i;
      }
      i := i + 1;
    }
    return NotFound;
  }

  /** The lowest `i` with `from <= i <= last` that starts a free run of `count` pages. */
  function {:induction false} FirstRunFrom(m: Bitmap, count: nat, from: nat, last: nat): (r: Option<nat>)
    requires Valid(m)
    ensures r.Some? ==> from <= r.value <= last && RunFree(m, r.value, count)
    ensures r.Some? ==> forall i :: from <= i < r.value ==> !RunFree(m, i, count)
    ensures r.None? ==> forall i :: from <= i <= last ==> !RunFree(m, i, count)
    decreases last + 1 - from
  {
    if from > last then None
    else if RunFree(m, from, count) then Some(from)
    else FirstRunFrom(m, count, from + 1, last)
  }

  /** The search result as the `uint64_t` the source returns. */
  function Encode(r: Option<nat>): int {
    if r.Some? then r.value else NotFound
  }

  /**
   bitmap_find_contiguous_free as written: the loop runs while
   `i <= size - count` in `size_t`, so a count larger than the bitmap makes
   the bound wrap to nearly 2^64 and the pages past the end, which read as
   free, complete a run.
   */
  function FindContiguousFreeAsWritten(m: Bitmap, count: nat): int
    requires Valid(m)
  {
    Encode(FirstRunFrom(m, count, 0, (m.size - count) % Word64))
  }

  /** The lowest free run of `count` pages lying inside the bitmap. */
  function FindRun(m: Bitmap, count: nat): (r: Option<nat>)
    requires Valid(m)
    ensures r.Some? ==> r.value + count <= m.size && RunFree(m, r.value, count)
    ensures r.Some? ==> forall i :: 0 <= i < r.value ==> !RunFree(m, i, count)
    ensures r.None? ==> forall i :: 0 <= i && i + count <= m.size ==> !RunFree(m, i, count)
  {
    if count > m.size then None else FirstRunFrom(m, count, 0, m.size - count)
  }

  /** An empty bitmap of eight pages and a request for nine. */
  lemma ContiguousFreeOverrunsEnd()
    ensures FindContiguousFreeAsWritten(Init([0], 8), 9) == 0
    ensures FindRun(Init([0], 8), 9).None?
  {
    var m := Init([0], 8);
    assert RunFree(m, 0, 9);
  }

  /** Where the request fits in the bitmap, the search as written finds the same run. */
  lemma FindAgreesWhenFits(m: Bitmap, count: nat)
    requires Valid(m) && count <= m.size < Word64
    ensures FindContiguousFreeAsWritten(m, count) == Encode(FindRun(m, count))
  {
  }

  /**
   bitmap_find_contiguous_free with the evident intent: the loops of the
   source, with a request larger than the bitmap finding nothing.
   */
  method FindContiguousFree(m: Bitmap, count: nat) returns (r: u64)
    requires Valid(m) && m.size < Word64
    ensures r == Encode(FindRun(m, count))
  {
    if count > m.size {
      return NotFound;
    }
    var i := 0;
    while i <= m.size - count
      invariant 0 <= i <= m.size - count + 1
      invariant forall k :: 0 <= k < i ==> !RunFree(m, k, count)
      decreases m.size - count + 1 - i
    {
      var j := 0;
      while j < count && !Test(m, i + j)
        invariant 0 <= j <= count
        invariant forall k :: i <= k < i + j ==> !Test(m, k)
      {
        j := j + 1;
      }
      if j == count {
        FirstRunIs(m, count, 0, m.size - count, i);
        return i;
      }
      i := i + 1;
    }
    return NotFound;
  }

  /** The first run found from `from` is the lowest run there is. */
  lemma {:induction false} FirstRunIs(m: Bitmap, count: nat, from: nat, last: nat, i: nat)
    requires Valid(m) && from <= i <= last && RunFree(m, i, count)
    requires forall k :: from <= k < i ==> !RunFree(m, k, count)
    ensures FirstRunFrom(m, count, from, last) == Some(i)
    decreases i - from
  {
    if from < i {
      FirstRunIs(m, count, from + 1, last, i);
    }
  }
}
