/**
 The bit and alignment macros. The bitwise macros work on 64-bit words
 (the macros shift `1ULL`), modelled as sequences of 64 bits with bit 0
 first; the alignment macros and the power-of-two test are modelled on
 naturals by their arithmetic meaning, with the 64-bit wrap of a sum
 written out.
 */
module BitUtils {
  import opened CTypes
  import Util

  type Word = w: seq<bool> | |w| == 64 witness seq(64, _ => false)

  /** The word with no bit set. */
  function Zero(): Word { seq(64, _ => false) }

  /** `1ULL << b`. */
  function Single(b: nat): (w: Word)
    requires b < 64
  {
    seq(64, i => i == b)
  }

  function Or(x: Word, y: Word): Word {
    seq(64, i requires 0 <= i < 64 => x[i] || y[i])
  }

  function And(x: Word, y: Word): Word {
    seq(64, i requires 0 <= i < 64 => x[i] && y[i])
  }

  function Xor(x: Word, y: Word): Word {
    seq(64, i requires 0 <= i < 64 => x[i] != y[i])
  }

  function Not(x: Word): Word {
    seq(64, i requires 0 <= i < 64 => !x[i])
  }

  /** `x << s`: bits shifted past bit 63 are lost. */
  function ShiftLeft(x: Word, s: nat): Word
    requires s < 64
  {
    seq(64, i requires 0 <= i < 64 => i >= s && x[i - s])
  }

  /** `x >> s` on an unsigned word. */
  function ShiftRight(x: Word, s: nat): Word
    requires s < 64
  {
    seq(64, i requires 0 <= i < 64 => i + s < 64 && x[i + s])
  }

  /** `(1ULL << n) - 1`: the word whose `n` lowest bits are set. */
  function Low(n: nat): Word
    requires n < 64
  {
    seq(64, i => i < n)
  }

  /** BIT_SET. */
  function BitSet(v: Word, b: nat): (r: Word)
    requires b < 64
    ensures forall i :: 0 <= i < 64 ==> r[i] == (i == b || v[i])
  {
    Or(v, Single(b))
  }

  /** BIT_CLEAR. */
  function BitClear(v: Word, b: nat): (r: Word)
    requires b < 64
    ensures forall i :: 0 <= i < 64 ==> r[i] == (i != b && v[i])
  {
    And(v, Not(Single(b)))
  }

  /** BIT_TOGGLE. */
  function BitToggle(v: Word, b: nat): (r: Word)
    requires b < 64
    ensures forall i :: 0 <= i < 64 ==> r[i] == (if i == b then !v[i] else v[i])
  {
    Xor(v, Single(b))
  }

  /** BIT_TEST: nonzero exactly when bit `b` is set, and then it is that bit alone. */
  function BitTest(v: Word, b: nat): (r: Word)
    requires b < 64
    ensures r == (if v[b] then Single(b) else Zero())
  {
    And(v, Single(b))
  }

  /** BIT_GET: bit `b` moved to bit 0. */
  function BitGet(v: Word, b: nat): (r: Word)
    requires b < 64
    ensures r == (if v[b] then Single(0) else Zero())
  {
    And(ShiftRight(v, b), Single(0))
  }

  /** Setting then clearing a bit, or toggling it twice, gives back the word when the bit was clear. */
  lemma SetClearToggle(v: Word, b: nat)
    requires b < 64
    ensures !v[b] ==> BitClear(BitSet(v, b), b) == v
    ensures BitToggle(BitToggle(v, b), b) == v
    ensures v[b] ==> BitSet(v, b) == v
  {
  }

  /**
   BIT_MASK: bits `start` to `end` set. The macro shifts `1ULL` by the
   field's width, which C leaves undefined for a 64-bit field, so the field
   is narrower than the word.
   */
  function BitMask(start: nat, end: nat): (r: Word)
    requires start <= end && end - start + 1 < 64 && end < 64
    ensures forall i :: 0 <= i < 64 ==> r[i] == (start <= i <= end)
  {
    ShiftLeft(Low(end - start + 1), start)
  }

  /** BIT_EXTRACT: the field `start..end` moved down to bit 0. */
  function BitExtract(v: Word, start: nat, end: nat): (r: Word)
    requires start <= end && end - start + 1 < 64 && end < 64
    ensures forall i :: 0 <= i < 64 ==> r[i] == (i <= end - start && v[i + start])
  {
    ShiftRight(And(v, BitMask(start, end)), start)
  }

  /** BIT_INSERT: the low bits of `value` placed in the field `start..end` of `original`. */
  function BitInsert(original: Word, value: Word, start: nat, end: nat): (r: Word)
    requires start <= end && end - start + 1 < 64 && end < 64
    ensures forall i :: 0 <= i < 64 && (i < start || i > end) ==> r[i] == original[i]
    ensures forall i :: start <= i <= end ==> r[i] == value[i - start]
  {
    Or(And(original, Not(BitMask(start, end))), And(ShiftLeft(value, start), BitMask(start, end)))
  }

  /** Extracting an inserted field gives back the value cut to the field's width. */
  lemma ExtractInsert(original: Word, value: Word, start: nat, end: nat)
    requires start <= end && end - start + 1 < 64 && end < 64
    ensures BitExtract(BitInsert(original, value, start, end), start, end) == And(value, Low(end - start + 1))
  {
  }

  /** Inserting a word's own field leaves the word unchanged. */
  lemma InsertExtract(v: Word, start: nat, end: nat)
    requires start <= end && end - start + 1 < 64 && end < 64
    ensures BitInsert(v, BitExtract(v, start, end), start, end) == v
  {
  }

  function Pow2(k: nat): (r: nat)
    ensures r >= 1
  {
    if k == 0 then 1 else 2 * Pow2(k - 1)
  }

  lemma {:induction false} Pow2Monotone(j: nat, k: nat)
    requires j <= k
    ensures Pow2(j) <= Pow2(k)
    decreases k - j
  {
    if j < k {
      Pow2Monotone(j, k - 1);
    }
  }

  /**
   HIGHEST_BIT_POSITION: the number of times the value can be halved
   before it reaches zero, less one; 0 for both 0 and 1.
   */
  function HighestBitPosition(x: nat): nat {
    if x <= 1 then 0 else 1 + HighestBitPosition(x / 2)
  }

  /** A nonzero value lies between two to the power of its highest bit and the next power. */
  lemma {:induction false} HighestBitBounds(x: nat)
    requires x >= 1
    ensures Pow2(HighestBitPosition(x)) <= x < Pow2(HighestBitPosition(x) + 1)
  {
    if x > 1 {
      HighestBitBounds(x / 2);
    }
  }

  lemma HighestBitExamples()
    ensures HighestBitPosition(0) == 0 && HighestBitPosition(1) == 0
    ensures HighestBitPosition(2) == 1 && HighestBitPosition(4) == 2 && HighestBitPosition(8) == 3
  {
  }

  /** The highest bit of a power of two is its exponent. */
  lemma {:induction false} HighestBitOfPow2(k: nat)
    ensures HighestBitPosition(Pow2(k)) == k
  {
    if k > 0 {
      HighestBitOfPow2(k - 1);
      assert Pow2(k) / 2 == Pow2(k - 1);
    }
  }

  /**
   IS_POWER_OF_2: nonzero, and clearing the lowest set bit (`x & (x - 1)`)
   leaves nothing; on naturals, a value that halves evenly down to 1.
   */
  predicate IsPowerOf2(x: nat) {
    x == 1 || (x > 1 && x % 2 == 0 && IsPowerOf2(x / 2))
  }

  /** The power-of-two test holds exactly for the values two to some power. */
  lemma {:induction false} PowerOf2Exactly(x: nat)
    ensures IsPowerOf2(x) <==> x >= 1 && x == Pow2(HighestBitPosition(x))
  {
    if x > 1 {
      PowerOf2Exactly(x / 2);
      if x % 2 == 1 {
        assert Pow2(HighestBitPosition(x)) % 2 == 0;
      }
    }
  }

  lemma {:induction false} Pow2IsPowerOf2(k: nat)
    ensures IsPowerOf2(Pow2(k))
  {
    if k > 0 {
      Pow2IsPowerOf2(k - 1);
      assert Pow2(k) / 2 == Pow2(k - 1);
    }
  }

  lemma {:induction false} Pow2Add(i: nat, k: nat)
    ensures Pow2(i + k) == Pow2(i) * Pow2(k)
  {
    if k > 0 {
      Pow2Add(i, k - 1);
    }
  }

  lemma Pow2Word()
    ensures Pow2(31) == 0x8000_0000 && Pow2(32) == Word32
  {
    assert Pow2(8) == 256;
    Pow2Add(8, 8);
    assert Pow2(7) == 128;
    Pow2Add(8, 7);
    Pow2Add(16, 15);
    Pow2Add(16, 16);
  }

  /** Powers of two are ordered as their exponents. */
  lemma Pow2Order(i: nat, j: nat)
    requires Pow2(i) <= Pow2(j)
    ensures i <= j
  {
    if j < i {
      Pow2Monotone(j + 1, i);
    }
  }

  /** A power of two that fits in 32 bits is at most bit 31. */
  lemma PowerOf2Bound(a: nat)
    requires IsPowerOf2(a) && a < Word32
    ensures a <= 0x8000_0000
  {
    PowerOf2Exactly(a);
    var h := HighestBitPosition(a);
    Pow2Word();
    if h > 31 {
      Pow2Monotone(32, h);
    } else {
      Pow2Monotone(h, 31);
    }
  }

  /** Of two powers of two, the smaller divides the larger. */
  lemma PowerOf2Divides(a: nat, b: nat)
    requires IsPowerOf2(a) && IsPowerOf2(b) && a <= b
    ensures b % a == 0
  {
    PowerOf2Exactly(a);
    PowerOf2Exactly(b);
    var i, j := HighestBitPosition(a), HighestBitPosition(b);
    Pow2Order(i, j);
    var k: nat := j - i;
    Pow2Add(i, k);
    assert b == a * Pow2(k);
    MultipleMod(a, Pow2(k));
  }

  lemma MultipleMod(a: nat, q: nat)
    requires a > 0
    ensures (a * q) % a == 0
  {
    Util.DivOf(a * q, a, q, 0);
  }

  /**
   ALIGN_DOWN: `x & ~(align - 1)` clears the bits below a power-of-two
   alignment, which is taking away the remainder.
   */
  function AlignDown(x: nat, align: nat): (r: nat)
    requires IsPowerOf2(align)
    ensures r <= x && r % align == 0 && x - r < align
  {
    RemainderDrops(x, align);
    x - x % align
  }

  lemma PowerOf2Positive(x: nat)
    requires IsPowerOf2(x)
    ensures x >= 1
  {
  }

  /** Taking away the remainder leaves a multiple, less than one step below. */
  lemma RemainderDrops(x: nat, align: nat)
    requires IsPowerOf2(align)
    ensures 0 <= x % align < align && x % align <= x && (x - x % align) % align == 0
  {
    PowerOf2Positive(align);
    RemainderBelow(x, align);
    var q := x / align;
    assert x - x % align == q * align by {
      assert x == q * align + x % align;
    }
    Util.DivOf(q * align, align, q, 0);
  }

  lemma RemainderBelow(x: nat, n: nat)
    requires n >= 1
    ensures x % n <= x
  {
    var q := x / n;
    assert x == q * n + x % n;
    Util.MulNonneg(q, n);
  }

  /** ALIGN_UP: `x + align - 1`, wrapping in 64 bits, then aligned down. */
  function AlignUp(x: u64, align: u64): (r: nat)
    requires IsPowerOf2(align)
    ensures r % align == 0
    ensures x + align - 1 < Word64 ==> x <= r < x + align
  {
    AlignDown((x + align - 1) % Word64, align)
  }

  /** IS_ALIGNED: no bits below the alignment are set. */
  predicate IsAligned(x: nat, align: nat)
    requires IsPowerOf2(align)
  {
    x % align == 0
  }

  /** Aligning an aligned value, up or down, leaves it as it is. */
  lemma AlignIdempotent(x: u64, align: u64)
    requires IsPowerOf2(align) && IsAligned(x, align)
    ensures AlignDown(x, align) == x
    ensures x + align - 1 < Word64 ==> AlignUp(x, align) == x
  {
    PowerOf2Positive(align);
    if x + align - 1 < Word64 {
      Util.ModSmall(x + align - 1, Word64);
      var q := x / align;
      assert x == q * align;
      Util.DivOf(x + align - 1, align, q, align - 1);
    }
  }

  /** Aligning up near the top of the 64-bit range wraps to a small value. */
  lemma AlignUpWraps()
    ensures AlignUp(Word64 - 1, 4096) == 0
  {
    assert IsPowerOf2(4096) by {
      Pow2IsPowerOf2(12);
    }
    Util.DivOf(Word64 - 1 + 4096 - 1, Word64, 1, 4094);
    Util.DivOf(4094, 4096, 0, 4094);
  }
}
