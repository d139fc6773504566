/**
 The C bitwise operators on unsigned register values held as naturals:
 bit i of x is the remainder of x shifted right i times, and each operator
 is defined bit by bit, least significant bit first.
 */
module IntBits {
  import opened BitUtils
  import opened Util

  /** Bit `i` of `x`, as `(x >> i) & 1`. */
  function Bit(x: nat, i: nat): bool
    decreases i
  {
    if i == 0 then x % 2 == 1 else Bit(x / 2, i - 1)
  }

  /** `x & y`. */
  function And(x: nat, y: nat): (r: nat)
    decreases x
  {
    if x == 0 || y == 0 then 0 else 2 * And(x / 2, y / 2) + (if x % 2 == 1 && y % 2 == 1 then 1 else 0)
  }

  /** `x & ~y`. */
  function AndNot(x: nat, y: nat): (r: nat)
    decreases x
  {
    if x == 0 then 0 else 2 * AndNot(x / 2, y / 2) + (if x % 2 == 1 && y % 2 == 0 then 1 else 0)
  }

  /** `x | y`. */
  function Or(x: nat, y: nat): (r: nat)
    decreases x + y
  {
    if x == 0 then y else if y == 0 then x
    else 2 * Or(x / 2, y / 2) + (if x % 2 == 1 || y % 2 == 1 then 1 else 0)
  }

  lemma {:induction false} AndBit(x: nat, y: nat, i: nat)
    decreases x
    ensures Bit(And(x, y), i) <==> Bit(x, i) && Bit(y, i)
  {
    if x == 0 || y == 0 {
      ZeroBit(i);
    } else if i > 0 {
      AndBit(x / 2, y / 2, i - 1);
    }
  }

  lemma {:induction false} AndNotBit(x: nat, y: nat, i: nat)
    decreases x
    ensures Bit(AndNot(x, y), i) <==> Bit(x, i) && !Bit(y, i)
  {
    if x == 0 {
      ZeroBit(i);
    } else if i > 0 {
      AndNotBit(x / 2, y / 2, i - 1);
    }
  }

  lemma {:induction false} OrBit(x: nat, y: nat, i: nat)
    decreases x + y
    ensures Bit(Or(x, y), i) <==> Bit(x, i) || Bit(y, i)
  {
    if x == 0 {
      ZeroBit(i);
    } else if y == 0 {
      ZeroBit(i);
    } else if i > 0 {
      OrBit(x / 2, y / 2, i - 1);
    }
  }

  lemma {:induction false} ZeroBit(i: nat)
    ensures !Bit(0, i)
  {
    if i > 0 { ZeroBit(i - 1); }
  }

  /** Masking never makes a value larger. */
  lemma {:induction false} AndBelow(x: nat, y: nat)
    decreases x
    ensures And(x, y) <= x && And(x, y) <= y
  {
    if x != 0 && y != 0 { AndBelow(x / 2, y / 2); }
  }

  lemma {:induction false} AndNotBelow(x: nat, y: nat)
    decreases x
    ensures AndNot(x, y) <= x
  {
    if x != 0 { AndNotBelow(x / 2, y / 2); }
  }

  /** Two values of k bits have an | of k bits. */
  lemma {:induction false} OrBelow(x: nat, y: nat, k: nat)
    requires x < Pow2(k) && y < Pow2(k)
    decreases k
    ensures Or(x, y) < Pow2(k)
  {
    if k > 0 && x != 0 && y != 0 {
      OrBelow(x / 2, y / 2, k - 1);
    }
  }

  /** `x & (2^k - 1)` keeps the low k bits: the remainder modulo 2^k. */
  lemma {:induction false} LowMask(x: nat, k: nat)
    decreases k
    ensures And(x, Pow2(k) - 1) == x % Pow2(k)
  {
    if k == 0 {
      assert Pow2(k) == 1 && And(x, 0) == 0;
    } else if x == 0 {
      assert And(0, Pow2(k) - 1) == 0;
    } else {
      LowMask(x / 2, k - 1);
      LowMaskStep(x, k);
    }
  }

  lemma LowMaskStep(x: nat, k: nat)
    requires k > 0 && x != 0
    requires And(x / 2, Pow2(k - 1) - 1) == (x / 2) % Pow2(k - 1)
    ensures And(x, Pow2(k) - 1) == x % Pow2(k)
  {
    var p := Pow2(k - 1);
    assert Pow2(k) == 2 * p;
    DivOf(2 * p - 1, 2, p - 1, 1);
    HalfMod(x, p);
  }

  lemma HalfMod(x: nat, p: nat)
    requires p > 0
    ensures x % (2 * p) == 2 * ((x / 2) % p) + x % 2
  {
    var q, r := (x / 2) / p, (x / 2) % p;
    assert x / 2 == q * p + r;
    assert x == q * (2 * p) + (2 * r + x % 2);
    DivOf(x, 2 * p, q, 2 * r + x % 2);
  }

  /** A value is nonzero exactly when one of its bits is set. */
  lemma {:induction false} NonzeroHasBit(x: nat)
    ensures x != 0 <==> exists i: nat :: Bit(x, i)
  {
    if x == 0 {
      forall i: nat ensures !Bit(x, i) { ZeroBit(i); }
    } else if x % 2 == 1 {
      assert Bit(x, 0);
      assert exists i: nat :: Bit(x, i);
    } else {
      NonzeroHasBit(x / 2);
      var i: nat :| Bit(x / 2, i);
      assert Bit(x, i + 1) == Bit(x / 2, i);
      assert exists j: nat :: Bit(x, j);
    }
  }

  /**
   The value with bit 4 set when `lo` holds and bit 5 when `hi` holds, as
   `0 | (lo ? 1 << 4 : 0) | (hi ? 1 << 5 : 0)`: it has no other bits.
   */
  function Bits45(lo: bool, hi: bool): (r: nat)
    ensures r < 64
  {
    (if lo then 16 else 0) + (if hi then 32 else 0)
  }

  lemma Bits45Bit(lo: bool, hi: bool, i: nat)
    ensures Bit(Bits45(lo, hi), i) <==> (i == 4 && lo) || (i == 5 && hi)
  {
    var x := Bits45(lo, hi);
    var a := if lo then 1 else 0;
    var b := if hi then 1 else 0;
    assert x % 2 == 0 && (x / 2) % 2 == 0 && (x / 4) % 2 == 0 && (x / 8) % 2 == 0;
    if i >= 4 {
      assert Bit(x, i) == Bit(x / 2, i - 1) == Bit(x / 4, i - 2) == Bit(x / 8, i - 3) == Bit(x / 16, i - 4);
      assert x / 16 == a + 2 * b;
      if i >= 6 {
        assert Bit(a + 2 * b, i - 4) == Bit(b, i - 5) == Bit(0, i - 6);
        ZeroBit(i - 6);
      }
    } else if i == 3 {
      assert Bit(x, 3) == Bit(x / 8, 0);
    } else if i == 2 {
      assert Bit(x, 2) == Bit(x / 4, 0);
    }
  }

  /** The bits of `x % 2^k` are the low k bits of x. */
  lemma {:induction false} ModBit(x: nat, k: nat, i: nat)
    decreases k
    ensures Bit(x % Pow2(k), i) <==> i < k && Bit(x, i)
  {
    if k == 0 {
      assert x % Pow2(k) == 0;
      ZeroBit(i);
    } else {
      var p := Pow2(k - 1);
      HalfMod(x, p);
      var m := x % Pow2(k);
      assert m == 2 * ((x / 2) % p) + x % 2;
      if i > 0 {
        ModBit(x / 2, k - 1, i - 1);
        assert m / 2 == (x / 2) % p;
        assert Bit(m, i) == Bit(m / 2, i - 1);
      }
    }
  }

  /** `1 << b` has bit b and no other. */
  lemma {:induction false} PowBit(b: nat, j: nat)
    decreases b
    ensures Bit(Pow2(b), j) <==> j == b
  {
    if b == 0 {
      if j > 0 {
        assert Bit(1, j) == Bit(0, j - 1);
        ZeroBit(j - 1);
      }
    } else if j > 0 {
      PowBit(b - 1, j - 1);
      assert Pow2(b) / 2 == Pow2(b - 1);
    }
  }

  /** `1 << b` for a bit of a 32-bit word fits in the word. */
  lemma Pow2Below32(b: nat)
    requires b < 32
    ensures Pow2(b) < 0x1_0000_0000
  {
    Pow2Monotone(b, 31);
    Pow2Word();
  }

  /** `|` does not depend on the order of its operands. */
  lemma {:induction false} OrComm(x: nat, y: nat)
    decreases x + y
    ensures Or(x, y) == Or(y, x)
  {
    if x != 0 && y != 0 {
      OrComm(x / 2, y / 2);
    }
  }

  /** A multiple of 2p, halved, is a multiple of p, and it is even. */
  lemma HalfMultiple(y: nat, p: nat)
    requires p > 0 && y % (2 * p) == 0
    ensures y % 2 == 0 && (y / 2) % p == 0
  {
    HalfMod(y, p);
  }

  /**
   A value below 2^k or'ed with a multiple of 2^k: the two share no bit,
   so `|` is `+`.
   */
  lemma {:induction false} DisjointOr(x: nat, y: nat, k: nat)
    requires x < Pow2(k) && y % Pow2(k) == 0
    decreases k
    ensures Or(x, y) == x + y
  {
    if k > 0 && x != 0 && y != 0 {
      HalfMultiple(y, Pow2(k - 1));
      DisjointOr(x / 2, y / 2, k - 1);
    }
  }

  /** Or'ing in a multiple of 2^k leaves the low k bits alone. */
  lemma {:induction false} OrLow(x: nat, y: nat, k: nat)
    requires y % Pow2(k) == 0
    decreases k
    ensures Or(x, y) % Pow2(k) == x % Pow2(k)
  {
    if k > 0 && x != 0 && y != 0 {
      var p := Pow2(k - 1);
      HalfMultiple(y, p);
      OrLow(x / 2, y / 2, k - 1);
      var o := Or(x, y);
      assert o == 2 * Or(x / 2, y / 2) + x % 2;
      HalfMod(o, p);
      HalfMod(x, p);
    }
  }

  /** Clearing bits that are all at 2^k and above leaves the low k bits alone. */
  lemma {:induction false} AndNotLow(x: nat, y: nat, k: nat)
    requires y % Pow2(k) == 0
    decreases k
    ensures AndNot(x, y) % Pow2(k) == x % Pow2(k)
  {
    if k > 0 && x != 0 {
      var p := Pow2(k - 1);
      HalfMultiple(y, p);
      AndNotLow(x / 2, y / 2, k - 1);
      var o := AndNot(x, y);
      assert o == 2 * AndNot(x / 2, y / 2) + x % 2;
      HalfMod(o, p);
      HalfMod(x, p);
    }
  }

  /** Two values with the same bits are equal. */
  lemma {:induction false} BitsEqual(x: nat, y: nat)
    requires forall i: nat :: Bit(x, i) == Bit(y, i)
    decreases x + y
    ensures x == y
  {
    assert Bit(x, 0) == Bit(y, 0);
    if x != 0 || y != 0 {
      forall i: nat
        ensures Bit(x / 2, i) == Bit(y / 2, i)
      {
        assert Bit(x, i + 1) == Bit(y, i + 1);
      }
      BitsEqual(x / 2, y / 2);
    }
  }

  lemma SmallQuotient(r: nat, n: nat)
    requires r < n
    ensures r / n == 0 && r / n * n == 0
  {}

  lemma Twice(q: nat, p: nat)
    ensures 2 * (q * p) == q * (2 * p)
  {}

  lemma DivHalf(a: nat, b: nat, p: nat)
    requires p > 0 && b < 2
    ensures (2 * a + b) / (2 * p) == a / p
  {
    var q, r := a / p, a % p;
    assert 2 * a + b == q * (2 * p) + (2 * r + b);
    DivOf(2 * a + b, 2 * p, q, 2 * r + b);
  }

  /**
   `x & m` with m the bits j..k-1: bits j..k-1 of x, in place.
   */
  lemma AndMask(x: nat, k: nat, j: nat)
    requires j <= k
    ensures Pow2(j) <= Pow2(k)
    ensures And(x, Pow2(k) - Pow2(j)) == (x % Pow2(k)) / Pow2(j) * Pow2(j)
  {
    MaskedBits(x, k, j);
  }

  predicate MaskSpec(x: nat, k: nat, j: nat) {
    Pow2(j) <= Pow2(k) && And(x, Pow2(k) - Pow2(j)) == (x % Pow2(k)) / Pow2(j) * Pow2(j)
  }

  lemma {:induction false} MaskedBits(x: nat, k: nat, j: nat)
    requires j <= k
    decreases j
    ensures MaskSpec(x, k, j)
  {
    if j == 0 {
      AndMaskLow(x, k);
    } else if k == j {
      AndMaskEmpty(x, k);
    } else if x == 0 {
      AndMaskZero(k, j);
    } else {
      MaskedBits(x / 2, k - 1, j - 1);
      AndMaskStep(x, k, j);
    }
  }

  lemma AndMaskLow(x: nat, k: nat)
    ensures MaskSpec(x, k, 0)
  {
    Pow2Monotone(0, k);
    LowMask(x, k);
  }

  lemma AndMaskEmpty(x: nat, k: nat)
    ensures MaskSpec(x, k, k)
  {
    assert And(x, 0) == 0;
    SmallQuotient(x % Pow2(k), Pow2(k));
  }

  lemma AndMaskZero(k: nat, j: nat)
    requires j <= k
    ensures MaskSpec(0, k, j)
  {
    Pow2Monotone(j, k);
    assert 0 % Pow2(k) == 0 && 0 / Pow2(j) == 0;
  }

  /** The step of AndMask: a mask with bit 0 clear shifts down by one. */
  lemma AndMaskStep(x: nat, k: nat, j: nat)
    requires 0 < j < k && x != 0 && MaskSpec(x / 2, k - 1, j - 1)
    ensures MaskSpec(x, k, j)
  {
    var p, pj := Pow2(k - 1), Pow2(j - 1);
    Pow2Monotone(j, k - 1);
    var m2 := p - pj;
    assert Pow2(k) - Pow2(j) == 2 * m2;
    AndEven(x, m2);
    var a := (x / 2) % p;
    HalfMod(x, p);
    DivHalf(a, x % 2, pj);
    assert (x % Pow2(k)) / Pow2(j) == a / pj;
    ScaleBack(And(x, Pow2(k) - Pow2(j)), And(x / 2, m2), a / pj, pj, Pow2(j));
  }

  lemma ScaleBack(big: int, half: int, q: int, p: int, p2: int)
    requires big == 2 * half && half == q * p && p2 == 2 * p
    ensures big == q * p2
  {}

  lemma AndEven(x: nat, m: nat)
    requires x != 0 && m != 0
    ensures And(x, 2 * m) == 2 * And(x / 2, m)
  {}

  /** Low bits below 2^k pass through an `|` whose other bits are all at 2^k and above. */
  lemma {:induction false} OrAddHigh(x: nat, y: nat, z: nat, k: nat)
    requires x < Pow2(k) && y % Pow2(k) == 0 && z % Pow2(k) == 0
    decreases k
    ensures Or(x + y, z) == x + Or(y, z)
  {
    if k > 0 && x != 0 && z != 0 {
      HalfMultiple(y, Pow2(k - 1));
      HalfMultiple(z, Pow2(k - 1));
      OrAddHigh(x / 2, y / 2, z / 2, k - 1);
      assert (x + y) / 2 == x / 2 + y / 2 && (x + y) % 2 == x % 2;
      assert Or(y, z) == 2 * Or(y / 2, z / 2);
    }
  }

  /** `(w & (1 << b)) != 0` tests bit b. */
  lemma TestBit(w: nat, b: nat)
    ensures And(w, Pow2(b)) != 0 <==> Bit(w, b)
  {
    var a := And(w, Pow2(b));
    NonzeroHasBit(a);
    AndBit(w, Pow2(b), b);
    PowBit(b, b);
    if a != 0 {
      var i: nat :| Bit(a, i);
      AndBit(w, Pow2(b), i);
      PowBit(b, i);
    }
  }
}
