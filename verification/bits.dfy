/**
 The integer bit operations the monitor script relies on, with the meaning
 Python gives them on non-negative integers: `x << n`, `x >> n`, `a & b`,
 `a | b` and the bit test `(x >> k) & 1`. Everything else in the model is
 built from these definitions and the bit-level lemmas below.
 */
module Bits {

  /** A value read from or written to the I2C bus: one unsigned byte. */
  type Byte = x: int | 0 <= x < 256

  /** 2^n */
  function Pow2(n: nat): (r: nat)
    ensures r >= 1
    ensures n > 0 ==> r % 2 == 0
  {
    if n == 0 then 1 else 2 * Pow2(n - 1)
  }

  /** Python's `x << n`, one doubling per position (equal to x * 2^n, see
      ShlIsMul). */
  function Shl(x: int, n: nat): (r: int)
    ensures x >= 0 ==> r >= x
  {
    if n == 0 then x else 2 * Shl(x, n - 1)
  }

  /** Python's `x >> n`, one halving per position; Dafny's `/` rounds down
      for a positive divisor, as Python's `>>` does (equal to x / 2^n, see
      ShrIsDiv). */
  function Shr(x: int, n: nat): int
    decreases n
  {
    if n == 0 then x else Shr(x / 2, n - 1)
  }

  /** Bit k of x in two's complement, i.e. Python's `(x >> k) & 1 == 1`. */
  predicate Bit(x: int, k: nat)
    decreases k
  {
    if k == 0 then x % 2 == 1 else Bit(x / 2, k - 1)
  }

  /** Python's `a & b` on non-negative integers. */
  function And(a: nat, b: nat): (r: nat)
    ensures r <= a && r <= b
  {
    if a == 0 || b == 0 then 0
    else 2 * And(a / 2, b / 2) + (if a % 2 == 1 && b % 2 == 1 then 1 else 0)
  }

  /** Python's `a | b` on non-negative integers. */
  function Or(a: nat, b: nat): (r: nat)
    ensures a <= r && b <= r && r <= a + b
  {
    if a == 0 then b
    else if b == 0 then a
    else 2 * Or(a / 2, b / 2) + (if a % 2 == 1 || b % 2 == 1 then 1 else 0)
  }

  /** The value whose low w bits are set: Python's `(1 << w) - 1`. */
  function LowMask(w: nat): (r: nat)
    ensures r < Pow2(w)
  {
    Pow2(w) - 1
  }

  // ---------------------------------------------------------------------
  // Elementary facts about single bits

  lemma BitOfZero(k: nat)
    ensures !Bit(0, k)
  {
  }

  /** Splitting a number into its lowest bit c and the rest y. */
  lemma BitOfDouble(y: int, c: int, k: nat)
    requires 0 <= c <= 1
    ensures Bit(2 * y + c, k) == if k == 0 then c == 1 else Bit(y, k - 1)
  {
    assert (2 * y + c) % 2 == c;
    assert (2 * y + c) / 2 == y;
  }

  /** Two non-negative numbers with the same bits are equal. */
  lemma {:induction false} BitExtensionality(a: nat, b: nat)
    requires forall k: nat :: Bit(a, k) == Bit(b, k)
    ensures a == b
    decreases a + b
  {
    assert Bit(a, 0) == Bit(b, 0);
    forall k: nat
      ensures Bit(a / 2, k) == Bit(b / 2, k)
    {
      assert Bit(a, k + 1) == Bit(b, k + 1);
    }
    if a + b > 0 {
      BitExtensionality(a / 2, b / 2);
    }
  }

  /** A non-negative number is zero exactly when no bit of it is set. */
  lemma ZeroIffNoBits(a: nat)
    ensures a == 0 <==> forall k: nat :: !Bit(a, k)
  {
    if a == 0 {
      forall k: nat
        ensures !Bit(a, k)
      {
        BitOfZero(k);
      }
    } else {
      NonZeroHasBit(a);
    }
  }

  lemma NonZeroHasBit(a: nat)
    requires a != 0
    ensures exists k: nat :: Bit(a, k)
  {
    if forall k: nat :: !Bit(a, k) {
      forall k: nat
        ensures Bit(a, k) == Bit(0, k)
      {
        BitOfZero(k);
      }
      BitExtensionality(a, 0);
    }
  }

  /** Bits at or above position n of a number below 2^n are clear. */
  lemma {:induction false} HighBitClear(x: nat, n: nat, k: nat)
    requires x < Pow2(n)
    requires n <= k
    ensures !Bit(x, k)
    decreases n
  {
    if n == 0 {
      assert x == 0;
      BitOfZero(k);
    } else {
      assert x / 2 < Pow2(n - 1);
      HighBitClear(x / 2, n - 1, k - 1);
    }
  }

  /** A number whose bits at or above position n are clear is below 2^n. */
  lemma {:induction false} BelowPow2(x: nat, n: nat)
    requires forall k: nat :: n <= k ==> !Bit(x, k)
    ensures x < Pow2(n)
    decreases n
  {
    if n == 0 {
      ZeroIffNoBits(x);
    } else {
      forall k: nat | n - 1 <= k
        ensures !Bit(x / 2, k)
      {
        assert !Bit(x, k + 1);
      }
      BelowPow2(x / 2, n - 1);
    }
  }

  /** Bit n is the top bit of a number below 2^(n+1). */
  lemma {:induction false} TopBit(x: nat, n: nat)
    requires x < Pow2(n + 1)
    ensures Bit(x, n) <==> x >= Pow2(n)
    decreases n
  {
    if n == 0 {
    } else {
      assert x / 2 < Pow2(n);
      TopBit(x / 2, n - 1);
    }
  }

  /** The bits of 2^n - 1 are exactly the positions below n. */
  lemma {:induction false} LowMaskBit(w: nat, k: nat)
    ensures Bit(LowMask(w), k) <==> k < w
    decreases w
  {
    if w == 0 {
      BitOfZero(k);
    } else {
      assert LowMask(w) == 2 * LowMask(w - 1) + 1;
      BitOfDouble(LowMask(w - 1), 1, k);
      if k > 0 {
        LowMaskBit(w - 1, k - 1);
      }
    }
  }

  /** 2^n has exactly bit n set. */
  lemma {:induction false} Pow2Bit(n: nat, k: nat)
    ensures Bit(Pow2(n), k) <==> k == n
    decreases n
  {
    if n == 0 {
      if k > 0 {
        BitOfZero(k - 1);
      }
    } else {
      BitOfDouble(Pow2(n - 1), 0, k);
      if k > 0 {
        Pow2Bit(n - 1, k - 1);
      }
    }
  }

  // ---------------------------------------------------------------------
  // Bits of shifts, AND and OR

  /** A positive multiple of d is at least d. */
  lemma MulAtLeast(m: int, d: int)
    requires m >= 1 && d > 0
    ensures m * d >= d
  {
  }

  /** Euclidean division has a unique quotient. */
  lemma DivUnique(x: int, d: int, q: int, r: int)
    requires d > 0 && 0 <= r < d
    requires x == q * d + r
    ensures x / d == q
  {
    var q', r' := x / d, x % d;
    assert x == q' * d + r';
    assert (q - q') * d == r' - r;
    if q > q' {
      MulAtLeast(q - q', d);
    } else if q < q' {
      MulAtLeast(q' - q, d);
    }
  }

  /** Dividing by 2 * p is dividing by 2 and then by p. */
  lemma DivDouble(x: nat, p: nat)
    requires p >= 1
    ensures x / (2 * p) == (x / 2) / p
  {
    var q := (x / 2) / p;
    var r := (x / 2) % p;
    assert x / 2 == q * p + r;
    assert x == 2 * (x / 2) + x % 2;
    assert x == q * (2 * p) + (2 * r + x % 2);
    DivUnique(x, 2 * p, q, 2 * r + x % 2);
  }

  lemma {:induction false} ShrBit(x: nat, s: nat, k: nat)
    ensures Shr(x, s) >= 0
    ensures Bit(Shr(x, s), k) == Bit(x, k + s)
    decreases s
  {
    if s > 0 {
      ShrBit(x / 2, s - 1, k);
    }
  }

  lemma {:induction false} ShlBit(x: nat, s: nat, k: nat)
    ensures Bit(Shl(x, s), k) == (s <= k && Bit(x, k - s))
    decreases s
  {
    if s > 0 {
      BitOfDouble(Shl(x, s - 1), 0, k);
      if k > 0 {
        ShlBit(x, s - 1, k - 1);
      }
    }
  }

  /** Shifting left by n multiplies by 2^n. */
  lemma {:induction false} ShlIsMul(x: int, n: nat)
    ensures Shl(x, n) == x * Pow2(n)
    decreases n
  {
    if n > 0 {
      ShlIsMul(x, n - 1);
      assert x * Pow2(n) == 2 * (x * Pow2(n - 1));
    }
  }

  /** Shifting right by n divides by 2^n, rounding down. */
  lemma {:induction false} ShrIsDiv(x: nat, n: nat)
    ensures Shr(x, n) == x / Pow2(n)
    decreases n
  {
    if n > 0 {
      ShrIsDiv(x / 2, n - 1);
      DivDouble(x, Pow2(n - 1));
    }
  }

  lemma {:induction false} AndBit(a: nat, b: nat, k: nat)
    ensures Bit(And(a, b), k) == (Bit(a, k) && Bit(b, k))
    decreases a
  {
    if a == 0 || b == 0 {
      BitOfZero(k);
    } else {
      var c := if a % 2 == 1 && b % 2 == 1 then 1 else 0;
      BitOfDouble(And(a / 2, b / 2), c, k);
      if k > 0 {
        AndBit(a / 2, b / 2, k - 1);
      }
    }
  }

  lemma {:induction false} OrBit(a: nat, b: nat, k: nat)
    ensures Bit(Or(a, b), k) == (Bit(a, k) || Bit(b, k))
    decreases a
  {
    if a == 0 {
      BitOfZero(k);
    } else if b == 0 {
      BitOfZero(k);
    } else {
      var c := if a % 2 == 1 || b % 2 == 1 then 1 else 0;
      BitOfDouble(Or(a / 2, b / 2), c, k);
      if k > 0 {
        OrBit(a / 2, b / 2, k - 1);
      }
    }
  }

  /** The single-bit test Python writes as `x & (1 << k) != 0`. */
  lemma AndPow2(x: nat, k: nat)
    ensures And(x, Shl(1, k)) != 0 <==> Bit(x, k)
  {
    var y := And(x, Shl(1, k));
    ShlIsMul(1, k);
    forall j: nat
      ensures Bit(y, j) == (Bit(x, j) && j == k)
    {
      AndBit(x, Shl(1, k), j);
      Pow2Bit(k, j);
    }
    ZeroIffNoBits(y);
  }

  /** OR of numbers with no common bit is their sum: no carry can occur. */
  lemma {:induction false} OrOfDisjointIsSum(a: nat, b: nat)
    requires And(a, b) == 0
    ensures Or(a, b) == a + b
    decreases a
  {
    if a != 0 && b != 0 {
      assert !(a % 2 == 1 && b % 2 == 1);
      assert And(a / 2, b / 2) == 0;
      OrOfDisjointIsSum(a / 2, b / 2);
    }
  }

  /** A number sharing no bit with a nor with b shares none with a | b. */
  lemma AndOrZero(a: nat, b: nat, c: nat)
    requires And(a, c) == 0 && And(b, c) == 0
    ensures And(Or(a, b), c) == 0
  {
    ZeroIffNoBits(And(a, c));
    ZeroIffNoBits(And(b, c));
    forall k: nat
      ensures !Bit(And(Or(a, b), c), k)
    {
      AndBit(Or(a, b), c, k);
      OrBit(a, b, k);
      AndBit(a, c, k);
      AndBit(b, c, k);
    }
    ZeroIffNoBits(And(Or(a, b), c));
  }

  /** Masking with 2^w - 1 keeps a number that already fits in w bits. */
  lemma AndLowMaskKeeps(x: nat, w: nat)
    requires x < Pow2(w)
    ensures And(x, LowMask(w)) == x
  {
    forall k: nat
      ensures Bit(And(x, LowMask(w)), k) == Bit(x, k)
    {
      AndBit(x, LowMask(w), k);
      LowMaskBit(w, k);
      if w <= k {
        HighBitClear(x, w, k);
      }
    }
    BitExtensionality(And(x, LowMask(w)), x);
  }

  /** Two numbers with no common bit have And zero. */
  lemma BitExtensionalityAnd(a: nat, b: nat)
    requires forall k: nat :: !(Bit(a, k) && Bit(b, k))
    ensures And(a, b) == 0
  {
    forall k: nat ensures Bit(And(a, b), k) == Bit(0, k) {
      AndBit(a, b, k);
      BitOfZero(k);
    }
    BitExtensionality(And(a, b), 0);
  }
}
