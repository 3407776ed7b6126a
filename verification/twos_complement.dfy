/**
 The script's `twos_comp(val, bits)`: reads a bits-wide pattern as a two's
 complement number by subtracting 2^bits when the top bit is set, and the
 inverse wrapping of a signed number into a bits-wide pattern.
 */
module TwosComplement {
  import opened Bits

  /** Subtracting the modulus does not change the residue. */
  lemma ModSubModulus(x: int, m: int)
    requires m > 0
    ensures (x - m) % m == x % m
  {
    var q, r := x / m, x % m;
    assert x - m == (q - 1) * m + r;
    DivUnique(x - m, m, q - 1, r);
  }

  /** A number in [-m, m) wraps to itself, or to itself plus m when negative. */
  lemma ModOfSmall(x: int, m: int)
    requires m > 0 && -m <= x < m
    ensures x % m == if x < 0 then x + m else x
  {
    if x < 0 {
      assert x == -1 * m + (x + m);
      DivUnique(x, m, -1, x + m);
    } else {
      DivUnique(x, m, 0, x);
    }
  }

  /** For a pattern that fits in n+1 bits, the test of bit n that the script
      writes as `val & (1 << n) != 0` holds exactly for the upper half. */
  lemma TopBitTest(val: nat, n: nat)
    ensures val < Pow2(n + 1) ==> (And(val, Shl(1, n)) != 0 <==> val >= Pow2(n))
  {
    AndPow2(val, n);
    if val < Pow2(n + 1) {
      TopBit(val, n);
    }
  }

  /** twos_comp(val, bits). The script subtracts `1 << bits` exactly when
      bit bits-1 of val is set, whatever the higher bits, and so always keeps
      val's residue modulo 2^bits. For a pattern of `bits` bits the result is
      the signed number it encodes: itself below 2^(bits-1), itself minus
      2^bits from there on. */
  function TwosComp(val: nat, bits: nat): (r: int)
    requires bits >= 1
    ensures !Bit(val, bits - 1) ==> r == val
    ensures Bit(val, bits - 1) ==> r == val - Pow2(bits)
    ensures r % Pow2(bits) == val % Pow2(bits)
    ensures val < Pow2(bits) ==> -(Pow2(bits - 1) as int) <= r < Pow2(bits - 1)
    ensures val < Pow2(bits - 1) ==> r == val
    ensures Pow2(bits - 1) <= val < Pow2(bits) ==> r == val - Pow2(bits)
  {
    TwosCompFacts(val, bits);
    if And(val, Shl(1, bits - 1)) != 0 then val - Shl(1, bits) else val
  }

  /** The facts behind TwosComp's contract, stated on its two branches. */
  lemma TwosCompFacts(val: nat, bits: nat)
    requires bits >= 1
    ensures Shl(1, bits) == Pow2(bits) == 2 * Pow2(bits - 1)
    ensures (val - Pow2(bits)) % Pow2(bits) == val % Pow2(bits)
    ensures And(val, Shl(1, bits - 1)) != 0 <==> Bit(val, bits - 1)
    ensures val < Pow2(bits) ==> (And(val, Shl(1, bits - 1)) != 0 <==> val >= Pow2(bits - 1))
  {
    TopBitTest(val, bits - 1);
    AndPow2(val, bits - 1);
    ShlIsMul(1, bits);
    ModSubModulus(val, Pow2(bits));
  }

  /** The bits-wide pattern of a signed number: its residue modulo 2^bits. */
  function Wrap(x: int, bits: nat): (r: nat)
    ensures r < Pow2(bits)
    ensures 0 <= x < Pow2(bits) ==> r == x
  {
    WrapOfSmall(x, Pow2(bits));
    x % Pow2(bits)
  }

  lemma WrapOfSmall(x: int, m: int)
    requires m > 0
    ensures 0 <= x < m ==> x % m == x
  {
    if 0 <= x < m {
      ModOfSmall(x, m);
    }
  }

  /** Every number representable in `bits` bits of two's complement survives
      wrapping and twos_comp. */
  lemma TwosCompOfWrap(x: int, bits: nat)
    requires bits >= 1
    requires -(Pow2(bits - 1) as int) <= x < Pow2(bits - 1)
    ensures TwosComp(Wrap(x, bits), bits) == x
  {
    ModOfSmall(x, Pow2(bits));
  }

  /** Every `bits`-wide pattern survives twos_comp and wrapping. */
  lemma WrapOfTwosComp(val: nat, bits: nat)
    requires bits >= 1
    requires val < Pow2(bits)
    ensures Wrap(TwosComp(val, bits), bits) == val
  {
    var r := TwosComp(val, bits);
    ModOfSmall(val, Pow2(bits));
    if val >= Pow2(bits - 1) {
      ModOfSmall(r, Pow2(bits));
    }
  }

  /** The 12-bit boundary cases: 0x7FF is the largest positive code, 0x800
      the most negative, 0xFFF is -1. */
  lemma TwelveBitBoundaries()
    ensures TwosComp(0x000, 12) == 0
    ensures TwosComp(0x7FF, 12) == 2047
    ensures TwosComp(0x800, 12) == -2048
    ensures TwosComp(0xFFF, 12) == -1
  {
    assert Pow2(11) == 2048 && Pow2(12) == 4096;
  }
}
