/**
 The sample path of `read_v`: the two bytes read from the conversion
 register become a 12-bit code, the code becomes a signed count, and the
 count becomes a voltage at 2 mV per count. Voltages are kept in whole
 millivolts; the script's floating-point volts and its divider factor are
 not part of this model.
 */
module Conversion {
  import opened Bits
  import opened TwosComplement
  import opened DeviceConfig

  /** Width of an ADS1015 conversion result. */
  const CodeBits: nat := 12

  /** The script's scale: 0.002 V, that is 2 mV, per count. */
  const MillivoltsPerCount: int := 2

  /** The 16-bit register value the two bytes form, most significant first. */
  function RegisterValue(b0: Byte, b1: Byte): (raw: nat)
    ensures raw < 0x1_0000
  {
    b0 * 256 + b1
  }

  /** `(val[0] << 4) | (val[1] >> 4)`: the 12-bit code, which the converter
      left-justifies in the 16-bit register, is the register shifted right by
      four, so the low nibble of the second byte plays no part. */
  function Code(b0: Byte, b1: Byte): (code: nat)
    ensures code == RegisterValue(b0, b1) / 16
    ensures code < Pow2(CodeBits)
  {
    CodeIsRegisterShifted(b0, b1);
    Or(Shl(b0, 4), Shr(b1, 4))
  }

  lemma CodeIsRegisterShifted(b0: Byte, b1: Byte)
    ensures Or(Shl(b0, 4), Shr(b1, 4)) == (b0 * 256 + b1) / 16 < Pow2(12)
  {
    ShlIsMul(b0, 4);
    ShrIsDiv(b1, 4);
    var hi, lo := Shl(b0, 4), Shr(b1, 4);
    assert Pow2(4) == 16 && Pow2(12) == 4096;
    assert lo < 16;
    forall k: nat ensures !(Bit(hi, k) && Bit(lo, k)) {
      ShlBit(b0, 4, k);
      if k >= 4 {
        HighBitClear(lo, 4, k);
      }
    }
    BitExtensionalityAnd(hi, lo);
    OrOfDisjointIsSum(hi, lo);
    DivUnique(b0 * 256 + b1, 16, b0 * 16 + b1 / 16, b1 % 16);
  }

  /** `twos_comp(v, 12)`: the signed count the two bytes encode. */
  function Counts(b0: Byte, b1: Byte): (c: int)
    ensures -2048 <= c < 2048
    ensures c % 4096 == RegisterValue(b0, b1) / 16 % 4096
  {
    assert Pow2(11) == 2048 && Pow2(12) == 4096;
    TwosComp(Code(b0, b1), CodeBits)
  }

  /** `v = v * 0.002`, in whole millivolts: always even, and within the
      +/-4.096 V full-scale range of the configured gain. */
  function Millivolts(b0: Byte, b1: Byte): (mv: int)
    ensures -4096 <= mv <= 4094
    ensures mv % MillivoltsPerCount == 0
  {
    var c := Counts(b0, b1);
    ScaleFacts(c);
    c * MillivoltsPerCount
  }

  lemma ScaleFacts(c: int)
    requires -2048 <= c < 2048
    ensures -4096 <= c * MillivoltsPerCount <= 4094
    ensures (c * MillivoltsPerCount) % MillivoltsPerCount == 0
  {
    assert c * MillivoltsPerCount == c + c;
    DivUnique(c + c, 2, c, 0);
  }

  /** The code of two bytes, written with the second byte's nibbles apart. */
  lemma CodeOfBytes(b0: Byte, b1: Byte)
    ensures Code(b0, b1) == b0 * 16 + b1 / 16
    ensures b1 / 16 * 16 == b1 - b1 % 16
  {
    DivUnique(b0 * 256 + b1, 16, b0 * 16 + b1 / 16, b1 % 16);
  }

  /** A 12-bit code shifted left by four, split into its two bytes. */
  lemma ShiftedCodeBytes(u: nat)
    requires u < 4096
    ensures u * 16 / 256 == u / 16 < 256
    ensures u * 16 % 256 == u % 16 * 16
  {
    DivUnique(u * 16, 256, u / 16, u % 16 * 16);
  }

  /** The register bytes the converter stores for a signed count: the 12-bit
      two's complement code shifted into bits 15..4, the low four bits zero. */
  function RegisterBytes(count: int): (w: (Byte, Byte))
    requires -2048 <= count < 2048
    ensures w.1 % 16 == 0
    ensures w == (Wrap(count, CodeBits) / 16, Wrap(count, CodeBits) % 16 * 16)
  {
    assert Pow2(12) == 4096 && Pow2(4) == 16;
    var u := Wrap(count, CodeBits);
    var raw := Shl(u, 4);
    ShlIsMul(u, 4);
    ShiftedCodeBytes(u);
    (raw / 256, raw % 256)
  }

  /** Decoding the bytes the converter stores for a count gives that count back. */
  lemma CountsOfRegisterBytes(count: int)
    requires -2048 <= count < 2048
    ensures Counts(RegisterBytes(count).0, RegisterBytes(count).1) == count
    ensures Millivolts(RegisterBytes(count).0, RegisterBytes(count).1) == MillivoltsPerCount * count
  {
    assert Pow2(11) == 2048 && Pow2(12) == 4096;
    var u := Wrap(count, CodeBits);
    var w := RegisterBytes(count);
    CodeOfBytes(w.0, w.1);
    DivUnique(u, 16, w.0, u % 16);
    assert Code(w.0, w.1) == u;
    TwosCompOfWrap(count, CodeBits);
  }

  /** Re-encoding a decoded count restores the bytes except the low nibble of
      the second byte, which the decoding drops. */
  lemma RegisterBytesOfCounts(b0: Byte, b1: Byte)
    ensures RegisterBytes(Counts(b0, b1)) == (b0, b1 - b1 % 16)
  {
    assert Pow2(11) == 2048 && Pow2(12) == 4096;
    var code := Code(b0, b1);
    WrapOfTwosComp(code, CodeBits);
    assert Wrap(Counts(b0, b1), CodeBits) == code;
    CodeOfBytes(b0, b1);
    DivUnique(code, 16, b0, b1 / 16);
  }

  /** Two readings that differ only in the padding nibble give the same count. */
  lemma PaddingIgnored(b0: Byte, b1: Byte, b1': Byte)
    requires b1 / 16 == b1' / 16
    ensures Counts(b0, b1) == Counts(b0, b1')
  {
    CodeOfBytes(b0, b1);
    CodeOfBytes(b0, b1');
  }

  /** Readings at the edges of the range and the worked example: zero bytes
      read 0 mV, 0x08 0x00 is code 128 and 256 mV, 0x7F 0xF0 is the largest
      positive reading and 0x80 0x00 the most negative. */
  lemma SampleReadings()
    ensures Millivolts(0x00, 0x00) == 0
    ensures Counts(0x08, 0x00) == 128 && Millivolts(0x08, 0x00) == 256
    ensures Counts(0x7F, 0xF0) == 2047 && Millivolts(0x7F, 0xF0) == 4094
    ensures Counts(0x80, 0x00) == -2048 && Millivolts(0x80, 0x00) == -4096
    ensures Counts(0xFF, 0xF0) == -1 && Millivolts(0xFF, 0xF0) == -2
  {
    TwelveBitBoundaries();
    assert Pow2(11) == 2048 && Pow2(12) == 4096;
  }

  /** The 2 mV scale is the LSB size of the gain the script configures. */
  lemma ScaleMatchesConfiguredGain()
    ensures LsbMicrovolts(ScriptConfig().pga) == MillivoltsPerCount * 1000
    ensures FullScaleMillivolts(ScriptConfig().pga) == 2048 * MillivoltsPerCount
  {
  }
}
