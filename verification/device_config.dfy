/**
 The configuration the monitor script writes to the ADS1015 at start-up:
 a record of all nine fields, its two-byte encoding by mask-and-OR and the
 decoding that reads every field back, the two bytes the script actually
 builds, and what those bytes mean according to the ADS1015 datasheet.
 */
module DeviceConfig {
  import opened Bits
  import opened ConfigRegister

  /** The logical contents of the config register, one number per field. */
  datatype Config = Config(
    os: nat, mux: nat, pga: nat, mode: nat,
    dr: nat, compMode: nat, compPol: nat, compLat: nat, compQue: nat)
  {
    function Value(f: Field): nat
    {
      match f
      case Os => os
      case Mux => mux
      case Pga => pga
      case Mode => mode
      case Dr => dr
      case CompMode => compMode
      case CompPol => compPol
      case CompLat => compLat
      case CompQue => compQue
    }

    /** Every value fits the width of its field. */
    predicate Fits()
    {
      forall f :: Value(f) < Pow2(Width(f))
    }
  }

  /** The two bytes written to the CONFIG register, most significant first. */
  datatype Word = Word(high: Byte, low: Byte)
  {
    function At(h: Half): Byte
    {
      match h
      case High => high
      case Low => low
    }
  }

  /** One setting per field of byte h, most significant field first. */
  function Settings(c: Config, h: Half): (ss: seq<Setting>)
    ensures OnHalf(ss, h) && DistinctFields(ss)
  {
    match h
    case High =>
      [Setting(Os, c.os), Setting(Mux, c.mux), Setting(Pga, c.pga), Setting(Mode, c.mode)]
    case Low =>
      [Setting(Dr, c.dr), Setting(CompMode, c.compMode), Setting(CompPol, c.compPol),
       Setting(CompLat, c.compLat), Setting(CompQue, c.compQue)]
  }

  /** Position of a field's setting within its byte's settings. */
  function Slot(f: Field): nat
  {
    match f
    case Os => 0
    case Mux => 1
    case Pga => 2
    case Mode => 3
    case Dr => 0
    case CompMode => 1
    case CompPol => 2
    case CompLat => 3
    case CompQue => 4
  }

  lemma SettingAtSlot(c: Config, f: Field)
    ensures Slot(f) < |Settings(c, HalfOf(f))|
    ensures Settings(c, HalfOf(f))[Slot(f)] == Setting(f, c.Value(f))
  {
  }

  /** Every field of an encoded byte reads back as its value, truncated to
      the field's width. */
  lemma PackSettingsReadBack(c: Config)
    ensures forall f :: Get(f, Pack(Settings(c, HalfOf(f)))) == And(c.Value(f), LowMask(Width(f)))
  {
    forall f
      ensures Get(f, Pack(Settings(c, HalfOf(f)))) == And(c.Value(f), LowMask(Width(f)))
    {
      SettingAtSlot(c, f);
      GetPack(Settings(c, HalfOf(f)), HalfOf(f), Slot(f));
    }
  }

  /** Packs every field into its byte by mask-and-OR. A value too wide for
      its field loses its high bits, exactly as the mask cuts them off; the
      other fields are unaffected. */
  function Encode(c: Config): (w: Word)
    ensures forall f :: Get(f, w.At(HalfOf(f))) == And(c.Value(f), LowMask(Width(f)))
  {
    PackIsByte(Settings(c, High), High);
    PackIsByte(Settings(c, Low), Low);
    PackSettingsReadBack(c);
    Word(Pack(Settings(c, High)), Pack(Settings(c, Low)))
  }

  /** Reads every field back out of the two bytes. */
  function Decode(w: Word): (c: Config)
    ensures c.Fits()
  {
    var c := Config(
      Get(Os, w.high), Get(Mux, w.high), Get(Pga, w.high), Get(Mode, w.high),
      Get(Dr, w.low), Get(CompMode, w.low), Get(CompPol, w.low),
      Get(CompLat, w.low), Get(CompQue, w.low));
    assert forall f :: c.Value(f) == Get(f, w.At(HalfOf(f)));
    forall f
      ensures c.Value(f) < Pow2(Width(f))
    {
      GetFits(f, w.At(HalfOf(f)));
    }
    c
  }

  /** Decoding an encoding gives back every field that fits. */
  lemma DecodeEncode(c: Config)
    requires c.Fits()
    ensures Decode(Encode(c)) == c
  {
    var d := Decode(Encode(c));
    forall f
      ensures d.Value(f) == c.Value(f)
    {
      AndLowMaskKeeps(c.Value(f), Width(f));
    }
    assert d.Value(Os) == c.Value(Os) && d.Value(Mux) == c.Value(Mux);
    assert d.Value(Pga) == c.Value(Pga) && d.Value(Mode) == c.Value(Mode);
    assert d.Value(Dr) == c.Value(Dr) && d.Value(CompMode) == c.Value(CompMode);
    assert d.Value(CompPol) == c.Value(CompPol) && d.Value(CompLat) == c.Value(CompLat);
    assert d.Value(CompQue) == c.Value(CompQue);
  }

  /** The encoded byte h of Decode(w) is w's byte h again. */
  lemma EncodeDecodeByte(w: Word, h: Half)
    ensures Pack(Settings(Decode(w), h)) == w.At(h)
  {
    forall k: nat
      ensures Bit(Pack(Settings(Decode(w), h)), k) == Bit(w.At(h), k)
    {
      EncodeDecodeBit(w, h, k);
    }
    BitExtensionality(Pack(Settings(Decode(w), h)), w.At(h));
  }

  /** Bit k of the encoded byte h of Decode(w) is bit k of w's byte h. */
  lemma EncodeDecodeBit(w: Word, h: Half, k: nat)
    ensures Bit(Pack(Settings(Decode(w), h)), k) == Bit(w.At(h), k)
  {
    var ss := Settings(Decode(w), h);
    var x := w.At(h);
    if k < 8 {
      var f := FieldAt(h, k);
      SettingAtSlot(Decode(w), f);
      PackFieldBit(ss, h, Slot(f), k);
      GetBit(f, x, k - Shift(f));
    } else {
      PackIsByte(ss, h);
      HighBitClear(Pack(ss), 8, k);
      HighBitClear(x, 8, k);
    }
  }

  /** Every pair of bytes is the encoding of what it decodes to: the nine
      fields cover all sixteen bits. */
  lemma EncodeDecode(w: Word)
    ensures Encode(Decode(w)) == w
  {
    EncodeDecodeByte(w, High);
    EncodeDecodeByte(w, Low);
  }

  /** Two bytes whose fields read back as the values of c are the encoding
      of c, and decode to c. */
  lemma ReadBackDeterminesWord(w: Word, c: Config)
    requires forall f :: Get(f, w.At(HalfOf(f))) == c.Value(f)
    ensures Decode(w) == c
    ensures Encode(c) == w
  {
    var d := Decode(w);
    assert forall f :: d.Value(f) == c.Value(f);
    assert d.Value(Os) == c.Value(Os) && d.Value(Mux) == c.Value(Mux);
    assert d.Value(Pga) == c.Value(Pga) && d.Value(Mode) == c.Value(Mode);
    assert d.Value(Dr) == c.Value(Dr) && d.Value(CompMode) == c.Value(CompMode);
    assert d.Value(CompPol) == c.Value(CompPol) && d.Value(CompLat) == c.Value(CompLat);
    assert d.Value(CompQue) == c.Value(CompQue);
    EncodeDecode(w);
  }

  // ---------------------------------------------------------------------
  // The configuration the script writes

  /** The high byte as the script builds it: MODE 0, MUX 0b100, PGA 0b001,
      OS left out. */
  function ScriptHighByte(): (b: Byte)
    ensures b == 0x42
  {
    ScriptHighByteValue();
    Or(Or(And(Mask(Mode), 0), And(Mask(Mux), Shl(0x4, 4))), And(Mask(Pga), Shl(0x1, 1)))
  }

  /** The low byte as the script builds it: DR 4, COMP_QUE 3, the comparator
      mode, polarity and latch fields left out. */
  function ScriptLowByte(): (b: Byte)
    ensures b == 0x83
  {
    ScriptLowByteValue();
    Or(And(Mask(Dr), Shl(4, 5)), And(Mask(CompQue), 3))
  }

  /** The two bytes the script writes to the CONFIG register. */
  function ScriptWord(): Word
  {
    Word(ScriptHighByte(), ScriptLowByte())
  }

  /** The script's high-byte terms, as settings; OS is not among them. */
  function ScriptHighSettings(): seq<Setting>
  {
    [Setting(Mode, 0), Setting(Mux, 4), Setting(Pga, 1)]
  }

  /** The script's low-byte terms, as settings; COMP_MODE, COMP_POL and
      COMP_LAT are not among them. */
  function ScriptLowSettings(): seq<Setting>
  {
    [Setting(Dr, 4), Setting(CompQue, 3)]
  }

  lemma ScriptHighByteValue()
    ensures Or(Or(And(Mask(Mode), 0), And(Mask(Mux), Shl(0x4, 4))), And(Mask(Pga), Shl(0x1, 1))) == 0x42
  {
    var mux, pga := Setting(Mux, 4), Setting(Pga, 1);
    assert And(Mask(Mode), 0) == 0;
    TermValue(mux);
    TermValue(pga);
    TermsDisjoint(mux, pga);
  }

  lemma ScriptLowByteValue()
    ensures Or(And(Mask(Dr), Shl(4, 5)), And(Mask(CompQue), 3)) == 0x83
  {
    var dr, que := Setting(Dr, 4), Setting(CompQue, 3);
    assert Shl(3, 0) == 3;
    TermValue(dr);
    TermValue(que);
    TermsDisjoint(dr, que);
  }

  /** The configuration the script intends: continuous conversion of AIN0
      against GND at +-4.096 V full scale, 1600 samples per second,
      comparator disabled, OS bit not set. */
  function ScriptConfig(): Config
  {
    Config(os := 0, mux := 4, pga := 1, mode := 0,
           dr := 4, compMode := 0, compPol := 0, compLat := 0, compQue := 3)
  }

  lemma PackOfTwo(a: Setting, b: Setting)
    ensures Pack([a, b]) == Or(Term(a), Term(b))
  {
    PackSnoc([], a);
    PackSnoc([a], b);
    assert [a] == [] + [a] && [a, b] == [a] + [b];
  }

  lemma PackOfThree(a: Setting, b: Setting, c: Setting)
    ensures Pack([a, b, c]) == Or(Or(Term(a), Term(b)), Term(c))
  {
    PackOfTwo(a, b);
    PackSnoc([a, b], c);
    assert [a, b, c] == [a, b] + [c];
  }

  /** The script's high byte is the composition of its three terms. */
  lemma ScriptHighPack()
    ensures Pack(ScriptHighSettings()) == ScriptHighByte()
  {
    var mode, mux, pga := Setting(Mode, 0), Setting(Mux, 4), Setting(Pga, 1);
    PackOfThree(mode, mux, pga);
    TermValue(mode);
    TermValue(mux);
    TermValue(pga);
    TermsDisjoint(mux, pga);
  }

  /** The script's low byte is the composition of its two terms. */
  lemma ScriptLowPack()
    ensures Pack(ScriptLowSettings()) == ScriptLowByte()
  {
    var dr, que := Setting(Dr, 4), Setting(CompQue, 3);
    PackOfTwo(dr, que);
    TermValue(dr);
    TermValue(que);
    TermsDisjoint(dr, que);
  }

  /** MUX reads back as 4, PGA as 1, MODE as 0 (continuous) and the OS bit,
      which the script leaves out, as 0. */
  lemma ScriptHighReadBack()
    ensures Get(Mux, ScriptHighByte()) == 4
    ensures Get(Pga, ScriptHighByte()) == 1
    ensures Get(Mode, ScriptHighByte()) == 0
    ensures Get(Os, ScriptHighByte()) == 0
  {
    var hi := ScriptHighSettings();
    ScriptHighPack();
    assert OnHalf(hi, High) && DistinctFields(hi);
    GetPack(hi, High, 0);
    GetPack(hi, High, 1);
    GetPack(hi, High, 2);
    GetPackUnset(hi, High, Os);
    AndLowMaskKeeps(0, 1);
    AndLowMaskKeeps(4, 3);
    AndLowMaskKeeps(1, 3);
  }

  /** DR reads back as 4, COMP_QUE as 3, and the comparator mode, polarity
      and latch fields, which the script leaves out, as 0. */
  lemma ScriptLowReadBack()
    ensures Get(Dr, ScriptLowByte()) == 4
    ensures Get(CompQue, ScriptLowByte()) == 3
    ensures Get(CompMode, ScriptLowByte()) == 0
    ensures Get(CompPol, ScriptLowByte()) == 0
    ensures Get(CompLat, ScriptLowByte()) == 0
  {
    var lo := ScriptLowSettings();
    ScriptLowPack();
    assert OnHalf(lo, Low) && DistinctFields(lo);
    GetPack(lo, Low, 0);
    GetPack(lo, Low, 1);
    GetPackUnset(lo, Low, CompMode);
    GetPackUnset(lo, Low, CompPol);
    GetPackUnset(lo, Low, CompLat);
    AndLowMaskKeeps(4, 3);
    AndLowMaskKeeps(3, 2);
  }

  /** The script's two bytes are exactly the encoding of the intended
      configuration, and decode back to it. */
  lemma ScriptBytesEncodeConfig()
    ensures Decode(ScriptWord()) == ScriptConfig()
    ensures Encode(ScriptConfig()) == ScriptWord()
  {
    forall f
      ensures Get(f, ScriptWord().At(HalfOf(f))) == ScriptConfig().Value(f)
    {
      ScriptFieldReadBack(f);
    }
    ReadBackDeterminesWord(ScriptWord(), ScriptConfig());
  }

  /** Each field of the script's bytes reads back as the intended value. */
  lemma ScriptFieldReadBack(f: Field)
    ensures Get(f, ScriptWord().At(HalfOf(f))) == ScriptConfig().Value(f)
  {
    if HalfOf(f) == High {
      ScriptHighReadBack();
    } else {
      ScriptLowReadBack();
    }
  }

  /** Every bit the script sets in the high byte lies inside the MUX or the
      PGA mask. */
  lemma ScriptHighBitsInMuxOrPga(k: nat)
    ensures Bit(ScriptHighByte(), k) ==> Bit(Mask(Mux), k) || Bit(Mask(Pga), k)
  {
    var ss := ScriptHighSettings();
    ScriptHighPack();
    BitOfZero(k);
    if Bit(Pack(ss), k) {
      var i := PackBitSource(ss, k);
      TermBit(ss[i], k);
      MaskBit(ss[i].field, k);
    }
  }

  // ---------------------------------------------------------------------
  // Field meanings, from the ADS1015 datasheet's config register tables

  /** What the converter samples. */
  datatype InputSelection =
    | Differential(positive: nat, negative: nat)  // AINp - AINn
    | SingleEnded(input: nat)                      // AINx - GND

  function MuxInput(mux: nat): InputSelection
    requires mux < 8
  {
    match mux
    case 0 => Differential(0, 1)
    case 1 => Differential(0, 3)
    case 2 => Differential(1, 3)
    case 3 => Differential(2, 3)
    case _ => SingleEnded(mux - 4)
  }

  /** The full-scale range selected by PGA, in millivolts (+- this value). */
  function FullScaleMillivolts(pga: nat): nat
    requires pga < 8
  {
    match pga
    case 0 => 6144
    case 1 => 4096
    case 2 => 2048
    case 3 => 1024
    case 4 => 512
    case _ => 256
  }

  /** The weight of one count of the 12-bit result: the full-scale range
      divided by 2^11, in microvolts. */
  function LsbMicrovolts(pga: nat): nat
    requires pga < 8
  {
    FullScaleMillivolts(pga) * 1000 / 2048
  }

  /** The data rate selected by DR, in samples per second. */
  function DataRateSps(dr: nat): nat
    requires dr < 8
  {
    match dr
    case 0 => 128
    case 1 => 250
    case 2 => 490
    case 3 => 920
    case 4 => 1600
    case 5 => 2400
    case _ => 3300
  }

  /** MODE 0 is continuous conversion, 1 single-shot. */
  predicate Continuous(c: Config)
  {
    c.mode == 0
  }

  /** COMP_QUE 3 disables the comparator. */
  predicate ComparatorDisabled(c: Config)
  {
    c.compQue == 3
  }

  /** The configuration the script's bytes decode to (ScriptBytesEncodeConfig)
      is the intended operating point: AIN0 against GND, +-4.096 V full scale
      so 2 mV per count, 1600 samples per second, continuous conversion,
      comparator disabled. */
  lemma ScriptConfigMeaning()
    ensures var c := ScriptConfig();
      && MuxInput(c.mux) == SingleEnded(0)
      && FullScaleMillivolts(c.pga) == 4096
      && LsbMicrovolts(c.pga) == 2000
      && DataRateSps(c.dr) == 1600
      && Continuous(c)
      && ComparatorDisabled(c)
  {
  }
}
