/**
 The ADS1015 configuration register as the monitor script builds it.

 The register is 16 bits wide and travels over I2C as two bytes, most
 significant first. Each byte is a union of bit fields; the script names
 every field by a mask constant and writes a field by the term
 `mask & (value << shift)`, OR-ing the terms of one byte together. The field
 positions are those of the ADS1015 datasheet: OS bit 15, MUX bits 14:12,
 PGA bits 11:9, MODE bit 8, DR bits 7:5, COMP_MODE bit 4, COMP_POL bit 3,
 COMP_LAT bit 2, COMP_QUE bits 1:0.
 */
module ConfigRegister {
  import opened Bits

  /** The two bytes of the register. */
  datatype Half = High | Low

  /** The fields of the config register. */
  datatype Field = Os | Mux | Pga | Mode | Dr | CompMode | CompPol | CompLat | CompQue

  /** The script's mask constants reg_os ... reg_comp_que. */
  function Mask(f: Field): nat
  {
    match f
    case Os       => 0x80  // 1000 0000
    case Mux      => 0x70  // 0111 0000
    case Pga      => 0x0E  // 0000 1110
    case Mode     => 0x01  // 0000 0001
    case Dr       => 0xE0  // 1110 0000
    case CompMode => 0x10  // 0001 0000
    case CompPol  => 0x08  // 0000 1000
    case CompLat  => 0x04  // 0000 0100
    case CompQue  => 0x03  // 0000 0011
  }

  /** The byte a field lives in. */
  function HalfOf(f: Field): Half
  {
    match f
    case Os | Mux | Pga | Mode => High
    case _ => Low
  }

  /** Position, within its byte, of the field's least significant bit. */
  function Shift(f: Field): nat
  {
    match f
    case Os       => 7
    case Mux      => 4
    case Pga      => 1
    case Mode     => 0
    case Dr       => 5
    case CompMode => 4
    case CompPol  => 3
    case CompLat  => 2
    case CompQue  => 0
  }

  /** Number of bits of the field. */
  function Width(f: Field): nat
  {
    match f
    case Mux | Pga | Dr => 3
    case CompQue => 2
    case _ => 1
  }

  /** Bit k of a byte belongs to field f. */
  predicate InField(f: Field, k: nat)
  {
    Shift(f) <= k < Shift(f) + Width(f)
  }

  // ---------------------------------------------------------------------
  // The mask table

  /** Each mask is a run of Width(f) ones starting at bit Shift(f). */
  lemma MaskLayout(f: Field)
    ensures Mask(f) == Shl(LowMask(Width(f)), Shift(f))
  {
    ShlIsMul(LowMask(Width(f)), Shift(f));
    match f
    case Os => assert Pow2(7) == 128;
    case Mux => assert LowMask(3) == 7 && Pow2(4) == 16;
    case Pga => assert LowMask(3) == 7 && Pow2(1) == 2;
    case Mode =>
    case Dr => assert LowMask(3) == 7 && Pow2(5) == 32;
    case CompMode => assert Pow2(4) == 16;
    case CompPol => assert Pow2(3) == 8;
    case CompLat => assert Pow2(2) == 4;
    case CompQue => assert LowMask(2) == 3;
  }

  /** The bits of a mask are exactly the bits of its field. */
  lemma MaskBit(f: Field, k: nat)
    ensures Bit(Mask(f), k) <==> InField(f, k)
  {
    MaskLayout(f);
    ShlBit(LowMask(Width(f)), Shift(f), k);
    if Shift(f) <= k {
      LowMaskBit(Width(f), k - Shift(f));
    }
  }

  /** Distinct fields of one byte never share a bit. */
  lemma FieldsDisjoint(f: Field, g: Field, k: nat)
    requires HalfOf(f) == HalfOf(g)
    requires InField(f, k) && InField(g, k)
    ensures f == g
  {
  }

  /** Every field lies inside its byte. */
  lemma FieldInByte(f: Field, k: nat)
    requires InField(f, k)
    ensures k < 8
  {
  }

  /** The field of a byte that owns bit k: every bit of either byte belongs
      to some field of that byte. */
  function FieldAt(h: Half, k: nat): (f: Field)
    requires k < 8
    ensures HalfOf(f) == h && InField(f, k)
  {
    match h
    case High =>
      if k == 7 then Os else if k >= 4 then Mux else if k >= 1 then Pga else Mode
    case Low =>
      if k >= 5 then Dr
      else if k == 4 then CompMode
      else if k == 3 then CompPol
      else if k == 2 then CompLat
      else CompQue
  }

  /** The masks of one byte are pairwise disjoint. */
  lemma MasksDisjoint(f: Field, g: Field)
    requires f != g && HalfOf(f) == HalfOf(g)
    ensures And(Mask(f), Mask(g)) == 0
  {
    forall k: nat
      ensures !Bit(And(Mask(f), Mask(g)), k)
    {
      AndBit(Mask(f), Mask(g), k);
      MaskBit(f, k);
      MaskBit(g, k);
      if InField(f, k) && InField(g, k) {
        FieldsDisjoint(f, g, k);
      }
    }
    ZeroIffNoBits(And(Mask(f), Mask(g)));
  }

  // ---------------------------------------------------------------------
  // Mask-and-OR composition

  /** A field together with the value the script writes into it. */
  datatype Setting = Setting(field: Field, value: nat)

  /** The script's term `mask & (value << shift)` for one field. */
  function Term(s: Setting): nat
  {
    And(Mask(s.field), Shl(s.value, Shift(s.field)))
  }

  /** The terms OR-ed together left to right, as Python evaluates
      `t1 | t2 | ... | tn`; an empty composition is 0. */
  function Pack(ss: seq<Setting>): nat
  {
    if |ss| == 0 then 0 else Or(Pack(ss[..|ss| - 1]), Term(ss[|ss| - 1]))
  }

  /** Reading a field back from a byte: `(byte & mask) >> shift`. */
  function Get(f: Field, x: nat): nat
  {
    ShrBit(And(x, Mask(f)), Shift(f), 0);
    Shr(And(x, Mask(f)), Shift(f))
  }

  /** The arithmetic meaning of a packed byte: each value weighted by the
      position of its field. */
  function Sum(ss: seq<Setting>): nat
  {
    if |ss| == 0 then 0
    else Sum(ss[..|ss| - 1]) + ss[|ss| - 1].value * Pow2(Shift(ss[|ss| - 1].field))
  }

  /** All settings address fields of byte h. */
  predicate OnHalf(ss: seq<Setting>, h: Half)
  {
    forall i :: 0 <= i < |ss| ==> HalfOf(ss[i].field) == h
  }

  /** No field is set twice. */
  predicate DistinctFields(ss: seq<Setting>)
  {
    forall i, j :: 0 <= i < j < |ss| ==> ss[i].field != ss[j].field
  }

  /** Every value fits its field. */
  predicate ValuesFit(ss: seq<Setting>)
  {
    forall i :: 0 <= i < |ss| ==> ss[i].value < Pow2(Width(ss[i].field))
  }

  /** A term has only bits of its own field: the value, truncated to the
      field's width, moved to the field's position. */
  lemma TermBit(s: Setting, k: nat)
    ensures Bit(Term(s), k) <==> InField(s.field, k) && Bit(s.value, k - Shift(s.field))
  {
    AndBit(Mask(s.field), Shl(s.value, Shift(s.field)), k);
    MaskBit(s.field, k);
    ShlBit(s.value, Shift(s.field), k);
  }

  /** A term never touches a bit outside its mask: `term & mask == term`, and
      the term shares no bit with the mask of any other field of the byte. */
  lemma TermInsideMask(s: Setting, g: Field)
    requires HalfOf(g) == HalfOf(s.field)
    ensures And(Term(s), Mask(s.field)) == Term(s)
    ensures g != s.field ==> And(Term(s), Mask(g)) == 0
  {
    forall k: nat
      ensures Bit(And(Term(s), Mask(s.field)), k) == Bit(Term(s), k)
      ensures g != s.field ==> !Bit(And(Term(s), Mask(g)), k)
    {
      AndBit(Term(s), Mask(s.field), k);
      AndBit(Term(s), Mask(g), k);
      TermBit(s, k);
      MaskBit(s.field, k);
      MaskBit(g, k);
      if InField(s.field, k) && InField(g, k) {
        FieldsDisjoint(s.field, g, k);
      }
    }
    BitExtensionality(And(Term(s), Mask(s.field)), Term(s));
    if g != s.field {
      ZeroIffNoBits(And(Term(s), Mask(g)));
    }
  }

  /** A value that fits its field is written unchanged: the term is the
      value times 2^shift. */
  lemma TermValue(s: Setting)
    requires s.value < Pow2(Width(s.field))
    ensures Term(s) == s.value * Pow2(Shift(s.field))
  {
    var t := Shl(s.value, Shift(s.field));
    forall k: nat
      ensures Bit(Term(s), k) == Bit(t, k)
    {
      TermBit(s, k);
      ShlBit(s.value, Shift(s.field), k);
      if Shift(s.field) <= k && !InField(s.field, k) {
        HighBitClear(s.value, Width(s.field), k - Shift(s.field));
      }
    }
    BitExtensionality(Term(s), t);
    ShlIsMul(s.value, Shift(s.field));
  }

  /** A set bit of a composition comes from one of its terms. */
  lemma {:induction false} PackBitSource(ss: seq<Setting>, k: nat) returns (i: nat)
    requires Bit(Pack(ss), k)
    ensures i < |ss| && Bit(Term(ss[i]), k)
    decreases |ss|
  {
    if |ss| == 0 {
      BitOfZero(k);
      assert false;
    } else {
      var init := ss[..|ss| - 1];
      OrBit(Pack(init), Term(ss[|ss| - 1]), k);
      if Bit(Term(ss[|ss| - 1]), k) {
        i := |ss| - 1;
      } else {
        i := PackBitSource(init, k);
        assert init[i] == ss[i];
      }
    }
  }

  /** Every bit of every term survives in the composition. */
  lemma {:induction false} PackBitFrom(ss: seq<Setting>, i: nat, k: nat)
    requires i < |ss| && Bit(Term(ss[i]), k)
    ensures Bit(Pack(ss), k)
    decreases |ss|
  {
    var init := ss[..|ss| - 1];
    OrBit(Pack(init), Term(ss[|ss| - 1]), k);
    if i < |ss| - 1 {
      assert init[i] == ss[i];
      PackBitFrom(init, i, k);
    }
  }

  /** Within field ss[i].field, a composition of distinct fields of one byte
      holds exactly the bits of ss[i]'s value: the other terms do not disturb
      it. */
  lemma PackFieldBit(ss: seq<Setting>, h: Half, i: nat, k: nat)
    requires OnHalf(ss, h) && DistinctFields(ss)
    requires i < |ss| && InField(ss[i].field, k)
    ensures Bit(Pack(ss), k) <==> Bit(ss[i].value, k - Shift(ss[i].field))
  {
    TermBit(ss[i], k);
    if Bit(Pack(ss), k) {
      var j := PackBitSource(ss, k);
      TermBit(ss[j], k);
      FieldsDisjoint(ss[i].field, ss[j].field, k);
      assert i == j;
    }
    if Bit(ss[i].value, k - Shift(ss[i].field)) {
      PackBitFrom(ss, i, k);
    }
  }

  /** A composition of fields of one byte fits in a byte. */
  lemma PackIsByte(ss: seq<Setting>, h: Half)
    requires OnHalf(ss, h)
    ensures Pack(ss) < 256
  {
    forall k: nat | 8 <= k
      ensures !Bit(Pack(ss), k)
    {
      if Bit(Pack(ss), k) {
        var j := PackBitSource(ss, k);
        TermBit(ss[j], k);
        FieldInByte(ss[j].field, k);
      }
    }
    BelowPow2(Pack(ss), 8);
  }

  /** Mask-and-OR composition of distinct fields of one byte, with values
      that fit, is the arithmetic layout: no term carries into another. */
  lemma {:induction false} PackIsSum(ss: seq<Setting>, h: Half)
    requires OnHalf(ss, h) && DistinctFields(ss) && ValuesFit(ss)
    ensures Pack(ss) == Sum(ss)
    decreases |ss|
  {
    if |ss| > 0 {
      var init, last := ss[..|ss| - 1], ss[|ss| - 1];
      assert OnHalf(init, h) && DistinctFields(init) && ValuesFit(init) by {
        forall i | 0 <= i < |init| ensures init[i] == ss[i] { }
      }
      PackIsSum(init, h);
      forall k: nat
        ensures !Bit(And(Pack(init), Term(last)), k)
      {
        AndBit(Pack(init), Term(last), k);
        if Bit(Pack(init), k) && Bit(Term(last), k) {
          var j := PackBitSource(init, k);
          assert init[j] == ss[j];
          TermBit(init[j], k);
          TermBit(last, k);
          FieldsDisjoint(init[j].field, last.field, k);
        }
      }
      ZeroIffNoBits(And(Pack(init), Term(last)));
      OrOfDisjointIsSum(Pack(init), Term(last));
      TermValue(last);
    }
  }

  /** The bits of a field read back are the bits of the byte in that field. */
  lemma GetBit(f: Field, x: nat, j: nat)
    ensures Bit(Get(f, x), j) <==> j < Width(f) && Bit(x, j + Shift(f))
  {
    ShrBit(And(x, Mask(f)), Shift(f), j);
    AndBit(x, Mask(f), j + Shift(f));
    MaskBit(f, j + Shift(f));
  }

  /** A field read back always fits the field. */
  lemma GetFits(f: Field, x: nat)
    ensures Get(f, x) < Pow2(Width(f))
  {
    forall j: nat | Width(f) <= j
      ensures !Bit(Get(f, x), j)
    {
      GetBit(f, x, j);
    }
    BelowPow2(Get(f, x), Width(f));
  }

  /** Reading back field ss[i].field of a composition of distinct fields of
      one byte yields the value written, truncated to the field's width as
      the mask truncates it. */
  lemma GetPack(ss: seq<Setting>, h: Half, i: nat)
    requires OnHalf(ss, h) && DistinctFields(ss) && i < |ss|
    ensures Get(ss[i].field, Pack(ss)) == And(ss[i].value, LowMask(Width(ss[i].field)))
  {
    var f := ss[i].field;
    forall j: nat
      ensures Bit(Get(f, Pack(ss)), j) == Bit(And(ss[i].value, LowMask(Width(f))), j)
    {
      GetBit(f, Pack(ss), j);
      AndBit(ss[i].value, LowMask(Width(f)), j);
      LowMaskBit(Width(f), j);
      if j < Width(f) {
        PackFieldBit(ss, h, i, j + Shift(f));
      }
    }
    BitExtensionality(Get(f, Pack(ss)), And(ss[i].value, LowMask(Width(f))));
  }

  /** Terms for different fields of one byte share no bit, so OR-ing them
      adds them. */
  lemma TermsDisjoint(s: Setting, t: Setting)
    requires s.field != t.field && HalfOf(s.field) == HalfOf(t.field)
    ensures And(Term(s), Term(t)) == 0
    ensures Or(Term(s), Term(t)) == Term(s) + Term(t)
  {
    forall k: nat
      ensures !Bit(And(Term(s), Term(t)), k)
    {
      AndBit(Term(s), Term(t), k);
      TermBit(s, k);
      TermBit(t, k);
      if InField(s.field, k) && InField(t.field, k) {
        FieldsDisjoint(s.field, t.field, k);
      }
    }
    ZeroIffNoBits(And(Term(s), Term(t)));
    OrOfDisjointIsSum(Term(s), Term(t));
  }

  /** A field that no term of the composition addresses reads back as 0. */
  lemma GetPackUnset(ss: seq<Setting>, h: Half, f: Field)
    requires OnHalf(ss, h) && HalfOf(f) == h
    requires forall i :: 0 <= i < |ss| ==> ss[i].field != f
    ensures Get(f, Pack(ss)) == 0
  {
    forall j: nat
      ensures !Bit(Get(f, Pack(ss)), j)
    {
      GetBit(f, Pack(ss), j);
      if j < Width(f) && Bit(Pack(ss), j + Shift(f)) {
        var i := PackBitSource(ss, j + Shift(f));
        TermBit(ss[i], j + Shift(f));
        FieldsDisjoint(f, ss[i].field, j + Shift(f));
      }
    }
    ZeroIffNoBits(Get(f, Pack(ss)));
  }

  /** OR-ing in the term of another field of the same byte leaves a field
      exactly as it was. */
  lemma OrTermKeepsOtherField(x: nat, s: Setting, f: Field)
    requires f != s.field && HalfOf(f) == HalfOf(s.field)
    ensures Get(f, Or(x, Term(s))) == Get(f, x)
  {
    forall j: nat
      ensures Bit(Get(f, Or(x, Term(s))), j) == Bit(Get(f, x), j)
    {
      GetBit(f, Or(x, Term(s)), j);
      GetBit(f, x, j);
      OrBit(x, Term(s), j + Shift(f));
      TermBit(s, j + Shift(f));
      if j < Width(f) && InField(s.field, j + Shift(f)) {
        FieldsDisjoint(f, s.field, j + Shift(f));
      }
    }
    BitExtensionality(Get(f, Or(x, Term(s))), Get(f, x));
  }

  /** Appending a setting ORs its term onto the composition. */
  lemma PackSnoc(ss: seq<Setting>, s: Setting)
    ensures Pack(ss + [s]) == Or(Pack(ss), Term(s))
    ensures Sum(ss + [s]) == Sum(ss) + s.value * Pow2(Shift(s.field))
  {
    assert (ss + [s])[..|ss|] == ss;
  }

  /** The masks of each byte cover it: OR-ing them, in the script's order,
      gives 0xFF. Together with MasksDisjoint the masks partition the byte. */
  lemma MasksCover()
    ensures Or(Or(Or(Mask(Os), Mask(Mux)), Mask(Pga)), Mask(Mode)) == 0xFF
    ensures Or(Or(Or(Or(Mask(Dr), Mask(CompMode)), Mask(CompPol)), Mask(CompLat)), Mask(CompQue)) == 0xFF
  {
    HighMasksCover();
    LowMasksCover();
  }

  lemma HighMasksCover()
    ensures Or(Or(Or(Mask(Os), Mask(Mux)), Mask(Pga)), Mask(Mode)) == 0xFF
  {
    var os, mux, pga, mode := Mask(Os), Mask(Mux), Mask(Pga), Mask(Mode);
    MasksDisjoint(Os, Mux);
    MasksDisjoint(Os, Pga);
    MasksDisjoint(Mux, Pga);
    MasksDisjoint(Os, Mode);
    MasksDisjoint(Mux, Mode);
    MasksDisjoint(Pga, Mode);
    var x1 := Or(os, mux);
    OrOfDisjointIsSum(os, mux);
    AndOrZero(os, mux, pga);
    var x2 := Or(x1, pga);
    OrOfDisjointIsSum(x1, pga);
    AndOrZero(os, mux, mode);
    AndOrZero(x1, pga, mode);
    OrOfDisjointIsSum(x2, mode);
  }

  lemma LowMasksCover()
    ensures Or(Or(Or(Or(Mask(Dr), Mask(CompMode)), Mask(CompPol)), Mask(CompLat)), Mask(CompQue)) == 0xFF
  {
    var dr, cm, cp, cl, cq := Mask(Dr), Mask(CompMode), Mask(CompPol), Mask(CompLat), Mask(CompQue);
    MasksDisjoint(Dr, CompMode);
    MasksDisjoint(Dr, CompPol);
    MasksDisjoint(Dr, CompLat);
    MasksDisjoint(Dr, CompQue);
    MasksDisjoint(CompMode, CompPol);
    MasksDisjoint(CompMode, CompLat);
    MasksDisjoint(CompMode, CompQue);
    MasksDisjoint(CompPol, CompLat);
    MasksDisjoint(CompPol, CompQue);
    MasksDisjoint(CompLat, CompQue);
    var x1 := Or(dr, cm);
    OrOfDisjointIsSum(dr, cm);
    AndOrZero(dr, cm, cp);
    var x2 := Or(x1, cp);
    OrOfDisjointIsSum(x1, cp);
    AndOrZero(dr, cm, cl);
    AndOrZero(x1, cp, cl);
    var x3 := Or(x2, cl);
    OrOfDisjointIsSum(x2, cl);
    AndOrZero(dr, cm, cq);
    AndOrZero(x1, cp, cq);
    AndOrZero(x2, cl, cq);
    OrOfDisjointIsSum(x3, cq);
  }
}
