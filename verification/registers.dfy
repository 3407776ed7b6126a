/**
 The ADS1015 pointer register. Every I2C register access first sends a
 pointer byte whose bits 1..0 select one of four registers; bits 7..2 are
 reserved and are to be written as zero. The datasheet does not say what
 the converter does with a pointer byte that sets a reserved bit. The
 script names four pointer constants; the two threshold ones set reserved
 bit 4.
 */
module Registers {

  datatype Register = ConversionReg | ConfigReg | LoThreshReg | HiThreshReg

  /** How the datasheet's pointer map classifies a pointer byte: the register
      it selects, or outside the two-bit map when a reserved bit is set (the
      converter's behaviour for such a byte is unspecified). */
  datatype Selection = Selects(register: Register) | OutsidePointerMap

  /** The pointer byte that selects each register. */
  function PointerOf(r: Register): (p: nat)
    ensures p < 4
  {
    match r
    case ConversionReg => 0x00
    case ConfigReg => 0x01
    case LoThreshReg => 0x02
    case HiThreshReg => 0x03
  }

  /** The register a pointer byte selects under the datasheet's map. */
  function SelectedBy(p: nat): (s: Selection)
    ensures s.OutsidePointerMap? <==> p >= 4
  {
    if p == 0 then Selects(ConversionReg)
    else if p == 1 then Selects(ConfigReg)
    else if p == 2 then Selects(LoThreshReg)
    else if p == 3 then Selects(HiThreshReg)
    else OutsidePointerMap
  }

  /** PointerOf and SelectedBy are inverse: each register has exactly one
      valid pointer byte. */
  lemma PointerSelects(r: Register, p: nat)
    ensures SelectedBy(PointerOf(r)) == Selects(r)
    ensures SelectedBy(p) == Selects(r) <==> p == PointerOf(r)
  {
  }

  /** The script's constants, as written. */
  const ScriptSamplePointer: nat := 0x00
  const ScriptConfigPointer: nat := 0x01
  const ScriptThresholdLowPointer: nat := 0x10
  const ScriptThresholdHighPointer: nat := 0x11

  /** The sample and configuration pointers select the conversion and
      configuration registers; the two threshold constants, read as
      hexadecimal sixteen and seventeen, set reserved bit 4 and so fall
      outside the pointer map. */
  lemma ScriptPointersAsWritten()
    ensures SelectedBy(ScriptSamplePointer) == Selects(ConversionReg)
    ensures SelectedBy(ScriptConfigPointer) == Selects(ConfigReg)
    ensures SelectedBy(ScriptThresholdLowPointer) == OutsidePointerMap
    ensures SelectedBy(ScriptThresholdHighPointer) == OutsidePointerMap
  {
  }

  /** The threshold pointers as the binary digits 10 and 11 they were
      evidently meant to be. */
  const CorrectedThresholdLowPointer: nat := 2  // binary 10
  const CorrectedThresholdHighPointer: nat := 3  // binary 11

  /** With the corrected constants all four pointers select the register
      they are named after. */
  lemma CorrectedPointersSelect()
    ensures SelectedBy(ScriptSamplePointer) == Selects(ConversionReg)
    ensures SelectedBy(ScriptConfigPointer) == Selects(ConfigReg)
    ensures SelectedBy(CorrectedThresholdLowPointer) == Selects(LoThreshReg)
    ensures SelectedBy(CorrectedThresholdHighPointer) == Selects(HiThreshReg)
  {
  }
}
