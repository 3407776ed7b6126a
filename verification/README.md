# ADS1015 voltage monitor, modelled in Dafny

`voltage_monitor.py` reads a DC rail voltage through a TI ADS1015 12-bit
analog-to-digital converter on I2C and publishes it over MQTT. This project
models the part of the script that does arithmetic and bit manipulation:

- **Config register.** At start-up the script writes a two-byte value to
  the converter's CONFIG register. It builds each byte by masking shifted
  field values with the field masks and OR-ing the results. The model
  covers the nine field masks, a general encoding and decoding of all nine
  fields, and the two bytes the script actually writes (0x42 and 0x83).
  It also proves what those bytes mean under the ADS1015 datasheet tables.
- **Sample conversion (`read_v`).** The two conversion-register bytes are
  combined into a 12-bit code, read as a two's complement count, and
  scaled at 2 mV per count. The model keeps voltages in whole millivolts.
- **Register pointers.** These are the four pointer constants the script
  declares, and the registers they select.

Modules:

- `Bits`: Python's `&`, `|`, `<<` and `>>` on non-negative integers, defined
  bit by bit. The module proves they agree with multiplication and
  division by powers of two, and with sums when the operands share no bit.
- `ConfigRegister`: the field masks, each field's datasheet position and
  width, mask-and-OR composition (`Pack`) and field read-back
  (`Get`, meaning `(x & mask) >> shift`).
- `DeviceConfig`: a `Config` record of the nine fields, `Encode`/`Decode`
  against the two-byte `Word`, the script's bytes, and the datasheet
  meaning of field values.
- `TwosComplement`: `twos_comp` and its inverse, wrapping into a bit width.
- `Conversion`: the `read_v` pipeline from bytes to millivolts, and its
  inverse from a count to the bytes the converter stores.
- `Registers`: pointer bytes and the registers they select.

## Model

| member | source | states |
|---|---|---|
| ConfigRegister.MaskLayout | voltage_monitor.py:36-45 | each mask is a run of ones as wide as its field, at the field's datasheet bit position |
| ConfigRegister.MasksDisjoint | voltage_monitor.py:36-45 | no two field masks share a bit |
| ConfigRegister.MasksCover | voltage_monitor.py:36-45 | the OR of the four high-byte masks is 0xFF, and so is the OR of the five low-byte masks |
| ConfigRegister.TermInsideMask | voltage_monitor.py:90-97 | a term `mask & (value << shift)` has no bit outside its own mask and shares no bit with the mask of any other field of its byte |
| ConfigRegister.GetPack | voltage_monitor.py:90-97 | a byte built by mask-and-OR from distinct fields reads back each field as its value truncated to the field width |
| ConfigRegister.GetPackUnset | voltage_monitor.py:90-97 | a field left out of the mask-and-OR reads back as 0 |
| ConfigRegister.OrTermKeepsOtherField | voltage_monitor.py:90-97 | OR-ing one masked term into a byte leaves every other field's value unchanged |
| ConfigRegister.PackIsSum | voltage_monitor.py:90-97 | for values that fit, the OR of masked terms equals the sum of value times 2^shift |
| ConfigRegister.PackIsByte | voltage_monitor.py:90-97 | a mask-and-OR composition of one byte's fields is below 256 |
| DeviceConfig.Encode | voltage_monitor.py:90-97 | every field of the encoded word reads back as the configured value, cut to the field's width |
| DeviceConfig.DecodeEncode | voltage_monitor.py:90-97 | decoding an encoded configuration gives it back when every value fits its field |
| DeviceConfig.EncodeDecode | voltage_monitor.py:90-97 | every pair of bytes is the encoding of what it decodes to, so no bit lies outside a field |
| DeviceConfig.ReadBackDeterminesWord | voltage_monitor.py:90-97 | bytes whose fields read back as a configuration's values are exactly that configuration's encoding |
| DeviceConfig.ScriptHighByte | voltage_monitor.py:86-90 | the script's high-byte expression evaluates to 0x42 |
| DeviceConfig.ScriptLowByte | voltage_monitor.py:91-97 | the script's low-byte expression evaluates to 0x83 |
| DeviceConfig.ScriptHighPack | voltage_monitor.py:90 | the high byte is the composition of the MODE 0, MUX 4 and PGA 1 terms |
| DeviceConfig.ScriptLowPack | voltage_monitor.py:97 | the low byte is the composition of the DR 4 and COMP_QUE 3 terms |
| DeviceConfig.ScriptHighReadBack | voltage_monitor.py:86-90 | the high byte reads back MUX 4, PGA 1, MODE 0 and OS 0 |
| DeviceConfig.ScriptLowReadBack | voltage_monitor.py:91-97 | the low byte reads back DR 4, COMP_QUE 3, and 0 for comparator mode, polarity and latch |
| DeviceConfig.ScriptHighBitsInMuxOrPga | voltage_monitor.py:90 | every bit set in the high byte lies inside the MUX or the PGA mask |
| DeviceConfig.ScriptBytesEncodeConfig | voltage_monitor.py:86-97 | the written bytes are exactly the encoding of the intended nine-field configuration, and decode to it |
| DeviceConfig.ScriptConfigMeaning | voltage_monitor.py:86-97 | the intended configuration selects AIN0 against GND, +-4.096 V full scale (2000 uV per count), 1600 SPS, continuous mode and a disabled comparator |
| TwosComplement.TwosComp | voltage_monitor.py:48-51 | for every input, the result is the input when bit bits-1 is clear and the input minus 2^bits when it is set, so it is always congruent to the input modulo 2^bits; for a bits-wide input it lies in [-2^(bits-1), 2^(bits-1)), equal to the input below 2^(bits-1) and to the input minus 2^bits from there on |
| TwosComplement.TwosCompOfWrap | voltage_monitor.py:48-51 | every number representable in bits-wide two's complement is recovered from its bit pattern |
| TwosComplement.WrapOfTwosComp | voltage_monitor.py:48-51 | every bits-wide pattern is recovered from the number twos_comp reads from it |
| TwosComplement.TwelveBitBoundaries | voltage_monitor.py:64 | in 12 bits, 0x000 reads as 0, 0x7FF as 2047, 0x800 as -2048 and 0xFFF as -1 |
| Conversion.Code | voltage_monitor.py:56-60 | the combined code is the big-endian 16-bit register value shifted right by four, so it is below 4096 |
| Conversion.Counts | voltage_monitor.py:63-64 | the signed count lies in [-2048, 2047] and agrees with the 12-bit code modulo 4096 |
| Conversion.Millivolts | voltage_monitor.py:66-69 | the scaled reading lies in [-4096, 4094] mV and is a multiple of 2 mV |
| Conversion.CountsOfRegisterBytes | voltage_monitor.py:56-69 | the bytes the converter stores for any count in [-2048, 2047] read back as that count, at 2 mV per count |
| Conversion.RegisterBytesOfCounts | voltage_monitor.py:56-64 | re-encoding a decoded count restores the bytes except the low nibble of the second byte |
| Conversion.PaddingIgnored | voltage_monitor.py:57-60 | the low nibble of the second byte does not affect the reading |
| Conversion.SampleReadings | voltage_monitor.py:60-69 | 0x00 0x00 reads 0 mV; 0x08 0x00 reads 128 counts (256 mV); 0x7F 0xF0 reads 4094 mV; 0x80 0x00 reads -4096 mV; 0xFF 0xF0 reads -2 mV |
| Conversion.ScaleMatchesConfiguredGain | voltage_monitor.py:66-69 | the 2 mV per count scale is the LSB size of the PGA setting the script writes, which has a 4096 mV full scale |
| Registers.PointerSelects | voltage_monitor.py:29-33 | each register has exactly one pointer byte that selects it |
| Registers.ScriptPointersAsWritten | voltage_monitor.py:29-33 | the sample and config pointers select the conversion and config registers; 0x10 and 0x11 set reserved bit 4 and fall outside the datasheet's two-bit pointer map |
| Registers.CorrectedPointersSelect | voltage_monitor.py:29-33 | with 0b10 and 0b11, each of the four pointers selects the register it is named after |

## Left out

- I2C/SMBus traffic (`read_i2c_block_data`, `write_i2c_block_data`, bus setup, address 0x49). The model takes the two bytes read as inputs and returns the two bytes written as outputs.
- The CONFIG read-back before and after the write (lines 82-84 and 102-104). The script only prints these bytes and never compares them. `EncodeDecode` and `ScriptBytesEncodeConfig` state what a faithful read-back would show.
- MQTT publishing, Home Assistant discovery, the one-minute poll loop and its sleep. These are network and clock effects.
- The floating-point steps: the 0.002 scale as a float, the divider ratio 5.545 and any rounding applied before publishing. The model keeps exact integer millivolts at the converter input.
- TwosComplement.TwosComp: it takes non-negative inputs only. Python's `twos_comp` also accepts negative integers, but the script only passes it the OR of two non-negative shifts. `bits` must be at least 1, because Python raises an error for a negative shift count.
- Bits.And and Bits.Or: they are defined on non-negative integers only. Every operand in the script is non-negative.
- The datasheet tables (`MuxInput`, `FullScaleMillivolts`, `LsbMicrovolts`, `DataRateSps`) and the pointer map (`PointerOf`, `SelectedBy`) are transcribed from the ADS1015 datasheet, not from the script. For a pointer byte with a reserved bit set, `SelectedBy` answers `OutsidePointerMap`. That is a modelling convention: the datasheet only says reserved bits are written as zero, and the converter's behaviour for such a byte is not modelled.
- The script's comments agree with the datasheet tables, except the "PGA 2" label at line 89. The code writes PGA 1 (0b001), which is the +-4.096 V range that both the label's own text and the 2 mV scale assume. The model follows the code.

## Findings

| source | as written | input that shows it | evidently intended | confidence | as-written member | corrected member |
|---|---|---|---|---|---|---|
| voltage_monitor.py:32-33 | threshold register pointers `0x10` and `0x11` (hexadecimal 16 and 17) | pointer byte 0x10 sets reserved bit 4 of the ADS1015 pointer register, outside the two-bit pointer map 0 to 3; the datasheet does not say what the converter does with it | binary `0b10` (Lo_thresh) and `0b11` (Hi_thresh), in the same binary style as the masks | medium (the constants are never used by the script), not executed | Registers.ScriptPointersAsWritten | Registers.CorrectedPointersSelect |
