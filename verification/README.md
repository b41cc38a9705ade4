# AD7190 driver model

A Dafny model of the generic AD7190 driver (`src/hardware/ad7190_generic/AD7190.c`).
The AD7190 is a 24-bit sigma-delta converter on a serial bus. The driver
frames register reads and writes, updates configuration fields by
read-modify-write, starts conversions while holding chip select low,
averages or packs the samples it reads, and converts a temperature-sensor
reading to degrees Celsius.

The model has these parts:

- `Bits`: unbounded-integer arithmetic for powers of two, division and
  remainder facts, and bitwise OR defined on naturals.
- `Fields`: a bit field of a register word and the masked update
  `(w & ~FIELD(all ones)) | FIELD(x)`. The update stores `x` reduced to the
  field width and changes no other bit.
- `RegisterMap`: the register addresses, field positions and mode codes
  of the AD7190 register map. The fields of each layout are proved
  pairwise disjoint.
- `Codec`: command bytes, the big-endian write frame, the read request
  and the decoding of a reply. It includes the driver's own write and
  read loops and round-trip lemmas in both directions.
- `Bus`: a routine is a function from the bytes the converter answers
  with to a `Run`. A `Run` holds the routine's return value, its trace
  of bus events (chip select low and high, write and read transfers,
  waits for the ready line, delays and tick-counter reads), and the
  unread reply bytes. A chip-select state machine (`Replay`) says when a
  trace keeps the discipline: transfers with selector `SLAVE_ID` manage
  chip select themselves, and transfers with selector 0 need it held low.
- `Packing`: the 7-bit packing of the continuous reads, its decoding,
  and the packing of a sequence of values.
- `Configuration`: reset, identity check, power mode, channel selection,
  input range and calibration.
- `Conversion`: the ready-line wait, single and continuous conversions,
  the averaged, packed and time-stamped continuous reads, and the
  temperature reading.

Integer widths are explicit. The 32-bit accumulator of the averaging read
(`Add32`), the 64-bit tick subtraction (`Elapsed`), and the 32-bit
subtractions and byte truncation of the temperature formula
(`TemperatureCode`) are written as remainders. The model proves when
each wrap-around takes effect and when it does not.

Two details of the source that shape the model:

- The reset transfer is the byte 0x01 followed by six 0xFF bytes
  (`AD7190.c` lines 148-154). Taken most significant byte and bit first,
  that is 7 zero bits and then 49 one bits, which contains the 40
  consecutive ones the converter needs to reset (`Configuration.Reset`).
- The temperature reading passes polarity 0 to the range setup
  (`AD7190.c` line 403), and the range routine's own documentation says
  0 selects bipolar operation (lines 239-241), so the temperature reading
  configures a bipolar range with gain 1.

## Model

| member | source | states |
|---|---|---|
| Codec.WriteCommand | src/hardware/ad7190_generic/AD7190.c:69-70 | The write command byte carries the register address in bits 3 to 5 and has the read bit and the three low bits clear |
| Codec.ReadCommand | src/hardware/ad7190_generic/AD7190.c:97-98 | The read command byte carries the register address in bits 3 to 5 and has the read bit set |
| Codec.BigEndian | src/hardware/ad7190_generic/AD7190.c:100-103 | A reply of `n` bytes read most significant first is a value below 256^n |
| Codec.BigEndianBytesAt | src/hardware/ad7190_generic/AD7190.c:71-76 | Byte `i` of the `n`-byte big-endian encoding is byte `n-1-i` of the value counted from the least significant end, which is how the reverse-index loop places the little-endian bytes of the value |
| Codec.DecodeEncode | src/hardware/ad7190_generic/AD7190.c:71-76 | Decoding the `n`-byte encoding of any value gives back the value modulo 256^n |
| Codec.EncodeDecode | src/hardware/ad7190_generic/AD7190.c:100-103 | Encoding the decoded value of a reply, to the same width, gives back exactly the reply bytes |
| Codec.WriteFrame | src/hardware/ad7190_generic/AD7190.c:65-77 | A write frame has `n+1` bytes: the write command, then byte `i` equal to byte `n-i` of the value, so the payload decodes to the value modulo 256^n |
| Codec.BuildWriteFrame | src/hardware/ad7190_generic/AD7190.c:65-76 | The driver's loop, storing the value's bytes from the lowest address into the frame from the end down, builds exactly the big-endian write frame |
| Codec.AssembleReply | src/hardware/ad7190_generic/AD7190.c:93-105 | The driver's shift-and-add loop over a 32-bit buffer yields the big-endian value of reply bytes 1 to n; the shift never wraps for up to four bytes |
| Bus.SetRegisterValue | src/hardware/ad7190_generic/AD7190.c:60-78 | One write transfer through selector `SLAVE_ID * modifyCS`, addressed to the register, whose payload the converter decodes as the value modulo 256^n |
| Bus.GetRegisterValue | src/hardware/ad7190_generic/AD7190.c:89-106 | One read transfer that consumes `n+1` reply bytes and ignores the first; the value is below 256^n and its `n`-byte encoding is exactly reply bytes 1 to n |
| Bus.WriteThenRead | src/hardware/ad7190_generic/AD7190.c:60-106 | A register that answers with the bytes last written to it reads back the written value modulo 256^n, for any chip-select choice on either side |
| Bus.BracketedIsBalanced | src/hardware/ad7190_generic/AD7190.c:274-278 | One chip-select lowering, transfers that leave chip select alone and waits, then one raising: the discipline holds and chip select ends released |
| Bus.SelfManagedIsBalanced | src/hardware/ad7190_generic/AD7190.c:77 | Transfers that each lower and raise chip select themselves keep the discipline |
| Bus.BalancedAppend | src/hardware/ad7190_generic/AD7190.c:403-405 | Routines that each keep the chip-select discipline keep it when run one after another |
| Bus.ManagedThenBracketed | src/hardware/ad7190_generic/AD7190.c:226-233 | Self-managed transfers followed by a bracketed sequence keep the discipline |
| Fields.Decompose | src/hardware/ad7190_generic/AD7190.c:208 | Every word splits into the bits above, inside and below a field, each within its range |
| Fields.DecomposeUnique | src/hardware/ad7190_generic/AD7190.c:208 | The split is unique: any three digits in those ranges that make up the word are its bits above, inside and below the field |
| Fields.UpdateTheorem | src/hardware/ad7190_generic/AD7190.c:208-209 | The masked update clears the field and adds the placed value; the field then holds the value reduced to its width, and the bits above and below are unchanged |
| Fields.UpdateUntouched | src/hardware/ad7190_generic/AD7190.c:173-176 | A masked update changes no bit outside its field |
| Fields.DisjointFieldUnchanged | src/hardware/ad7190_generic/AD7190.c:228-229 | A masked update leaves every field disjoint from it unchanged |
| Fields.UpdateThree | src/hardware/ad7190_generic/AD7190.c:253-259 | Three updates of pairwise disjoint fields in a row leave each field holding its own value |
| Fields.OrIntoFreshField | src/hardware/ad7190_generic/AD7190.c:323-331 | ORing a field into a word built from other, disjoint fields adds it, stores the value and keeps every earlier field |
| Fields.UpdateBound | src/hardware/ad7190_generic/AD7190.c:209-210 | An update of a field inside a `k`-bit word stays a `k`-bit word |
| Configuration.Reset | src/hardware/ad7190_generic/AD7190.c:144-156 | The reset transfer is seven bytes through the self-managing selector; the frame's bits, most significant byte and bit first, are 7 zeros and then 49 ones |
| Configuration.ResetFrameBits | src/hardware/ad7190_generic/AD7190.c:148-154 | The bits of 0x01 followed by six 0xFF, sent most significant first, are 7 zeros and then 49 ones |
| Configuration.Init | src/hardware/ad7190_generic/AD7190.c:113-137 | Reset, a 1 ms delay, then a one-byte read of the ID register; the status is 1 exactly when the byte read is 0xA6, with no mask, and 0 otherwise; every transfer manages chip select |
| Configuration.InitBalanced | src/hardware/ad7190_generic/AD7190.c:119-122 | Initialisation leaves chip select released |
| Configuration.RewriteWord | src/hardware/ad7190_generic/AD7190.c:208-210 | A masked update of a 24-bit word is a 24-bit word that holds the new field and differs from the old word only in that field |
| Configuration.FieldRewrite | src/hardware/ad7190_generic/AD7190.c:228-231 | The write of a masked update sends three bytes to the register; the converter decodes a word holding the new field and every other bit as read |
| Configuration.UpdateRegister | src/hardware/ad7190_generic/AD7190.c:172-177 | A read-modify-write of one field: read the three register bytes, then write back a word whose field holds the new value and whose other bits are as read |
| Configuration.PowerSelectionCode | src/hardware/ad7190_generic/AD7190.c:175-176 | The OR of `pwrMode * IDLE` and `!pwrMode * PWRDN`, reduced to the three-bit field is power-down for 0, idle for 1 and the low bits of `2 * pwrMode` otherwise |
| Configuration.SetPower | src/hardware/ad7190_generic/AD7190.c:167-178 | The mode register is rewritten with the mode-select field set to power-down (0) or idle (1) and every other bit as read |
| Configuration.SetPowerBalanced | src/hardware/ad7190_generic/AD7190.c:172-177 | Setting the power mode leaves chip select released |
| Configuration.ChannelMaskInField | src/hardware/ad7190_generic/AD7190.c:209 | `1 << channel` in the 8-bit channel field is one-hot at bit `channel` for channels 0 to 7 and zero for channels 8 to 31 |
| Configuration.ChannelSelect | src/hardware/ad7190_generic/AD7190.c:202-211 | The configuration register is rewritten with only the requested channel enabled (none for channels 8 to 31) and every bit outside the channel field as read |
| Configuration.ChannelSelectBalanced | src/hardware/ad7190_generic/AD7190.c:207-210 | Selecting a channel leaves chip select released |
| Configuration.RangeWordBound | src/hardware/ad7190_generic/AD7190.c:249-259 | The range word built from a 24-bit register value fits the 32-bit variable holding it |
| Configuration.RangeCleared | src/hardware/ad7190_generic/AD7190.c:253-255 | Clearing the polarity, gain and chop bits is updating each of them with zero, and all three then read zero |
| Configuration.RangeWordIsUpdates | src/hardware/ad7190_generic/AD7190.c:253-259 | For polarity and chop of 0 or 1, the cleared-then-ORed range word is three masked updates: polarity, gain, chop |
| Configuration.RangeWordFields | src/hardware/ad7190_generic/AD7190.c:253-259 | The range word holds the polarity, the gain code reduced to three bits and the chop flag, and every other bit of the word read |
| Configuration.RangeRewrite | src/hardware/ad7190_generic/AD7190.c:253-260 | The range write sends three bytes to the configuration register; for polarity and chop of 0 or 1 the word holds the three requested fields and every other bit as read |
| Configuration.RangeSetup | src/hardware/ad7190_generic/AD7190.c:247-261 | A read-modify-write of the configuration register whose written word holds the requested polarity, gain and chop and otherwise the word read |
| Configuration.RangeSetupBalanced | src/hardware/ad7190_generic/AD7190.c:252-260 | Setting the range leaves chip select released |
| Configuration.CalibrationCycle | src/hardware/ad7190_generic/AD7190.c:227-233 | Read the mode register, lower chip select, write the mode word with only the mode-select field changed, wait for ready, raise chip select |
| Configuration.Calibrate | src/hardware/ad7190_generic/AD7190.c:221-234 | A calibration is a channel selection followed by a calibration cycle on the next reply bytes |
| Configuration.CalibrateWritesMode | src/hardware/ad7190_generic/AD7190.c:226-233 | The calibration's mode write goes out with chip select held, sets mode select to the calibration mode reduced to three bits and keeps every other bit of the mode word read |
| Configuration.CalibrationCycleBracketed | src/hardware/ad7190_generic/AD7190.c:227-233 | The mode read manages chip select itself; the mode write and the wait run between exactly one lowering and one raising |
| Configuration.CalibrateBalanced | src/hardware/ad7190_generic/AD7190.c:226-233 | The calibration's first three transfers manage chip select, the rest is bracketed by one lowering and one raising, and chip select ends released |
| Conversion.WaitRdyGoLow | src/hardware/ad7190_generic/AD7190.c:185-193 | The wait polls the ready line between 1 and 2^20 times; every poll but the last saw it high, and the last saw it low unless the counter ran out |
| Conversion.ModeCommandFields | src/hardware/ad7190_generic/AD7190.c:273 | The conversion mode word is the mode in bits 21 to 23, the external clock in bits 18 and 19 and the rate in bits 0 to 9, and no other bit |
| Conversion.FlagStep | src/hardware/ad7190_generic/AD7190.c:326-331 | ORing a one-bit flag into a word where it is clear, when asked to, sets it exactly when asked and changes nothing else |
| Conversion.StartCommandFields | src/hardware/ad7190_generic/AD7190.c:323-331 | The start word is continuous mode, the clock and the rate, with the sinc3, 60 Hz rejection and single-cycle bits set exactly when the matching argument is non-zero, and no other bit |
| Conversion.ModeWrite | src/hardware/ad7190_generic/AD7190.c:273-275 | The conversion mode write sends three bytes to the mode register, with chip select held by the caller, and the converter decodes the mode word |
| Conversion.StartWrite | src/hardware/ad7190_generic/AD7190.c:323-333 | The start write sends three bytes to the mode register, with chip select held by the caller, and the converter decodes the start word |
| Conversion.ContinuousConvStart | src/hardware/ad7190_generic/AD7190.c:315-335 | Start is chip select low, one mode write of the start word (no register read), chip select high |
| Conversion.Sample | src/hardware/ad7190_generic/AD7190.c:277 | A data-register sample is a 24-bit value |
| Conversion.DataReadIsSample | src/hardware/ad7190_generic/AD7190.c:302 | A three-byte data read with chip select held consumes four reply bytes and yields the corresponding sample |
| Conversion.HeldConversion | src/hardware/ad7190_generic/AD7190.c:274-278 | A write and a read that leave chip select alone, with a wait between them, are bracketed by one lowering and one raising |
| Conversion.SingleConversion | src/hardware/ad7190_generic/AD7190.c:268-281 | Chip select low, the single-conversion mode word written, wait, one data read, chip select high; the result is the sample read |
| Conversion.AccumulatorFits | src/hardware/ad7190_generic/AD7190.c:302 | Up to 255 samples of 24 bits sum to less than 2^32 |
| Conversion.AccumulatorStep | src/hardware/ad7190_generic/AD7190.c:299-303 | One pass of the averaging loop adds the next sample to the running sum, which stays below 2^32 |
| Conversion.Add32 | src/hardware/ad7190_generic/AD7190.c:302 | The 32-bit accumulator's addition is exact whenever the sum fits |
| Conversion.AccumulateSamples | src/hardware/ad7190_generic/AD7190.c:299-303 | The averaging loop's 32-bit total is the exact sum of the `n` samples, and it appends a wait and a held data read per sample |
| Conversion.CloseAveraging | src/hardware/ad7190_generic/AD7190.c:297-304 | The mode write and the sampling passes, closed by raising chip select, form one bracketed sequence |
| Conversion.AverageWithin | src/hardware/ad7190_generic/AD7190.c:305 | The truncated average of values in `[lo, hi]` lies in `[lo, hi]`, so the average is at most the largest sample |
| Conversion.ContinuousReadAvg | src/hardware/ad7190_generic/AD7190.c:288-308 | Chip select low, the continuous mode word written, `n` waits and data reads, chip select high; the result is the floor of the sum of the `n` samples divided by `n` |
| Conversion.PackStep | src/hardware/ad7190_generic/AD7190.c:352-355 | One pass of the packing loop appends the next sample's four-byte group |
| Conversion.PackedSamples | src/hardware/ad7190_generic/AD7190.c:348-356 | Every four-byte group of the packed buffer is well formed and unpacks to the sample it was made from |
| Conversion.PackedSampleLeads | src/hardware/ad7190_generic/AD7190.c:352 | The first byte of every sample's group is below 64, because samples are 24-bit reads |
| Conversion.ContinuousConvRead | src/hardware/ad7190_generic/AD7190.c:342-358 | Chip select low, `n` waits and data reads, chip select high; the buffer is `4n` bytes, the packings of the samples in order, each group unpacking to its sample |
| Conversion.ElapsedSince | src/hardware/ad7190_generic/AD7190.c:379 | A tick reading at or after the start gives the plain difference |
| Conversion.ElapsedAcrossWrap | src/hardware/ad7190_generic/AD7190.c:379 | A tick reading below the start (the counter wrapped) gives the difference plus 2^64 |
| Conversion.ElapsedMonotone | src/hardware/ad7190_generic/AD7190.c:379 | Later tick readings give later time stamps while the counter has not wrapped since the start |
| Conversion.StampedValues | src/hardware/ad7190_generic/AD7190.c:376-389 | The values the time-stamped loop packs alternate: the ticks elapsed at pass `k`, then the sample of pass `k` |
| Conversion.StampStep | src/hardware/ad7190_generic/AD7190.c:380-388 | One pass appends the group of its time stamp and then the group of its sample |
| Conversion.StampedGroups | src/hardware/ad7190_generic/AD7190.c:380-388 | Every pair of groups unpacks to the low 25 bits of its time stamp and to its sample |
| Conversion.StartEvents | src/hardware/ad7190_generic/AD7190.c:372-374 | The opening tick-counter read happens only when the start flag is set and involves no chip select |
| Conversion.FinishStamping | src/hardware/ad7190_generic/AD7190.c:375-390 | The opening read followed by the closed loop keeps the opening read in front of one bracketed sequence of passes |
| Conversion.ContinuousConvReadAddTimestamp | src/hardware/ad7190_generic/AD7190.c:365-391 | The start time is a fresh reading when the flag is set and the kept one otherwise; the buffer packs, per pass, the ticks since the start and then the sample; each pass waits, reads the ticks, then reads the data, all with chip select held once |
| Conversion.LowByteOfWrapped | src/hardware/ad7190_generic/AD7190.c:406-409 | Wrapping to 32 bits before keeping the low byte does not change the low byte, also for negative intermediate values |
| Conversion.TemperatureCodeIsCelsius | src/hardware/ad7190_generic/AD7190.c:406-409 | For every 24-bit reading at or above mid-scale, the returned byte is the Celsius temperature modulo 256 |
| Conversion.TemperatureAsSignedByte | src/hardware/ad7190_generic/AD7190.c:406-409 | Temperatures from -128 to 127 degrees come back as their two's-complement byte |
| Conversion.TemperatureRead | src/hardware/ad7190_generic/AD7190.c:398-412 | A bipolar gain-1 range setup, selection of the temperature-sensor channel and one single conversion, in that order; the result is the driver's conversion of that sample |
| Conversion.TemperatureReadBalanced | src/hardware/ad7190_generic/AD7190.c:403-405 | The temperature reading leaves chip select released |
| Packing.Pack | src/hardware/ad7190_generic/AD7190.c:352-355 | The four 7-bit bytes of a value form a well-formed group that unpacks to the value's low 25 bits |
| Packing.UnpackPack | src/hardware/ad7190_generic/AD7190.c:352-355 | A group encodes every bit of the value below bit 25 |
| Packing.PackShape | src/hardware/ad7190_generic/AD7190.c:352-355 | Every packed byte is below 128, and the top bit of each of the last three repeats the lowest bit of the byte before |
| Packing.PackUnpack | src/hardware/ad7190_generic/AD7190.c:352-355 | Every well-formed group is the packing of the value it stands for |
| Packing.PackedBytes | src/hardware/ad7190_generic/AD7190.c:352-355 | The four 7-bit slices of a well-formed group's value are the group's own bytes |
| Packing.PackLeadByte | src/hardware/ad7190_generic/AD7190.c:352 | The first packed byte of a 24-bit value is below 64 |
| Packing.PackAll | src/hardware/ad7190_generic/AD7190.c:348-356 | Packing a sequence of values gives four bytes per value, group `k` being the packing of value `k` |
| Packing.PackAllAppend | src/hardware/ad7190_generic/AD7190.c:348-356 | Packing one more value appends its group |
| Packing.UnpackAll | src/hardware/ad7190_generic/AD7190.c:352-355 | Unpacking group `k` of a packed sequence gives back value `k` whenever it is below 2^25, in particular every 24-bit sample |

## Left out

- Serial transport: `SPI_Write` and `SPI_Read` are trace events carrying the selector and the bytes; what goes on the wire beyond that is not modelled.
- The converter's answers are free inputs (`replies`): any byte sequence is a possible answer, and nothing is assumed about how the converter behaves.
- The ready-line wait appears in traces as one `WaitReady` event. `Conversion.WaitRdyGoLow` models the polling loop on its own, with the pin levels as a function parameter.
- `TIME_DelayMs` is a `Delay` event and `printf` is not modelled; both are foreign services.
- The tick counter `hal_read_TickCounter` is a foreign service. Its readings are parameters: one for the optional opening read and one per loop pass.
- The `static` start time of the time-stamped read is passed in and returned (`Stamped.startTimer`), since a pure model keeps no state between calls.
- The register header AD7190.h is not part of this model. The field macros, register addresses and mode codes take the values of the AD7190 data sheet register map, and their disjointness is proved rather than assumed.
- Host endianness: `SetRegisterValue` reads the value's bytes straight from its memory. The model takes a little-endian host with a 32-bit `unsigned long`.
- Configuration.ChannelSelect: requires a channel below 32. The C computes `1 << channel` on a 32-bit `int`, and that shift is undefined for channel 31 and above. Channel 31 is taken with the usual two's-complement result 0x80000000, whose low byte is 0, which is what `ChannelMask` gives; channels 32 and above are left out.
- Configuration.Calibrate: requires a channel below 32 for the same reason. Its contract states the order of the two phases; the field facts of the mode write are stated by `Configuration.CalibrateWritesMode`, and chip select by `Configuration.CalibrateBalanced`.
- Configuration.RangeSetup: the field facts are stated only for polarity and chop of 0 or 1. Larger values are multiplied into the word and spill into other bits, which the contract does not characterise.
- Conversion.ContinuousReadAvg: requires at least one sample, since the C divides by the sample count.
- Conversion.ContinuousConvReadAddTimestamp: only the low 25 bits of a time stamp can be recovered from its group (`Conversion.StampedGroups`); the packing drops the rest.
- Conversion.TemperatureCodeIsCelsius: characterises readings at or above mid-scale only. Below mid-scale the 32-bit wrap of the first subtraction gives a large quotient that the contract does not describe.
- Chip-select balance of each routine is stated by separate lemmas (the `…Balanced` and `…Bracketed` members) rather than in the routines' own contracts.
- The physical meaning of calibration and conversion is converter behaviour, not driver behaviour, and is not modelled.
