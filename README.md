# ENS160 driver in Dafny

This project models the MicroPython driver for the ScioSense ENS160
digital metal-oxide multi-gas sensor (`ens160sciosense.py`). It also models
the generic CRC-8 routine of the sensor package (`sensor_pack/crc_mod.py`).

What is modelled:

- **The vendor checksum** `Ens160._crc8` (module `Ens160Crc`). Each item is
  folded into `crc << 1`, then the polynomial is XOR-ed in once, guarded by
  bit 7 of the checksum before the shift. It is written as a recursive
  specification plus the source's loop as a method proved equal to it. The
  properties proved about it:
  - chaining over concatenations;
  - one-to-one behaviour of a step;
  - detection of every single-byte error for an odd polynomial;
  - a few fixed values.
- **The checked register read** `_read_register` with `_get_last_checksum`
  (module `Ens160Protocol`). With checking on, the driver:
  1. reads the checksum register 0x38 (`before`);
  2. reads the data;
  3. for a register in `[0, 0x38)`, computes the vendor CRC of the data seeded
     with `before`, reads 0x38 again (`after`) and fails on a mismatch.

  The bus adapter is a scripted object: a queue of replies plus a log of
  requests. `Ens160Protocol` states, as functions of the scripted replies,
  which requests each operation makes, how many replies it consumes and
  what it returns. `Ens160Driver` holds the classes `Bus` and `Ens160`. The
  scripted `Bus` methods state their effect on the queue and the log
  directly. The operation methods of `Ens160` perform the calls one at a
  time, as the Python does. Each of them is proved to agree with its
  `Ens160Protocol` function in three things: its outcome, the requests it
  appends to the log, and the replies it consumes.
- **The operations built on the read and the write** (value side in
  `Ens160Codec`): `set_mode`, `set_humidity`, `_exec_cmd`,
  `get_firmware_version` and `get_air_quality_index`.
- **The textbook bit-serial CRC-8** `crc8` of `sensor_pack/crc_mod.py`
  (module `CrcMod`). Its nested loop is a method proved against a recursive
  specification, and that specification is proved equal to a
  linear-feedback shift register fed one message bit at a time. The module
  also proves chaining, single-byte error detection and the two example
  vectors of its documentation (0x87 and 0x52, polynomial 0x31, initial
  value 0xFF).

Bytes are `bv8`. Python's `x & 0xFF` on an unbounded integer is
`Bits.Low`, the Euclidean remainder by 256. Errors that the Python raises
are values of `Ens160Codec.Error`:

- `IOError` for a bad CRC becomes `BadCrc`;
- `check_value`'s refusal becomes `InvalidValue`;
- an exhausted bus becomes `BusFailure`;
- `IndexError` on a short reply becomes `IndexOutOfRange`;
- `unpack` of a reply of the wrong size becomes `UnpackSize`.

Which registers the checked read compares: the code tests
`0 <= reg_addr < 0x38`. Every register outside that range gets `before`
read and no comparison: the command buffer 0x48 and negative addresses
included (`IsDataRegister`, `CheckedOtherRead`).

One place where the documentation and the code differ: the module
documentation of `crc_mod` gives the initial value 0xFF, but `crc8`
defaults `init_value` to 0x00. The model follows the code.
`CrcMod.DefaultInitialValue` shows that with the default, the first
documented example gives 0xCC rather than 0x87.

## Model

| member | source | states |
|---|---|---|
| Ens160Crc.Crc8 | ens160sciosense.py:16-27 | the vendor checksum of `sequence`, seeded with `init_value & 0xFF`; the empty input gives the masked seed |
| Ens160Crc.ComputeCrc8 | ens160sciosense.py:20-27 | the source's loop, updating `crc` in place, returns exactly `Crc8(sequence, polynomial, initValue)` |
| Ens160Crc.Step | ens160sciosense.py:22-26 | definition of one loop iteration: `(crc << 1) ^ item` truncated to 8 bits, XOR the polynomial when bit 7 of the previous crc is set; its properties are stated by `AppendOneByte` and the injectivity lemmas |
| Ens160Crc.Fold | ens160sciosense.py:21-26 | definition of the loop over the items from a given crc; its properties are stated by `FoldAppend`, `FoldInjectiveInCrc` and `FoldDetectsSingleByteError` |
| Ens160Crc.AppendOneByte | ens160sciosense.py:21-26 | the checksum of `prefix + [item]` is the checksum `c` of `prefix` shifted left by one and truncated, XOR the item, and XOR the polynomial exactly when bit 7 of `c` is set |
| Ens160Crc.FoldAppend | ens160sciosense.py:21-26 | running the loop over `a + b` is running it over `b` from the value reached after `a` |
| Ens160Crc.Chaining | ens160sciosense.py:16-27 | the checksum of a concatenation is the checksum of the second part seeded with the checksum of the first |
| Ens160Crc.StepInjectiveInCrc | ens160sciosense.py:22-26 | for an odd polynomial, two different previous checksums never give the same next checksum on the same item |
| Ens160Crc.StepInjectiveInItem | ens160sciosense.py:22-26 | two different items never give the same next checksum from the same previous checksum |
| Ens160Crc.FoldInjectiveInCrc | ens160sciosense.py:21-26 | for an odd polynomial, the loop over a fixed input is one-to-one in its starting value |
| Ens160Crc.FoldDetectsSingleByteError | ens160sciosense.py:21-26 | for an odd polynomial, two inputs that differ in exactly one byte end the loop in different values, from any start |
| Ens160Crc.SingleByteErrorDetected | ens160sciosense.py:16-27 | with an odd polynomial (0x1D is one), a single corrupted byte always changes the checksum, whatever the seed |
| Ens160Crc.DriverVectors | ens160sciosense.py:13-27 | fixed values with polynomial 0x1D: the empty input gives the seed; [0x00] from 0x80 gives 0x1D; [1, 2, 3] from 0 gives 0x03 |
| CrcComparison.DiffersFromTextbookCrc8 | ens160sciosense.py:16-27 | the vendor checksum and `crc_mod.crc8` disagree on the byte 0x01 with the same polynomial and seed (0x01 against 0x1D) |
| Ens160Protocol.LastChecksum | ens160sciosense.py:156-166 | one one-byte read of register 0x38; succeeds exactly when a non-empty reply is available, with its byte 0; an exhausted script is a bus failure consuming nothing; an empty reply is an index error after the reply was consumed |
| Ens160Protocol.IsDataRegister | ens160sciosense.py:43 | definition of the registers whose reads are compared: exactly those in [0, 0x38) |
| Ens160Protocol.ReadRegister | ens160sciosense.py:35-49 | the checked or unchecked read against the scripted replies: never consumes more replies than exist, makes one to three requests |
| Ens160Protocol.UncheckedReadPassesThrough | ens160sciosense.py:38-41 | without checking: one read of the register, the reply returned unchanged, never a checksum error |
| Ens160Protocol.CheckedDataRead | ens160sciosense.py:38-49 | with checking, for a register in [0, 0x38): requests 0x38, the register, 0x38; fails exactly when the CRC of the data seeded with `before` differs from `after`, with both values in the error; otherwise returns the data |
| Ens160Protocol.CheckedOtherRead | ens160sciosense.py:39-43 | with checking, for any other register: one read of 0x38, then the register, returned without comparison |
| Ens160Protocol.CheckedReadFailures | ens160sciosense.py:38-45 | with checking, an exhausted script or an empty checksum reply at any of the three reads ends the read with a bus failure or an index error, after exactly the requests made so far and consuming exactly the replies delivered |
| Ens160Protocol.BadCrcOnlyWhenChecked | ens160sciosense.py:42-47 | a CRC error arises only from a checked read of a data register, and carries the computed and the reported checksums, which differ |
| Ens160Protocol.CheckedReadIsVerified | ens160sciosense.py:42-49 | data a checked read of a data register returns has a CRC, seeded with `before`, equal to the `after` the chip reported |
| Ens160Protocol.CorruptedByteIsRefused | ens160sciosense.py:42-47 | when the chip reports the checksum of what it sent and one byte arrives corrupted, the checked read fails with a CRC error |
| Ens160Protocol.ConsecutiveReadsChain | ens160sciosense.py:38-49 | two successful checked reads in a row, the second seeded by the first's `after`: the final checksum is the CRC of both transfers concatenated |
| Ens160Protocol.SetMode | ens160sciosense.py:71-83 | succeeds exactly for the codes of the four modes, and then writes the code as one byte to register 0x10; an invalid mode writes nothing and names the value |
| Ens160Protocol.SetHumidity | ens160sciosense.py:121-125 | succeeds exactly for 0..100, and then writes exactly `rel_hum << 9` as one two-byte word to register 0x15, a word below 0x10000 from which the chip reads back the percentage; otherwise writes nothing and names the value |
| Ens160Protocol.ExecCommand | ens160sciosense.py:104-109 | an unknown command fails with no request; a known one writes it to 0x12 and then behaves as the read of the 8-byte buffer 0x48 |
| Ens160Protocol.GetFirmwareVersion | ens160sciosense.py:168-172 | makes the requests and consumes the replies of `_exec_cmd(0x0E)`; fails with its error, or decodes bytes 4..6 of its buffer; never consumes more replies than exist |
| Ens160Protocol.FirmwareVersionRead | ens160sciosense.py:168-172 | with checking off, the version takes the command write to 0x12 and one read of the 8-byte buffer 0x48, consumes one reply, and is bytes 4..6 of that reply |
| Ens160Protocol.FirmwareVersionNotCompared | ens160sciosense.py:104-109 | with checking on, the version takes the command write, one 0x38 read and the buffer read, and is decoded from the buffer without comparison because 0x48 is outside [0, 0x38) |
| Ens160Protocol.GetAirQualityIndex | ens160sciosense.py:134-139 | makes the requests and consumes the replies of `_read_register(0x21, 1)`; a failed read's error (a bad CRC included) reaches the caller unchanged, otherwise the result is the decoded reply, at most 7 |
| Ens160Protocol.AirQualityIndexRead | ens160sciosense.py:134-139 | unchecked (one read of 0x21), or checked with agreeing checksums (0x38, 0x21, 0x38), the result is the low three bits of the one reported byte; a reply of another size is an unpack error |
| Ens160Codec.CheckValue | ens160sciosense.py:82 | the membership test the driver applies before a write: succeeds exactly for the allowed values, returns the value, and otherwise names it in the error |
| Ens160Codec.ParseMode | ens160sciosense.py:71-81 | a code that parses names a mode whose code it is |
| Ens160Codec.ParseModeCode | ens160sciosense.py:75-81 | every mode's code parses back to that mode |
| Ens160Codec.ModeCodesAreModes | ens160sciosense.py:82 | the tuple `(0, 1, 2, 0xF0)` holds exactly the codes of the four modes |
| Ens160Codec.HumidityWord | ens160sciosense.py:124-125 | succeeds exactly for 0..100 (`range(101)`); the word `rel_hum << 9` fits in 16 bits |
| Ens160Codec.HumidityOfWord | ens160sciosense.py:122-125 | stands for the chip, not the driver: it reads the word as relative humidity in units of 1/512 %, so the result is the largest `h` with `512 * h <= word` |
| Ens160Codec.HumidityRoundTrip | ens160sciosense.py:125 | the written word has nine zero low bits and reads back, in units of 1/512 %, as the given percentage |
| Ens160Codec.HumidityWordInjective | ens160sciosense.py:125 | different percentages give different words |
| Ens160Codec.UnpackByte | ens160sciosense.py:139 | `unpack("B")` succeeds exactly on a one-byte reply and returns that byte |
| Ens160Codec.AirQualityIndex | ens160sciosense.py:139 | decoding succeeds exactly on a one-byte reply, and the index is at most 7 |
| Ens160Codec.AirQualityIndexOfIndex | ens160sciosense.py:139 | every value 0..7 comes through unchanged |
| Ens160Codec.AirQualityIndexIgnoresHighBits | ens160sciosense.py:139 | bytes that agree in their low three bits give the same index |
| Ens160Codec.FirmwareVersion | ens160sciosense.py:172 | succeeds exactly when the buffer has at least seven bytes; otherwise an index error |
| Ens160Codec.FirmwareVersionLayout | ens160sciosense.py:172 | a buffer with major, minor and release at offsets 4, 5, 6 decodes to exactly that version, whatever the other bytes |
| Ens160Driver.Bus.constructor | ens160sciosense.py:29 | a new adapter holds the given script of replies and an empty log |
| Ens160Driver.Bus.ReadRegister | ens160sciosense.py:41 | logs the read; answers with the next scripted reply and removes it, or fails when the script is exhausted |
| Ens160Driver.Bus.WriteRegister | ens160sciosense.py:55 | logs the write with its byte order; consumes no reply |
| Ens160Driver.Ens160.constructor | ens160sciosense.py:29-33 | keeps the adapter, the address (default 0x52) and `check_crc` (default on); address and `check_crc` stay reassignable fields |
| Ens160Driver.Ens160.GetLastChecksum | ens160sciosense.py:156-166 | agrees with `LastChecksum` in outcome, logged requests and consumed replies |
| Ens160Driver.Ens160.ReadRegister | ens160sciosense.py:35-49 | the step-by-step read, computing the CRC with the loop method, agrees with `Ens160Protocol.ReadRegister` in outcome, logged requests and consumed replies |
| Ens160Driver.Ens160.WriteRegister | ens160sciosense.py:51-55 | one write request to the adapter, in little-endian order; consumes no reply |
| Ens160Driver.Ens160.SetMode | ens160sciosense.py:71-83 | agrees with `Ens160Protocol.SetMode` in outcome and logged requests; consumes no reply |
| Ens160Driver.Ens160.SetHumidity | ens160sciosense.py:121-125 | agrees with `Ens160Protocol.SetHumidity` in outcome and logged requests; consumes no reply |
| Ens160Driver.Ens160.ExecCommand | ens160sciosense.py:104-109 | agrees with `Ens160Protocol.ExecCommand` in outcome, logged requests and consumed replies |
| Ens160Driver.Ens160.GetFirmwareVersion | ens160sciosense.py:168-172 | agrees with `Ens160Protocol.GetFirmwareVersion` in outcome, logged requests and consumed replies |
| Ens160Driver.Ens160.GetAirQualityIndex | ens160sciosense.py:134-139 | agrees with `Ens160Protocol.GetAirQualityIndex`, and a successful index is at most 7 |
| CrcMod.Shift | sensor_pack/crc_mod.py:22-25 | definition of one pass of the inner loop: shift left, XOR the polynomial when bit 7 was set, truncate to 8 bits; its properties are stated by `ShiftOfXor` and `ShiftInjective` |
| CrcMod.Shifts | sensor_pack/crc_mod.py:21-25 | definition of `n` passes of the inner loop; its properties are stated by `ShiftsAreBitSerial` and `ShiftsInjective` |
| CrcMod.Feed | sensor_pack/crc_mod.py:20-25 | definition of one outer iteration, `crc ^= item` and eight passes; its properties are stated by `FeedIsBitSerial` and `FeedInjective` |
| CrcMod.Fold | sensor_pack/crc_mod.py:19-25 | definition of the outer loop over the bytes from a given crc; its properties are stated by `FoldIsLfsr`, `FoldAppend` and `FoldDetectsSingleByteError` |
| CrcMod.Masked | sensor_pack/crc_mod.py:20 | the items as the loop sees them: same length, each `item & 0xFF` |
| CrcMod.Crc8 | sensor_pack/crc_mod.py:16-26 | `crc8(sequence, polynomial, init_value=0x00)` on the masked items, polynomial and seed; the empty input gives the masked seed |
| CrcMod.ComputeCrc8 | sensor_pack/crc_mod.py:16-26 | the nested loop, updating `crc` in place, returns exactly `Crc8(sequence, polynomial, initValue)` |
| CrcMod.AppendOneByte | sensor_pack/crc_mod.py:19-25 | the CRC of `prefix + [item]` is eight passes of the inner loop on the CRC of `prefix` XOR `item & 0xFF` |
| CrcMod.ShiftOfXor | sensor_pack/crc_mod.py:20-25 | one pass on a register holding `crc ^ x` is one message bit (the top bit of `x`) fed serially into `crc`, with the rest of `x` moved up |
| CrcMod.ShiftsAreBitSerial | sensor_pack/crc_mod.py:20-25 | XOR-ing a byte in and making `n` passes equals feeding its top `n` bits one at a time, up to the bits of the byte not yet shifted out |
| CrcMod.FeedIsBitSerial | sensor_pack/crc_mod.py:20-25 | one outer iteration feeds the item's eight bits, most significant first, into the shift register |
| CrcMod.FoldIsLfsr | sensor_pack/crc_mod.py:19-25 | the outer loop over bytes is the shift register over the bits of the message, each byte most significant bit first |
| CrcMod.Crc8IsBitSerial | sensor_pack/crc_mod.py:1-26 | `crc8` is the MSB-first, unreflected, no-final-XOR CRC-8 of the message's bits |
| CrcMod.LfsrAppend | sensor_pack/crc_mod.py:1-7 | the shift register run over `a + b` is the run over `b` from the state after `a` |
| CrcMod.FoldAppend | sensor_pack/crc_mod.py:19-25 | the outer loop over `a + b` is the loop over `b` from the value reached after `a` |
| CrcMod.Chaining | sensor_pack/crc_mod.py:16-26 | the CRC of a concatenation is the CRC of the second part seeded with the CRC of the first |
| CrcMod.ShiftInjective | sensor_pack/crc_mod.py:22-25 | for an odd polynomial, one pass of the inner loop is one-to-one |
| CrcMod.ShiftsInjective | sensor_pack/crc_mod.py:21-25 | for an odd polynomial, `n` passes are one-to-one |
| CrcMod.FeedInjective | sensor_pack/crc_mod.py:20-25 | for an odd polynomial, equal results of one outer iteration mean equal `crc ^ item` |
| CrcMod.FoldInjectiveInCrc | sensor_pack/crc_mod.py:19-25 | for an odd polynomial, the outer loop over a fixed input is one-to-one in its starting value |
| CrcMod.FoldDetectsSingleByteError | sensor_pack/crc_mod.py:19-25 | for an odd polynomial, two byte strings that differ in exactly one position end the loop in different values, from any start |
| CrcMod.SingleByteErrorDetected | sensor_pack/crc_mod.py:16-26 | with an odd polynomial (0x31 is one), changing the low byte of exactly one item always changes the CRC |
| CrcMod.FeedUnrolled | sensor_pack/crc_mod.py:21-25 | one outer iteration is eight passes of the inner loop written out |
| CrcMod.DocumentedVectorShort | sensor_pack/crc_mod.py:9-11 | polynomial 0x31, initial value 0xFF: 0x01 0x02 0x03 gives 0x87 |
| CrcMod.DocumentedVectorDigits | sensor_pack/crc_mod.py:12-13 | polynomial 0x31, initial value 0xFF: 0 1 2 ... 9 gives 0x52 |
| CrcMod.DefaultInitialValue | sensor_pack/crc_mod.py:16 | with the default initial value 0x00 the empty input gives 0x00, and 0x01 0x02 0x03 gives 0xCC, not the documented 0x87 |

## Left out

- `main.py`, the demonstration program: it only calls the driver in a loop and prints.
- The adapter object is fixed at construction (`bus` is a constant field). The Python attribute `adapter` could be reassigned, but nothing in the driver does so.
- The bus transport (`bus_service.I2cAdapter`) is not part of this model. It is replaced by a scripted adapter. A read either gives the next scripted reply or fails when the script is exhausted. Writes always succeed, and their return value is not modelled.
- The adapter's conversion of a written integer into bytes is not modelled. A write request records the value, the byte count and the byte order.
- The `BaseSensor` helpers are not part of this model:
  - `check_value` is modelled only as "membership in the given tuple, else an error before any write";
  - `_get_byteorder_as_str` is modelled as the little-endian order that `Ens160` chooses;
  - `unpack("B")` is modelled as "exactly one byte, else an error".
- `get_id`, `get_tvoc` and `get_eco2` decode with `unpack("H")`, which is not modelled. These operations are left out with it.
- `get_mode`, `get_config`, `set_config`, `get_status` and `soft_reset` are left out. They are one-line reads or writes of the same shape as the modelled ones.
- `set_ambient_temp` is left out: it computes with floating point.
- `__del__` (deep sleep on garbage collection) and `__next__` (the iterator) are left out: they concern object lifetime and the iterator protocol.
- Ens160Crc.Crc8: the polynomial is a byte. With a polynomial wider than 8 bits, the Python `tmp ^ polynomial` would leave the byte range. The driver only ever passes 0x1D.
- Ens160Crc.Crc8: the items are bytes. The driver only ever passes the `bytes` returned by the adapter.
- Ens160Protocol.GetAirQualityIndex: the index is returned as a byte, where the Python returns an int of the same value.
- Exceptions are modelled as error values. The model does not distinguish the Python exception classes beyond the cases of `Ens160Codec.Error`.
