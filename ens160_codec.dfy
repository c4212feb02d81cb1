/** The values the ENS160 driver sends to and decodes from the chip's
    registers: operating modes, commands, the humidity compensation word,
    the air quality index and the firmware version.  Everything here is a
    pure function; the bus traffic is specified in Ens160Protocol and
    performed by the classes of Ens160Driver. */
module Ens160Codec {

  /** The ways an operation of the driver ends without a value. */
  datatype Error =
    | BadCrc(calculated: bv8, reported: bv8)  // IOError "Input data broken! Bad CRC!"
    | InvalidValue(value: int)                // check_value refused an argument
    | BusFailure                              // the adapter could not deliver a reply
    | IndexOutOfRange                         // indexing a reply that is too short
    | UnpackSize(size: nat)                   // unpack("B") of a reply that is not one byte

  datatype Result<T> = Ok(value: T) | Err(error: Error) {
    predicate IsFailure() {
      Err?
    }

    function PropagateFailure<U>(): Result<U>
      requires Err?
    {
      Err(error)
    }

    function Extract(): T
      requires Ok?
    {
      value
    }
  }

  datatype Option<T> = None | Some(value: T)

  // Register addresses (section 16 of the ENS160 data sheet).
  const OpModeRegister: int := 0x10
  const CommandRegister: int := 0x12
  const HumidityRegister: int := 0x15
  const AqiRegister: int := 0x21
  const ChecksumRegister: int := 0x38
  const CommandBuffer: int := 0x48

  /** `check_value(value, allowed, message)`: the value itself when it is
      one of `allowed`, an error naming it otherwise. */
  function CheckValue(value: int, allowed: seq<int>): (r: Result<int>)
    ensures r.Ok? <==> value in allowed
    ensures r.Ok? ==> r.value == value
    ensures r.Err? ==> r.error == InvalidValue(value)
  {
    if value in allowed then Ok(value) else Err(InvalidValue(value))
  }

  // ---------------------------------------------------------------------
  // Operating modes (register OPMODE, 0x10).

  datatype OpMode = DeepSleep | Idle | Standard | Reset

  /** The byte that selects each mode. */
  function ModeCode(m: OpMode): int {
    match m
    case DeepSleep => 0x00
    case Idle => 0x01
    case Standard => 0x02
    case Reset => 0xF0
  }

  /** The values `set_mode` accepts. */
  const ModeCodes: seq<int> := [0x00, 0x01, 0x02, 0xF0]

  function ParseMode(v: int): (r: Option<OpMode>)
    ensures r.Some? ==> ModeCode(r.value) == v
  {
    if v == 0x00 then Some(DeepSleep)
    else if v == 0x01 then Some(Idle)
    else if v == 0x02 then Some(Standard)
    else if v == 0xF0 then Some(Reset)
    else None
  }

  /** Every mode's code parses back to that mode. */
  lemma ParseModeCode(m: OpMode)
    ensures ParseMode(ModeCode(m)) == Some(m)
  {
  }

  /** `set_mode`'s membership test accepts exactly the codes of the four
      modes. */
  lemma ModeCodesAreModes(v: int)
    ensures v in ModeCodes <==> ParseMode(v).Some?
  {
  }

  // ---------------------------------------------------------------------
  // Commands (register COMMAND, 0x12).

  /** NOP, GET_APPVER and CLRGPR: the codes `_exec_cmd` accepts. */
  const CommandCodes: seq<int> := [0x00, 0x0E, 0xCC]
  const GetAppVersion: int := 0x0E

  // ---------------------------------------------------------------------
  // Humidity compensation (register RH_IN, 0x15).

  /** The word `set_humidity` writes: `rel_hum << 9`, after `check_value`
      against `range(101)`. */
  function HumidityWord(relHum: int): (r: Result<int>)
    ensures r.Ok? <==> 0 <= relHum <= 100
    ensures r.Err? ==> r.error == InvalidValue(relHum)
    ensures r.Ok? ==> 0 <= r.value <= 51200 < 0x1_0000
  {
    if 0 <= relHum <= 100 then Ok(relHum * 512) else Err(InvalidValue(relHum))
  }

  /** How the chip reads the word, after its data sheet (not the driver):
      relative humidity in units of 1/512 %, the fraction dropped. */
  function HumidityOfWord(word: int): (h: int)
    ensures 512 * h <= word < 512 * h + 512
  {
    word / 512
  }

  /** The written word carries the percentage in its upper seven bits and
      zeros below, so the chip reads back exactly the percentage given. */
  lemma HumidityRoundTrip(relHum: int)
    requires 0 <= relHum <= 100
    ensures HumidityWord(relHum).Ok?
    ensures HumidityWord(relHum).value % 512 == 0
    ensures HumidityOfWord(HumidityWord(relHum).value) == relHum
  {
  }

  /** Different percentages give different words. */
  lemma HumidityWordInjective(a: int, b: int)
    requires HumidityWord(a).Ok? && HumidityWord(b).Ok?
    requires HumidityWord(a).value == HumidityWord(b).value
    ensures a == b
  {
    HumidityRoundTrip(a);
    HumidityRoundTrip(b);
  }

  // ---------------------------------------------------------------------
  // Decoding replies.

  /** `unpack("B", reply)[0]`: the reply must be exactly one byte. */
  function UnpackByte(reply: seq<bv8>): (r: Result<bv8>)
    ensures r.Ok? <==> |reply| == 1
    ensures r.Ok? ==> reply == [r.value]
    ensures r.Err? ==> r.error == UnpackSize(|reply|)
  {
    if |reply| == 1 then Ok(reply[0]) else Err(UnpackSize(|reply|))
  }

  /** `get_air_quality_index` on the reply of register DATA_AQI: the byte's
      low three bits. */
  function AirQualityIndex(reply: seq<bv8>): (r: Result<bv8>)
    ensures r.Ok? <==> |reply| == 1
    ensures r.Ok? ==> r.value <= 7
  {
    var b :- UnpackByte(reply);
    Ok(b & 0x07)
  }

  /** The indices the chip reports (1 to 5 on the UBA scale, and every
      other value up to 7) come through unchanged ... */
  lemma AirQualityIndexOfIndex(i: bv8)
    requires i <= 7
    ensures AirQualityIndex([i]) == Ok(i)
  {
    assert i & 0x07 == i;
  }

  /** ... and the reserved upper five bits of the register never matter. */
  lemma AirQualityIndexIgnoresHighBits(b: bv8, c: bv8)
    requires b & 0x07 == c & 0x07
    ensures AirQualityIndex([b]) == AirQualityIndex([c])
  {
  }

  /** The version tuple `(Major, Minor, Release)`. */
  datatype Version = Version(major: bv8, minor: bv8, release: bv8)

  /** `get_firmware_version` on the command buffer: `b[4], b[5], b[6]`,
      an index error when the buffer is shorter than seven bytes. */
  function FirmwareVersion(buffer: seq<bv8>): (r: Result<Version>)
    ensures r.Ok? <==> |buffer| >= 7
    ensures r.Err? ==> r.error == IndexOutOfRange
  {
    if |buffer| < 7 then Err(IndexOutOfRange)
    else Ok(Version(buffer[4], buffer[5], buffer[6]))
  }

  /** The GET_APPVER reply layout: four leading bytes, then major, minor
      and release, then anything. */
  lemma FirmwareVersionLayout(head: seq<bv8>, major: bv8, minor: bv8, release: bv8, tail: seq<bv8>)
    requires |head| == 4
    ensures FirmwareVersion(head + [major, minor, release] + tail) == Ok(Version(major, minor, release))
  {
    var buffer := head + [major, minor, release] + tail;
    assert buffer[4] == major && buffer[5] == minor && buffer[6] == release;
  }
}
