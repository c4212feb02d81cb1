/** The ENS160 driver's traffic on the bus, as functions of the replies a
    scripted bus adapter gives: which requests each operation of the class
    `Ens160` of ens160sciosense.py makes, how many replies it consumes and
    what it returns.

    The checked register read is a small protocol.  With checking on, the
    driver first reads the checksum register 0x38 (`before`), then the data;
    for a data register (address in [0, 0x38)) it computes the vendor CRC8
    of the data seeded with `before`, reads 0x38 again (`after`) and fails
    on a mismatch. */
module Ens160Protocol {
  import opened Ens160Codec
  import Ens160Crc

  /** The byte order the adapter converts written values with;
      `Ens160` passes `False` as the third argument of its base class's
      constructor, which selects little-endian order. */
  datatype ByteOrder = Little | Big

  /** One call into the bus adapter. */
  datatype Request =
    | Read(address: int, register: int, count: int)
    | Write(address: int, register: int, value: int, count: int, order: ByteOrder)

  /** What an operation did: its outcome, the requests it made in order,
      and how many scripted replies it consumed. */
  datatype Transaction<T> = Transaction(outcome: Result<T>, requests: seq<Request>, consumed: nat)

  /** `_get_last_checksum`: byte 0 of a one-byte read of register 0x38. */
  function LastChecksum(address: int, replies: seq<seq<bv8>>): (t: Transaction<bv8>)
    ensures t.requests == [Read(address, ChecksumRegister, 1)]
    ensures t.consumed <= |replies| && t.consumed <= 1
    ensures t.outcome.Ok? <==> replies != [] && replies[0] != []
    ensures t.outcome.Ok? ==> t.outcome.value == replies[0][0] && t.consumed == 1
    ensures replies == [] ==> t.outcome == Err(BusFailure) && t.consumed == 0
    ensures replies != [] && replies[0] == [] ==> t.outcome == Err(IndexOutOfRange) && t.consumed == 1
  {
    var request := [Read(address, ChecksumRegister, 1)];
    if replies == [] then Transaction(Err(BusFailure), request, 0)
    else if replies[0] == [] then Transaction(Err(IndexOutOfRange), request, 1)
    else Transaction(Ok(replies[0][0]), request, 1)
  }

  /** Whether `_read_register` compares checksums for `register`. */
  predicate IsDataRegister(register: int) {
    0 <= register < ChecksumRegister
  }

  /** `_read_register(reg_addr, bytes_count)` against the scripted replies. */
  function ReadRegister(checkCrc: bool, address: int, register: int, count: int, replies: seq<seq<bv8>>): (t: Transaction<seq<bv8>>)
    ensures t.consumed <= |replies|
    ensures 1 <= |t.requests| <= 3
  {
    var data := Read(address, register, count);
    var check := Read(address, ChecksumRegister, 1);
    if !checkCrc then
      if replies == [] then Transaction(Err(BusFailure), [data], 0)
      else Transaction(Ok(replies[0]), [data], 1)
    else
      var first := LastChecksum(address, replies);
      if first.outcome.Err? then Transaction(Err(first.outcome.error), first.requests, first.consumed)
      else if |replies| < 2 then Transaction(Err(BusFailure), [check, data], 1)
      else if !IsDataRegister(register) then Transaction(Ok(replies[1]), [check, data], 2)
      else
        var crc := Ens160Crc.Crc8(replies[1], Ens160Crc.Poly, first.outcome.value as int);
        var second := LastChecksum(address, replies[2..]);
        var requests := [check, data] + second.requests;
        if second.outcome.Err? then Transaction(Err(second.outcome.error), requests, 2 + second.consumed)
        else if crc != second.outcome.value then Transaction(Err(BadCrc(crc, second.outcome.value)), requests, 3)
        else Transaction(Ok(replies[1]), requests, 3)
  }

  // ---------------------------------------------------------------------
  // What the checked read promises.

  /** Without checking a read is one request for the register, the reply
      unchanged, and never a checksum error. */
  lemma UncheckedReadPassesThrough(address: int, register: int, count: int, replies: seq<seq<bv8>>)
    ensures var t := ReadRegister(false, address, register, count, replies);
      && t.requests == [Read(address, register, count)]
      && (replies != [] ==> t.outcome == Ok(replies[0]) && t.consumed == 1)
      && (replies == [] ==> t.outcome == Err(BusFailure))
  {
  }

  /** With checking on, a data register is read between two reads of the
      checksum register, and the read fails exactly when the checksum the
      host computes from `before` and the data differs from `after`. */
  lemma CheckedDataRead(address: int, register: int, count: int, replies: seq<seq<bv8>>)
    requires IsDataRegister(register)
    requires |replies| >= 3 && replies[0] != [] && replies[2] != []
    ensures var t := ReadRegister(true, address, register, count, replies);
      var before, data, after := replies[0][0], replies[1], replies[2][0];
      var crc := Ens160Crc.Crc8(data, Ens160Crc.Poly, before as int);
      && t.requests == [Read(address, ChecksumRegister, 1), Read(address, register, count), Read(address, ChecksumRegister, 1)]
      && t.consumed == 3
      && (t.outcome.Err? <==> crc != after)
      && (t.outcome.Err? ==> t.outcome.error == BadCrc(crc, after))
      && (t.outcome.Ok? ==> t.outcome.value == data)
  {
    var first := LastChecksum(address, replies);
    assert first.outcome == Ok(replies[0][0]);
    var second := LastChecksum(address, replies[2..]);
    assert replies[2..][0] == replies[2];
    assert second.outcome == Ok(replies[2][0]);
  }

  /** With checking on, any other register (the command buffer 0x48, or a
      negative address) is read after one read of 0x38 and returned without
      a comparison. */
  lemma CheckedOtherRead(address: int, register: int, count: int, replies: seq<seq<bv8>>)
    requires !IsDataRegister(register)
    requires |replies| >= 2 && replies[0] != []
    ensures var t := ReadRegister(true, address, register, count, replies);
      && t.requests == [Read(address, ChecksumRegister, 1), Read(address, register, count)]
      && t.consumed == 2
      && t.outcome == Ok(replies[1])
  {
    assert LastChecksum(address, replies).outcome.Ok?;
  }

  /** With checking on, a failure of the adapter or an empty checksum reply
      part-way through ends the read with that error, after exactly the
      requests made so far. */
  lemma CheckedReadFailures(address: int, register: int, count: int, replies: seq<seq<bv8>>)
    ensures var t := ReadRegister(true, address, register, count, replies);
      var check, data := Read(address, ChecksumRegister, 1), Read(address, register, count);
      && (replies == [] ==> t == Transaction(Err(BusFailure), [check], 0))
      && (replies != [] && replies[0] == [] ==> t == Transaction(Err(IndexOutOfRange), [check], 1))
      && (|replies| == 1 && replies[0] != [] ==> t == Transaction(Err(BusFailure), [check, data], 1))
      && (IsDataRegister(register) && |replies| == 2 && replies[0] != [] ==>
            t == Transaction(Err(BusFailure), [check, data, check], 2))
      && (IsDataRegister(register) && |replies| >= 3 && replies[0] != [] && replies[2] == [] ==>
            t == Transaction(Err(IndexOutOfRange), [check, data, check], 3))
  {
    if IsDataRegister(register) && |replies| >= 3 {
      assert replies[2..][0] == replies[2];
    }
  }

  /** A checksum error can only come from a checked read of a data
      register whose two checksums disagree. */
  lemma BadCrcOnlyWhenChecked(checkCrc: bool, address: int, register: int, count: int, replies: seq<seq<bv8>>)
    ensures var t := ReadRegister(checkCrc, address, register, count, replies);
      t.outcome.Err? && t.outcome.error.BadCrc? ==>
        && checkCrc && IsDataRegister(register)
        && |replies| >= 3 && replies[0] != [] && replies[2] != []
        && t.outcome.error.calculated == Ens160Crc.Crc8(replies[1], Ens160Crc.Poly, replies[0][0] as int)
        && t.outcome.error.reported == replies[2][0]
        && t.outcome.error.calculated != t.outcome.error.reported
  {
    var t := ReadRegister(checkCrc, address, register, count, replies);
    if t.outcome.Err? && t.outcome.error.BadCrc? {
      var second := LastChecksum(address, replies[2..]);
      assert second.outcome.Ok?;
      assert replies[2..][0] == replies[2];
    }
  }

  /** Data a checked read of a data register returns is data whose
      checksum the chip confirmed. */
  lemma CheckedReadIsVerified(address: int, register: int, count: int, replies: seq<seq<bv8>>)
    requires IsDataRegister(register)
    ensures var t := ReadRegister(true, address, register, count, replies);
      t.outcome.Ok? ==>
        && |replies| >= 3 && replies[0] != [] && replies[2] != []
        && t.outcome.value == replies[1]
        && Ens160Crc.Crc8(replies[1], Ens160Crc.Poly, replies[0][0] as int) == replies[2][0]
  {
    var t := ReadRegister(true, address, register, count, replies);
    if t.outcome.Ok? {
      var second := LastChecksum(address, replies[2..]);
      assert second.outcome.Ok?;
      assert replies[2..][0] == replies[2];
    }
  }

  /** If the chip reports the checksum of what it sent and exactly one byte
      arrived corrupted, the checked read refuses the data. */
  lemma CorruptedByteIsRefused(address: int, register: int, count: int, before: bv8, sent: seq<bv8>, received: seq<bv8>, k: nat)
    requires IsDataRegister(register)
    requires |received| == |sent| && k < |sent| && received[k] != sent[k]
    requires received[..k] == sent[..k] && received[k + 1..] == sent[k + 1..]
    ensures var after := Ens160Crc.Crc8(sent, Ens160Crc.Poly, before as int);
      var t := ReadRegister(true, address, register, count, [[before], received, [after]]);
      t.outcome == Err(BadCrc(Ens160Crc.Crc8(received, Ens160Crc.Poly, before as int), after))
  {
    var after := Ens160Crc.Crc8(sent, Ens160Crc.Poly, before as int);
    Ens160Crc.SingleByteErrorDetected(sent, received, k, Ens160Crc.Poly, before as int);
    CheckedDataRead(address, register, count, [[before], received, [after]]);
  }

  /** Two checked reads in a row, the second seeded with the checksum the
      first confirmed: the chip's final checksum covers both transfers, as
      one checksum of their concatenation. */
  lemma ConsecutiveReadsChain(address: int, r1: int, r2: int, c1: int, c2: int,
                              before: bv8, d1: seq<bv8>, middle: bv8, d2: seq<bv8>, after: bv8)
    requires IsDataRegister(r1) && IsDataRegister(r2)
    requires ReadRegister(true, address, r1, c1, [[before], d1, [middle]]).outcome.Ok?
    requires ReadRegister(true, address, r2, c2, [[middle], d2, [after]]).outcome.Ok?
    ensures after == Ens160Crc.Crc8(d1 + d2, Ens160Crc.Poly, before as int)
  {
    CheckedReadIsVerified(address, r1, c1, [[before], d1, [middle]]);
    CheckedReadIsVerified(address, r2, c2, [[middle], d2, [after]]);
    Ens160Crc.Chaining(d1, d2, Ens160Crc.Poly, before as int);
  }

  // ---------------------------------------------------------------------
  // The driver's operations that use the read.

  /** `set_mode(new_mode)`: check the mode, then one one-byte write of
      register 0x10; an invalid mode writes nothing. */
  function SetMode(address: int, newMode: int): (t: Transaction<()>)
    ensures t.consumed == 0
    ensures t.outcome.Ok? <==> ParseMode(newMode).Some?
    ensures t.outcome.Ok? ==> t.requests == [Write(address, OpModeRegister, newMode, 1, Little)]
    ensures t.outcome.Err? ==> t.requests == [] && t.outcome.error == InvalidValue(newMode)
  {
    ModeCodesAreModes(newMode);
    match CheckValue(newMode, ModeCodes)
    case Err(e) => Transaction(Err(e), [], 0)
    case Ok(nm) => Transaction(Ok(()), [Write(address, OpModeRegister, nm, 1, Little)], 0)
  }

  /** `set_humidity(rel_hum)`: check `0 <= rel_hum <= 100`, then one
      two-byte write of `rel_hum << 9` to register 0x15. */
  function SetHumidity(address: int, relHum: int): (t: Transaction<()>)
    ensures t.consumed == 0
    ensures t.outcome.Ok? <==> 0 <= relHum <= 100
    ensures t.outcome.Ok? ==> t.requests == [Write(address, HumidityRegister, relHum * 512, 2, Little)]
    ensures t.outcome.Ok? ==> 0 <= relHum * 512 < 0x1_0000 && HumidityOfWord(relHum * 512) == relHum
    ensures t.outcome.Err? ==> t.requests == [] && t.outcome.error == InvalidValue(relHum)
  {
    match HumidityWord(relHum)
    case Err(e) => Transaction(Err(e), [], 0)
    case Ok(word) =>
      HumidityRoundTrip(relHum);
      Transaction(Ok(()), [Write(address, HumidityRegister, word, 2, Little)], 0)
  }

  /** `_exec_cmd(cmd)`: check the command, write it to register 0x12, then
      read the eight bytes of the command buffer 0x48. */
  function ExecCommand(checkCrc: bool, address: int, command: int, replies: seq<seq<bv8>>): (t: Transaction<seq<bv8>>)
    ensures t.consumed <= |replies|
    ensures command !in CommandCodes ==> t == Transaction(Err(InvalidValue(command)), [], 0)
    ensures command in CommandCodes ==>
      var read := ReadRegister(checkCrc, address, CommandBuffer, 8, replies);
      && t.requests == [Write(address, CommandRegister, command, 1, Little)] + read.requests
      && t.outcome == read.outcome && t.consumed == read.consumed
  {
    match CheckValue(command, CommandCodes)
    case Err(e) => Transaction(Err(e), [], 0)
    case Ok(_) =>
      var read := ReadRegister(checkCrc, address, CommandBuffer, 8, replies);
      Transaction(read.outcome, [Write(address, CommandRegister, command, 1, Little)] + read.requests, read.consumed)
  }

  /** `get_firmware_version()`: GET_APPVER, then bytes 4, 5 and 6 of the
      command buffer. */
  function GetFirmwareVersion(checkCrc: bool, address: int, replies: seq<seq<bv8>>): (t: Transaction<Version>)
    ensures t.consumed <= |replies|
    ensures var cmd := ExecCommand(checkCrc, address, GetAppVersion, replies);
      && t.requests == cmd.requests && t.consumed == cmd.consumed
      && (cmd.outcome.Err? ==> t.outcome == Err(cmd.outcome.error))
      && (cmd.outcome.Ok? ==> t.outcome == FirmwareVersion(cmd.outcome.value))
  {
    var cmd := ExecCommand(checkCrc, address, GetAppVersion, replies);
    match cmd.outcome
    case Err(e) => Transaction(Err(e), cmd.requests, cmd.consumed)
    case Ok(buffer) => Transaction(FirmwareVersion(buffer), cmd.requests, cmd.consumed)
  }

  /** `get_air_quality_index()`: a one-byte read of register 0x21, low
      three bits. */
  function GetAirQualityIndex(checkCrc: bool, address: int, replies: seq<seq<bv8>>): (t: Transaction<bv8>)
    ensures t.consumed <= |replies|
    ensures t.outcome.Ok? ==> t.outcome.value <= 7
    ensures var read := ReadRegister(checkCrc, address, AqiRegister, 1, replies);
      && t.requests == read.requests && t.consumed == read.consumed
      && (read.outcome.Err? ==> t.outcome == Err(read.outcome.error))
      && (read.outcome.Ok? ==> t.outcome == AirQualityIndex(read.outcome.value))
  {
    var read := ReadRegister(checkCrc, address, AqiRegister, 1, replies);
    match read.outcome
    case Err(e) => Transaction(Err(e), read.requests, read.consumed)
    case Ok(reply) => Transaction(AirQualityIndex(reply), read.requests, read.consumed)
  }

  /** The index read end to end: one unchecked read of register 0x21, or a
      checked read whose checksums agree, yields the low three bits of the
      reported byte; a reply that is not exactly one byte is an unpack
      error. */
  lemma AirQualityIndexRead(address: int, before: bv8, reply: seq<bv8>, rest: seq<seq<bv8>>)
    ensures var t := GetAirQualityIndex(false, address, [reply] + rest);
      && t.requests == [Read(address, AqiRegister, 1)] && t.consumed == 1
      && (|reply| == 1 ==> t.outcome == Ok(reply[0] & 0x07))
      && (|reply| != 1 ==> t.outcome == Err(UnpackSize(|reply|)))
    ensures var after := Ens160Crc.Crc8(reply, Ens160Crc.Poly, before as int);
      var t := GetAirQualityIndex(true, address, [[before], reply, [after]] + rest);
      && t.requests == [Read(address, ChecksumRegister, 1), Read(address, AqiRegister, 1), Read(address, ChecksumRegister, 1)]
      && t.consumed == 3
      && (|reply| == 1 ==> t.outcome == Ok(reply[0] & 0x07))
      && (|reply| != 1 ==> t.outcome == Err(UnpackSize(|reply|)))
  {
    var after := Ens160Crc.Crc8(reply, Ens160Crc.Poly, before as int);
    var replies := [[before], reply, [after]] + rest;
    assert replies[0] == [before] && replies[1] == reply && replies[2] == [after];
    CheckedDataRead(address, AqiRegister, 1, replies);
  }

  /** Without checking, the version takes the command write and one read
      of the buffer, and is bytes 4 to 6 of the reply. */
  lemma FirmwareVersionRead(address: int, buffer: seq<bv8>, rest: seq<seq<bv8>>)
    ensures var t := GetFirmwareVersion(false, address, [buffer] + rest);
      && t.requests == [Write(address, CommandRegister, GetAppVersion, 1, Little), Read(address, CommandBuffer, 8)]
      && t.consumed == 1
      && t.outcome == FirmwareVersion(buffer)
  {
    assert ([buffer] + rest)[0] == buffer;
  }

  /** Because the command buffer is not a data register, the version read
      with checking on takes the command write, one 0x38 read and the
      buffer read, and decodes bytes 4 to 6 of the reply unchecked. */
  lemma FirmwareVersionNotCompared(address: int, replies: seq<seq<bv8>>)
    requires |replies| >= 2 && replies[0] != []
    ensures var t := GetFirmwareVersion(true, address, replies);
      && t.requests == [Write(address, CommandRegister, GetAppVersion, 1, Little),
                        Read(address, ChecksumRegister, 1), Read(address, CommandBuffer, 8)]
      && t.consumed == 2
      && t.outcome == FirmwareVersion(replies[1])
  {
    CheckedOtherRead(address, CommandBuffer, 8, replies);
  }
}
