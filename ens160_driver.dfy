/** The classes of the ENS160 driver: the bus adapter, whose replies are
    scripted, and `Ens160` of ens160sciosense.py.  Each method performs its
    requests one at a time, as the source does, and is proved to agree with
    the function of the same name in Ens160Protocol. */
module Ens160Driver {
  import opened Ens160Codec
  import opened Ens160Protocol
  import Ens160Crc

  /** The bus adapter: each read answers with the next scripted reply, or
      fails once the script is exhausted; every call is logged. */
  class Bus {
    var replies: seq<seq<bv8>>
    var log: seq<Request>

    constructor(script: seq<seq<bv8>>)
      ensures replies == script && log == []
    {
      replies := script;
      log := [];
    }

    /** `adapter.read_register(address, reg_addr, bytes_count)`. */
    method ReadRegister(address: int, register: int, count: int) returns (r: Result<seq<bv8>>)
      modifies this
      ensures log == old(log) + [Read(address, register, count)]
      ensures old(replies) == [] ==> r == Err(BusFailure) && replies == []
      ensures old(replies) != [] ==> r == Ok(old(replies)[0]) && replies == old(replies)[1..]
    {
      log := log + [Read(address, register, count)];
      if replies == [] {
        r := Err(BusFailure);
      } else {
        r := Ok(replies[0]);
        replies := replies[1..];
      }
    }

    /** `adapter.write_register(address, reg_addr, value, bytes_count, byte_order)`. */
    method WriteRegister(address: int, register: int, value: int, count: int, order: ByteOrder)
      modifies this
      ensures log == old(log) + [Write(address, register, value, count, order)]
      ensures replies == old(replies)
    {
      log := log + [Write(address, register, value, count, order)];
    }
  }

  // ---------------------------------------------------------------------
  // The driver object.

  /** `Ens160(adapter, address=0x52, check_crc=True)`.  `address` and
      `checkCrc` are plain fields, which a caller may reassign between
      operations as it may reassign the Python attributes. */
  class Ens160 {
    const bus: Bus
    var address: int
    var checkCrc: bool

    constructor(adapter: Bus, address: int := 0x52, checkCrc: bool := true)
      ensures bus == adapter && this.address == address && this.checkCrc == checkCrc
    {
      bus := adapter;
      this.address := address;
      this.checkCrc := checkCrc;
    }

    method GetLastChecksum() returns (r: Result<bv8>)
      modifies bus
      ensures var t := LastChecksum(address, old(bus.replies));
        && r == t.outcome
        && bus.log == old(bus.log) + t.requests
        && bus.replies == old(bus.replies)[t.consumed..]
    {
      var reply := bus.ReadRegister(address, ChecksumRegister, 1);
      match reply
      case Err(e) => r := Err(e);
      case Ok(bytes) =>
        if bytes == [] {
          r := Err(IndexOutOfRange);
        } else {
          r := Ok(bytes[0]);
        }
    }

    /** `_read_register(reg_addr, bytes_count=2)`. */
    method ReadRegister(register: int, count: int := 2) returns (r: Result<seq<bv8>>)
      modifies bus
      ensures var t := Ens160Protocol.ReadRegister(checkCrc, address, register, count, old(bus.replies));
        && r == t.outcome
        && bus.log == old(bus.log) + t.requests
        && bus.replies == old(bus.replies)[t.consumed..]
    {
      ghost var replies := bus.replies;
      ghost var log := bus.log;
      var before: bv8 := 0;
      if checkCrc {
        var c := GetLastChecksum();
        if c.Err? {
          return Err(c.error);
        }
        before := c.value;
      }
      var b := bus.ReadRegister(address, register, count);
      if b.Err? {
        return Err(b.error);
      }
      if checkCrc && IsDataRegister(register) {
        assert replies[2..] == bus.replies;
        var crc := Ens160Crc.ComputeCrc8(b.value, Ens160Crc.Poly, before as int);
        var after := GetLastChecksum();
        if after.Err? {
          return Err(after.error);
        }
        if crc != after.value {
          return Err(BadCrc(crc, after.value));
        }
        assert bus.replies == replies[3..];
      }
      r := Ok(b.value);
    }

    /** `_write_register(reg_addr, value, bytes_count=2)`, in the byte order
        of the base class. */
    method WriteRegister(register: int, value: int, count: int := 2)
      modifies bus
      ensures bus.log == old(bus.log) + [Write(address, register, value, count, Little)]
      ensures bus.replies == old(bus.replies)
    {
      bus.WriteRegister(address, register, value, count, Little);
    }

    method SetMode(newMode: int) returns (r: Result<()>)
      modifies bus
      ensures var t := Ens160Protocol.SetMode(address, newMode);
        && r == t.outcome
        && bus.log == old(bus.log) + t.requests
        && bus.replies == old(bus.replies)
    {
      var nm := CheckValue(newMode, ModeCodes);
      if nm.Err? {
        return Err(nm.error);
      }
      WriteRegister(OpModeRegister, nm.value, 1);
      r := Ok(());
    }

    method SetHumidity(relHum: int) returns (r: Result<()>)
      modifies bus
      ensures var t := Ens160Protocol.SetHumidity(address, relHum);
        && r == t.outcome
        && bus.log == old(bus.log) + t.requests
        && bus.replies == old(bus.replies)
    {
      var percentages := seq(101, i => i);
      if 0 <= relHum <= 100 {
        assert percentages[relHum] == relHum;
      }
      var checked := CheckValue(relHum, percentages);
      if checked.Err? {
        return Err(checked.error);
      }
      WriteRegister(HumidityRegister, relHum * 512, 2);
      r := Ok(());
    }

    /** `_exec_cmd(cmd)`. */
    method ExecCommand(command: int) returns (r: Result<seq<bv8>>)
      modifies bus
      ensures var t := Ens160Protocol.ExecCommand(checkCrc, address, command, old(bus.replies));
        && r == t.outcome
        && bus.log == old(bus.log) + t.requests
        && bus.replies == old(bus.replies)[t.consumed..]
    {
      var checked := CheckValue(command, CommandCodes);
      if checked.Err? {
        return Err(checked.error);
      }
      WriteRegister(CommandRegister, command, 1);
      r := ReadRegister(CommandBuffer, 8);
    }

    method GetFirmwareVersion() returns (r: Result<Version>)
      modifies bus
      ensures var t := Ens160Protocol.GetFirmwareVersion(checkCrc, address, old(bus.replies));
        && r == t.outcome
        && bus.log == old(bus.log) + t.requests
        && bus.replies == old(bus.replies)[t.consumed..]
    {
      var b := ExecCommand(GetAppVersion);
      if b.Err? {
        return Err(b.error);
      }
      if |b.value| < 7 {
        return Err(IndexOutOfRange);
      }
      r := Ok(Version(b.value[4], b.value[5], b.value[6]));
    }

    method GetAirQualityIndex() returns (r: Result<bv8>)
      modifies bus
      ensures var t := Ens160Protocol.GetAirQualityIndex(checkCrc, address, old(bus.replies));
        && r == t.outcome
        && bus.log == old(bus.log) + t.requests
        && bus.replies == old(bus.replies)[t.consumed..]
      ensures r.Ok? ==> r.value <= 7
    {
      var regVal := ReadRegister(AqiRegister, 1);
      if regVal.Err? {
        return Err(regVal.error);
      }
      var b := UnpackByte(regVal.value);
      if b.Err? {
        return Err(b.error);
      }
      r := Ok(b.value & 0x07);
    }
  }
}
