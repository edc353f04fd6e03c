/**
 The core CCS811 protocol (ccs811.py): constants, the status register and
 its error-code lookup, identification and version registers, the soft
 reset, and the probe that every construction of a driver object runs.
 */
module Ccs811 {
  import opened I2cBus

  // I2C addresses (ADDR pin low / high)
  const DefaultAddr: int := 0x5A
  const AltAddr: int := 0x5B

  // Default eCO2 interrupt thresholds, in ppm
  const DefaultLowThreshold: int := 0x05DC
  const DefaultHighThreshold: int := 0x09C4

  // Drive modes
  const Mode0: int := 0  // idle
  const Mode1: int := 1  // constant power, every second
  const Mode2: int := 2  // pulse heating, every 10 s
  const Mode3: int := 3  // low power pulse heating, every 60 s
  const Mode4: int := 4  // constant power, raw data every 250 ms

  // Registers
  const StatusReg: bv8 := 0x00
  const HwIdReg: bv8 := 0x20
  const HwVersionReg: bv8 := 0x21
  const FwBootVersionReg: bv8 := 0x23
  const FwAppVersionReg: bv8 := 0x24
  const ErrorIdReg: bv8 := 0xE0
  const SwResetReg: bv8 := 0xFF

  const HwIdValue: bv8 := 0x81
  const ResetMagic: seq<bv8> := [0x11, 0xE5, 0x72, 0x8A]

  // Status register bits
  const ErrorBit: bv8 := 0x01
  const DataReadyBit: bv8 := 0x08
  const AppValidBit: bv8 := 0x10
  const AppVerifyBit: bv8 := 0x20
  const AppEraseBit: bv8 := 0x40
  const FwModeBit: bv8 := 0x80

  datatype Option<T> = None | Some(value: T)

  /** A Python call that returns normally (`Ok`) or raises (`Err`). */
  datatype Result<T> = Ok(value: T) | Err(error: Error)
  {
    function Failure(): Option<Error>
    {
      if Ok? then None else Some(error)
    }
  }

  /** The six device error codes of register 0xE0. */
  datatype SensorError =
    | WriteRegInvalid | ReadRegInvalid | MeasModeInvalid
    | MaxResistance | HeaterFault | HeaterSupply

  /** Every ValueError the driver raises, one constructor per message. */
  datatype Error =
    | NotFound                   // "CCS811 not found"
    | WrongHardwareId            // "Wrong Hardware ID"
    | AppNotValid                // "Application not valid."
    | Fault(fault: SensorError)  // the name looked up in dict_err
    | ByteOutOfRange             // bytes() refusing a value outside 0..255
    | PollTimeout                // a status poll ran out of retries (not in the source)

  function CodeOf(e: SensorError): (c: bv8)
    ensures c < 6
  {
    match e
    case WriteRegInvalid => 0
    case ReadRegInvalid => 1
    case MeasModeInvalid => 2
    case MaxResistance => 3
    case HeaterFault => 4
    case HeaterSupply => 5
  }

  /** The `dict_err` lookup: codes 0..5 name an error, any other code none. */
  function ErrorOfCode(c: bv8): (e: Option<SensorError>)
    ensures e.Some? <==> c < 6
    ensures e.Some? ==> CodeOf(e.value) == c
  {
    if c == 0 then Some(WriteRegInvalid)
    else if c == 1 then Some(ReadRegInvalid)
    else if c == 2 then Some(MeasModeInvalid)
    else if c == 3 then Some(MaxResistance)
    else if c == 4 then Some(HeaterFault)
    else if c == 5 then Some(HeaterSupply)
    else None
  }

  lemma ErrorCodeRoundTrip(e: SensorError)
    ensures ErrorOfCode(CodeOf(e)) == Some(e)
  {
  }

  /**
   What one status query sees: the status byte and, when its error bit is
   set, the byte of the error-id register (otherwise `code` is not read).
   */
  datatype StatusReading = StatusReading(status: bv8, code: bv8)

  /** The bus transactions of one status query (`_get_status`). */
  function StatusEvents(addr: int, q: StatusReading): (t: seq<Event>)
    ensures 1 <= |t| <= 2 && t[0] == Read(addr, StatusReg, [q.status])
    ensures |t| == 2 <==> q.status & ErrorBit != 0
  {
    [Read(addr, StatusReg, [q.status])]
    + if q.status & ErrorBit != 0 then [Read(addr, ErrorIdReg, [q.code])] else []
  }

  /** What `_get_status(mask)` returns or raises for reading `q`. */
  function StatusResult(q: StatusReading, mask: bv8): (r: Result<bool>)
    ensures r.Err? <==> q.status & ErrorBit != 0 && q.code < 6
    ensures r.Err? ==> r.error.Fault? && CodeOf(r.error.fault) == q.code
    ensures r.Ok? ==> r.value == (q.status & mask != 0)
  {
    if q.status & ErrorBit != 0 && ErrorOfCode(q.code).Some? then
      Err(Fault(ErrorOfCode(q.code).value))
    else
      Ok(q.status & mask != 0)
  }

  /** Distinct device codes raise distinct errors. */
  lemma StatusFaultsDistinct(q1: StatusReading, q2: StatusReading, m1: bv8, m2: bv8)
    requires StatusResult(q1, m1).Err? && StatusResult(q2, m2).Err?
    requires q1.code != q2.code
    ensures StatusResult(q1, m1).error != StatusResult(q2, m2).error
  {
  }

  datatype Version = Version(major: nat, minor: nat, patch: nat)

  /** `_fw_version`: "major.minor.trivial" from the two register bytes. */
  function FwVersion(b0: bv8, b1: bv8): (v: Version)
    ensures v.major < 16 && v.minor < 16 && v.patch < 256
    ensures v.major * 16 + v.minor == b0 as int && v.patch == b1 as int
  {
    Version((b0 >> 4) as nat, (b0 & 0xF) as nat, b1 as nat)
  }

  /** The actions of `_sw_reset`: the reset magic to 0xFF, then a 2 ms settle delay. */
  function ResetEvents(addr: int): seq<Event>
  {
    [Write(addr, SwResetReg, ResetMagic), Sleep(2)]
  }

  /** What the three probe checks of the constructor see. */
  datatype ProbeRun = ProbeRun(found: seq<int>, id: bv8, valid: StatusReading)

  /** The actions of `CCS811.__init__`: each check runs only if the previous one passed. */
  function ProbeEvents(addr: int, p: ProbeRun): seq<Event>
  {
    [Sleep(20), Scan(p.found)]
    + if addr !in p.found then []
      else [Read(addr, HwIdReg, [p.id])]
           + if p.id != HwIdValue then [] else StatusEvents(addr, p.valid)
  }

  /** The error `CCS811.__init__` raises for `p`, if any. */
  function ProbeFailure(addr: int, p: ProbeRun): Option<Error>
  {
    if addr !in p.found then Some(NotFound)
    else if p.id != HwIdValue then Some(WrongHardwareId)
    else match StatusResult(p.valid, AppValidBit)
      case Err(e) => Some(e)
      case Ok(valid) => if valid then None else Some(AppNotValid)
  }

  predicate IsStatusRead(e: Event)
  {
    e.Read? && e.reg == StatusReg
  }

  /**
   The probe checks run in a fixed order (scan, hardware id, app-valid); the
   first failing one decides the error and the later ones issue no read.
   */
  lemma ProbeChecksInOrder(addr: int, p: ProbeRun)
    ensures ProbeFailure(addr, p).None?
            <==> addr in p.found && p.id == HwIdValue && StatusResult(p.valid, AppValidBit) == Ok(true)
    ensures addr !in p.found ==>
              ProbeFailure(addr, p) == Some(NotFound)
              && forall e | e in ProbeEvents(addr, p) :: !e.Read?
    ensures addr in p.found && p.id != HwIdValue ==>
              ProbeFailure(addr, p) == Some(WrongHardwareId)
              && forall e | e in ProbeEvents(addr, p) :: !IsStatusRead(e)
    ensures addr in p.found && p.id == HwIdValue ==>
              ProbeEvents(addr, p) == [Sleep(20), Scan(p.found), Read(addr, HwIdReg, [HwIdValue])]
                                      + StatusEvents(addr, p.valid)
    ensures addr in p.found && p.id == HwIdValue && StatusResult(p.valid, AppValidBit) == Ok(false) ==>
              ProbeFailure(addr, p) == Some(AppNotValid)
  {
  }

  /** A handle on one sensor: the bus and the sensor's address (class CCS811). */
  class Device {
    const i2c: Bus
    const addr: int

    constructor (i2c: Bus, addr: int)
      ensures this.i2c == i2c && this.addr == addr
    {
      this.i2c := i2c;
      this.addr := addr;
    }

    /** `_error_id`: reads the error-id register; `Some` means it raises. */
    method ErrorId() returns (e: Option<SensorError>)
      modifies i2c
      ensures exists c :: i2c.log == old(i2c.log) + [Read(addr, ErrorIdReg, [c])] && e == ErrorOfCode(c)
    {
      var data := i2c.ReadMem(addr, ErrorIdReg, 1);
      assert data == [data[0]];
      e := ErrorOfCode(data[0]);
    }

    /** `_get_status(mask)`. */
    method GetStatus(mask: bv8) returns (r: Result<bool>)
      modifies i2c
      ensures exists q :: i2c.log == old(i2c.log) + StatusEvents(addr, q) && r == StatusResult(q, mask)
    {
      var data := i2c.ReadMem(addr, StatusReg, 1);
      assert data == [data[0]];
      var status := data[0];
      if status & ErrorBit != 0 {
        ghost var log1 := i2c.log;
        var e := ErrorId();
        ghost var c :| i2c.log == log1 + [Read(addr, ErrorIdReg, [c])] && e == ErrorOfCode(c);
        assert i2c.log == old(i2c.log) + StatusEvents(addr, StatusReading(status, c));
        if e.Some? {
          assert Err(Fault(e.value)) == StatusResult(StatusReading(status, c), mask);
          return Err(Fault(e.value));
        }
        r := Ok(status & mask != 0);
        assert r == StatusResult(StatusReading(status, c), mask);
      } else {
        r := Ok(status & mask != 0);
        assert i2c.log == old(i2c.log) + StatusEvents(addr, StatusReading(status, 0));
        assert r == StatusResult(StatusReading(status, 0), mask);
      }
    }

    method IsReadyToMeasure() returns (r: Result<bool>)
      modifies i2c
      ensures exists q :: i2c.log == old(i2c.log) + StatusEvents(addr, q) && r == StatusResult(q, FwModeBit)
    {
      r := GetStatus(FwModeBit);
    }

    method AppIsValid() returns (r: Result<bool>)
      modifies i2c
      ensures exists q :: i2c.log == old(i2c.log) + StatusEvents(addr, q) && r == StatusResult(q, AppValidBit)
    {
      r := GetStatus(AppValidBit);
    }

    method DataIsReady() returns (r: Result<bool>)
      modifies i2c
      ensures exists q :: i2c.log == old(i2c.log) + StatusEvents(addr, q) && r == StatusResult(q, DataReadyBit)
    {
      r := GetStatus(DataReadyBit);
    }

    /** The `hw_id` property. */
    method HwId() returns (id: bv8)
      modifies i2c
      ensures i2c.log == old(i2c.log) + [Read(addr, HwIdReg, [id])]
    {
      var data := i2c.ReadMem(addr, HwIdReg, 1);
      assert data == [data[0]];
      id := data[0];
    }

    /** The `hw_version` property: the register byte, unchanged. */
    method HwVersion() returns (v: bv8)
      modifies i2c
      ensures i2c.log == old(i2c.log) + [Read(addr, HwVersionReg, [v])]
    {
      var data := i2c.ReadMem(addr, HwVersionReg, 1);
      assert data == [data[0]];
      v := data[0];
    }

    /** `_fw_version(reg)`: two bytes read from `reg`, decoded. */
    method ReadFwVersion(reg: bv8) returns (v: Version)
      modifies i2c
      ensures exists b0, b1 :: i2c.log == old(i2c.log) + [Read(addr, reg, [b0, b1])] && v == FwVersion(b0, b1)
    {
      var data := i2c.ReadMem(addr, reg, 2);
      assert data == [data[0], data[1]];
      v := FwVersion(data[0], data[1]);
    }

    method FwBootVersion() returns (v: Version)
      modifies i2c
      ensures exists b0, b1 :: i2c.log == old(i2c.log) + [Read(addr, FwBootVersionReg, [b0, b1])]
                               && v == FwVersion(b0, b1)
    {
      v := ReadFwVersion(FwBootVersionReg);
    }

    method FwAppVersion() returns (v: Version)
      modifies i2c
      ensures exists b0, b1 :: i2c.log == old(i2c.log) + [Read(addr, FwAppVersionReg, [b0, b1])]
                               && v == FwVersion(b0, b1)
    {
      v := ReadFwVersion(FwAppVersionReg);
    }

    /** `_sw_reset`: the reset magic to 0xFF, then a 2 ms settle delay. */
    method SwReset()
      modifies i2c
      ensures i2c.log == old(i2c.log) + ResetEvents(addr)
    {
      i2c.WriteMem(addr, SwResetReg, ResetMagic);
      i2c.SleepMs(2);
    }
  }

  /**
   `CCS811(i2c, addr)`: waits 20 ms, then checks presence, hardware id and
   application validity, raising on the first check that fails.
   */
  method Open(i2c: Bus, addr: int) returns (r: Result<Device>)
    modifies i2c
    ensures exists p :: i2c.log == old(i2c.log) + ProbeEvents(addr, p) && r.Failure() == ProbeFailure(addr, p)
    ensures r.Ok? ==> fresh(r.value) && r.value.i2c == i2c && r.value.addr == addr
  {
    i2c.SleepMs(20);
    var d := new Device(i2c, addr);
    var found := i2c.ScanAddresses();
    if addr !in found {
      assert i2c.log == old(i2c.log) + ProbeEvents(addr, ProbeRun(found, 0, StatusReading(0, 0)));
      return Err(NotFound);
    }
    var id := d.HwId();
    if id != HwIdValue {
      assert i2c.log == old(i2c.log) + ProbeEvents(addr, ProbeRun(found, id, StatusReading(0, 0)));
      return Err(WrongHardwareId);
    }
    ghost var log3 := i2c.log;
    var valid := d.AppIsValid();
    ghost var q :| i2c.log == log3 + StatusEvents(addr, q) && valid == StatusResult(q, AppValidBit);
    ghost var p := ProbeRun(found, id, q);
    assert i2c.log == old(i2c.log) + ProbeEvents(addr, p);
    match valid
    case Err(e) =>
      r := Err(e);
    case Ok(v) =>
      r := if v then Ok(d) else Err(AppNotValid);
  }
}
