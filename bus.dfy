/**
 An abstract I2C bus as the driver sees it.  The bus itself, the scan of
 present addresses and the device's answers are outside the model: every
 read and every scan returns arbitrary data of the requested shape, and
 every call the driver makes is recorded, with that data, in `log`.
 Sleeps and console warnings are recorded in the same log so that their
 order relative to the bus transactions can be stated.
 */
module I2cBus {

  /** Console warnings the driver prints (their text is not modelled). */
  datatype Warning = EnvIncomplete | BaselineUnstable

  /** One observable action of the driver, in the order it happens. */
  datatype Event =
    | Scan(found: seq<int>)                        // i2c.scan()
    | Read(addr: int, reg: bv8, data: seq<bv8>)    // i2c.readfrom_mem(addr, reg, |data|)
    | Write(addr: int, reg: bv8, data: seq<bv8>)   // i2c.writeto_mem(addr, reg, data)
    | WriteRaw(addr: int, data: seq<bv8>)          // i2c.writeto(addr, data)
    | Sleep(ms: nat)                               // time.sleep_ms(ms)
    | Warn(w: Warning)                             // print("Warning: ...")

  function Zeros(n: nat): (z: seq<bv8>)
    ensures |z| == n
  {
    seq(n, _ => 0)
  }

  class Bus {
    var log: seq<Event>

    constructor ()
      ensures log == []
    {
      log := [];
    }

    /** The addresses that answer; which ones do is up to the hardware. */
    method ScanAddresses() returns (found: seq<int>)
      modifies this
      ensures log == old(log) + [Scan(found)]
    {
      found :| true;
      log := log + [Scan(found)];
    }

    /** Reads `n` bytes from register `reg`; the device decides their values. */
    method ReadMem(addr: int, reg: bv8, n: nat) returns (data: seq<bv8>)
      modifies this
      ensures |data| == n
      ensures log == old(log) + [Read(addr, reg, data)]
    {
      assert |Zeros(n)| == n;
      data :| |data| == n;
      log := log + [Read(addr, reg, data)];
    }

    method WriteMem(addr: int, reg: bv8, data: seq<bv8>)
      modifies this
      ensures log == old(log) + [Write(addr, reg, data)]
    {
      log := log + [Write(addr, reg, data)];
    }

    method WriteTo(addr: int, data: seq<bv8>)
      modifies this
      ensures log == old(log) + [WriteRaw(addr, data)]
    {
      log := log + [WriteRaw(addr, data)];
    }

    method SleepMs(ms: nat)
      modifies this
      ensures log == old(log) + [Sleep(ms)]
    {
      log := log + [Sleep(ms)];
    }

    method Print(w: Warning)
      modifies this
      ensures log == old(log) + [Warn(w)]
    {
      log := log + [Warn(w)];
    }
  }
}
