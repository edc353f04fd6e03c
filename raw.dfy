/**
 The reader for measurement mode 4 (ccs811raw.py): raw current and voltage
 from the 2-byte RAW_DATA register, and an uncached data-ready flag.
 The getters are modelled as written: each stores `False` into the other
 field's cached value where clearing its reload flag was evidently meant, so
 the flags are never cleared and every read goes to the bus.
 */
module Ccs811Raw {
  import opened I2cBus
  import opened Ccs811
  import opened Ccs811Bootloader
  import opened Ccs811Application
  import opened Ccs811AlgoResult

  const RawDataReg: bv8 := 0x03

  /** The raw current (0..63 uA) and the 10-bit voltage code. */
  datatype RawData = RawData(current: nat, voltage: nat)

  /** `raw_data[0] >> 2` and `((raw_data[0] & 0x3) << 8) | raw_data[1]`; no bit is lost. */
  function DecodeRaw(b: seq<bv8>): (r: RawData)
    requires |b| == 2
    ensures r.current < 64 && r.voltage < 1024
    ensures 4 * r.current + r.voltage / 256 == b[0] as int && r.voltage % 256 == b[1] as int
  {
    RawData(b[0] as int / 4, (b[0] as int % 4) * 256 + b[1] as int)
  }

  /** Bytes 6 and 7 of the algorithm result decode as the raw-data register does. */
  lemma {:induction false} RawMatchesAlgResultTail(d: seq<bv8>)
    requires |d| == 8
    ensures DecodeRaw(d[6..]).current == DecodeAlg(d).current
    ensures DecodeRaw(d[6..]).voltage == DecodeAlg(d).voltage
  {
    assert d[6..][0] == d[6] && d[6..][1] == d[7];
  }

  /** Distinct register contents give distinct raw readings. */
  lemma {:induction false} DecodeRawInjective(b1: seq<bv8>, b2: seq<bv8>)
    requires |b1| == 2 && |b2| == 2 && DecodeRaw(b1) == DecodeRaw(b2)
    ensures b1 == b2
  {
    var r := DecodeRaw(b1);
    assert b1[0] as int == 4 * r.current + r.voltage / 256 == b2[0] as int;
    assert b1[1] as int == r.voltage % 256 == b2[1] as int;
  }

  /** The actions of `_get_raw_data`: the environment step, then the 2-byte read of 0x03. */
  function RawFetchEvents(addr: int, h: Option<real>, t: Option<real>, data: seq<bv8>): seq<Event>
  {
    EnvEvents(addr, h, t) + [Read(addr, RawDataReg, data)]
  }

  /**
   Before the raw read, environment data is written exactly when both values
   are truthy, and the warning is logged exactly when one of them is None;
   the read of 0x03 comes last.
   */
  lemma {:induction false} RawFetchPushesEnvFirst(addr: int, h: Option<real>, t: Option<real>, data: seq<bv8>)
    ensures (exists e :: e in RawFetchEvents(addr, h, t, data) && IsEnvWrite(e))
            <==> Truthy(h) && Truthy(t)
    ensures Warn(EnvIncomplete) in RawFetchEvents(addr, h, t, data) <==> h.None? != t.None?
    ensures var ev := RawFetchEvents(addr, h, t, data);
            ev[|ev| - 1] == Read(addr, RawDataReg, data) && ev[..|ev| - 1] == EnvEvents(addr, h, t)
  {
    var env := EnvEvents(addr, h, t);
    var ev := RawFetchEvents(addr, h, t, data);
    EnvEventsFacts(addr, h, t);
    var r := Read(addr, RawDataReg, data);
    assert ev[..|ev| - 1] == env;
    assert forall e | e in ev && e != r :: e in env;
  }

  /** The two keys a raw reader uses are present in both dictionaries. */
  predicate RawComplete(c: Cache)
  {
    Current in c.values && Voltage in c.values && Current in c.reload && Voltage in c.reload
  }

  predicate IsRawField(f: Field)
  {
    f == Current || f == Voltage
  }

  /** The other raw field. */
  function Other(f: Field): Field
  {
    if f == Current then Voltage else Current
  }

  /**
   The `current` (f = Current) or `voltage` (f = Voltage) getter, for register
   contents `data`: with f's flag set it fetches, stores both values, then
   overwrites the OTHER field's value with False; with the flag clear it
   returns the cached value and sets the flag.
   */
  function RawRead(c: Cache, f: Field, data: seq<bv8>): (Cache, Value)
    requires RawComplete(c) && IsRawField(f) && |data| == 2
  {
    if c.reload[f] then
      var rd := DecodeRaw(data);
      var stored := c.values[Voltage := Num(rd.voltage)][Current := Num(rd.current)];
      var values := stored[Other(f) := Flag(false)];
      (c.(values := values), values[f])
    else
      (c.(reload := c.reload[f := true]), c.values[f])
  }

  function RawReadEvents(addr: int, c: Cache, f: Field, h: Option<real>, t: Option<real>, data: seq<bv8>): seq<Event>
    requires RawComplete(c) && IsRawField(f)
  {
    if c.reload[f] then RawFetchEvents(addr, h, t, data) else []
  }

  /** Both reload flags are set. */
  predicate AlwaysFetching(c: Cache)
  {
    RawComplete(c) && c.reload[Current] && c.reload[Voltage]
  }

  /**
   One getter call with both flags set: it fetches, returns the freshly
   decoded value of its own field, leaves False in the other field, and
   leaves both flags set.
   */
  lemma {:induction false} RawReadFetches(addr: int, c: Cache, f: Field, h: Option<real>, t: Option<real>, data: seq<bv8>)
    requires AlwaysFetching(c) && IsRawField(f) && |data| == 2
    ensures RawReadEvents(addr, c, f, h, t, data) == RawFetchEvents(addr, h, t, data)
    ensures AlwaysFetching(RawRead(c, f, data).0)
    ensures RawRead(c, f, data).0.reload == c.reload
    ensures var (c', r) := RawRead(c, f, data);
            r == (if f == Current then Num(DecodeRaw(data).current) else Num(DecodeRaw(data).voltage))
            && c'.values[Other(f)] == Flag(false)
  {
  }

  /** A request to one of the two getters with the register contents the device returns. */
  datatype RawRequest = RawRequest(field: Field, data: seq<bv8>)

  predicate ValidRequests(reqs: seq<RawRequest>)
  {
    forall i :: 0 <= i < |reqs| ==> IsRawField(reqs[i].field) && |reqs[i].data| == 2
  }

  /** The cache and the actions after a sequence of getter calls. */
  function RawRun(addr: int, c: Cache, reqs: seq<RawRequest>, h: Option<real>, t: Option<real>): (Cache, seq<Event>)
    requires RawComplete(c) && ValidRequests(reqs)
    decreases |reqs|
  {
    if reqs == [] then (c, [])
    else
      var step := RawRead(c, reqs[0].field, reqs[0].data).0;
      var ev := RawReadEvents(addr, c, reqs[0].field, h, t, reqs[0].data);
      assert RawComplete(step);
      var rest := RawRun(addr, step, reqs[1..], h, t);
      (rest.0, ev + rest.1)
  }

  /** The number of raw-data reads in a trace. */
  function RawReads(ev: seq<Event>): nat
  {
    if ev == [] then 0
    else (if ev[0].Read? && ev[0].reg == RawDataReg then 1 else 0) + RawReads(ev[1..])
  }

  lemma {:induction false} RawReadsConcat(a: seq<Event>, b: seq<Event>)
    ensures RawReads(a + b) == RawReads(a) + RawReads(b)
    decreases |a|
  {
    if a == [] {
      assert a + b == b;
    } else {
      assert (a + b)[1..] == a[1..] + b;
      RawReadsConcat(a[1..], b);
    }
  }

  lemma {:induction false} EnvEventsNoRawRead(addr: int, h: Option<real>, t: Option<real>)
    ensures RawReads(EnvEvents(addr, h, t)) == 0
  {
    var ev := EnvEvents(addr, h, t);
    EnvEventsFacts(addr, h, t);
    if ev != [] {
      assert ev[0] in ev && ev[1..] == [];
    }
  }

  /**
   From a state with both flags set (as construction leaves it), n getter
   calls make n raw-data reads: the cache never serves a raw value.
   */
  lemma {:induction false} EveryRawReadFetches(addr: int, c: Cache, reqs: seq<RawRequest>, h: Option<real>, t: Option<real>)
    requires AlwaysFetching(c) && ValidRequests(reqs)
    ensures RawReads(RawRun(addr, c, reqs, h, t).1) == |reqs|
    ensures AlwaysFetching(RawRun(addr, c, reqs, h, t).0)
    decreases |reqs|
  {
    if reqs != [] {
      var f, data := reqs[0].field, reqs[0].data;
      RawReadFetches(addr, c, f, h, t, data);
      var step := RawRead(c, f, data).0;
      assert ValidRequests(reqs[1..]) by {
        forall i | 0 <= i < |reqs[1..]|
          ensures IsRawField(reqs[1..][i].field) && |reqs[1..][i].data| == 2
        {
          assert reqs[1..][i] == reqs[i + 1];
        }
      }
      EveryRawReadFetches(addr, step, reqs[1..], h, t);
      var ev := RawFetchEvents(addr, h, t, data);
      RawReadsConcat(EnvEvents(addr, h, t), [Read(addr, RawDataReg, data)]);
      EnvEventsNoRawRead(addr, h, t);
      assert RawReads([Read(addr, RawDataReg, data)]) == 1;
      RawReadsConcat(ev, RawRun(addr, step, reqs[1..], h, t).1);
    }
  }

  /** The reader for mode 4 (class CCS811Raw), over its application state. */
  class Raw {
    const app: Application

    predicate Valid()
      reads app
    {
      RawComplete(Cache(app.values, app.reload))
    }

    constructor (app: Application)
      ensures this.app == app
    {
      this.app := app;
    }

    /** `data_is_ready`: always a fresh status read of bit 0x08. */
    method DataIsReady() returns (r: Result<bool>)
      modifies app.dev.i2c
      ensures exists q :: app.dev.i2c.log == old(app.dev.i2c.log) + StatusEvents(app.dev.addr, q)
                          && r == StatusResult(q, DataReadyBit)
    {
      r := app.dev.DataIsReady();
    }

    /** `_get_raw_data`. */
    method GetRawData() returns (r: RawData)
      modifies app.dev.i2c
      ensures exists data :: |data| == 2
                && app.dev.i2c.log == old(app.dev.i2c.log) + RawFetchEvents(app.dev.addr, app.humidity, app.temperature, data)
                && r == DecodeRaw(data)
    {
      app.PushEnvironment();
      var data := app.dev.i2c.ReadMem(app.dev.addr, RawDataReg, 2);
      r := DecodeRaw(data);
    }

    /** The `current` getter. */
    method GetCurrent() returns (r: Value)
      requires Valid()
      modifies app`values, app`reload, app.dev.i2c
      ensures Valid()
      ensures exists data :: |data| == 2
                && app.dev.i2c.log == old(app.dev.i2c.log)
                                      + RawReadEvents(app.dev.addr, old(Cache(app.values, app.reload)), Current, app.humidity, app.temperature, data)
                && (Cache(app.values, app.reload), r) == RawRead(old(Cache(app.values, app.reload)), Current, data)
    {
      ghost var c0, log0 := Cache(app.values, app.reload), app.dev.i2c.log;
      ghost var data := Zeros(2);
      if app.reload[Current] {
        var raw := GetRawData();
        data :| |data| == 2
                && app.dev.i2c.log == log0 + RawFetchEvents(app.dev.addr, app.humidity, app.temperature, data)
                && raw == DecodeRaw(data);
        app.values := app.values[Voltage := Num(raw.voltage)][Current := Num(raw.current)];
        app.values := app.values[Voltage := Flag(false)];
      } else {
        app.reload := app.reload[Current := true];
        assert app.dev.i2c.log == log0 + [];
      }
      r := app.values[Current];
      assert (Cache(app.values, app.reload), r) == RawRead(c0, Current, data);
    }

    /** The `voltage` getter. */
    method GetVoltage() returns (r: Value)
      requires Valid()
      modifies app`values, app`reload, app.dev.i2c
      ensures Valid()
      ensures exists data :: |data| == 2
                && app.dev.i2c.log == old(app.dev.i2c.log)
                                      + RawReadEvents(app.dev.addr, old(Cache(app.values, app.reload)), Voltage, app.humidity, app.temperature, data)
                && (Cache(app.values, app.reload), r) == RawRead(old(Cache(app.values, app.reload)), Voltage, data)
    {
      ghost var c0, log0 := Cache(app.values, app.reload), app.dev.i2c.log;
      ghost var data := Zeros(2);
      if app.reload[Voltage] {
        var raw := GetRawData();
        data :| |data| == 2
                && app.dev.i2c.log == log0 + RawFetchEvents(app.dev.addr, app.humidity, app.temperature, data)
                && raw == DecodeRaw(data);
        app.values := app.values[Voltage := Num(raw.voltage)][Current := Num(raw.current)];
        app.values := app.values[Current := Flag(false)];
      } else {
        app.reload := app.reload[Voltage := true];
        assert app.dev.i2c.log == log0 + [];
      }
      r := app.values[Voltage];
      assert (Cache(app.values, app.reload), r) == RawRead(c0, Voltage, data);
    }
  }

  /** The actions of `CCS811Raw(i2c, addr)`: the application layer, then (if it came up) mode byte 0x40. */
  function RawOpenEvents(addr: int, p1: ProbeRun, p2: ProbeRun): seq<Event>
  {
    AppOpenEvents(addr, p1, p2) + if AppOpenFailure(addr, p1, p2).Some? then [] else [Write(addr, MeasModeReg, [0x40])]
  }

  /** `CCS811Raw(i2c, addr)` at time `now`: the application layer, then mode byte 0x40. */
  method OpenRaw(i2c: Bus, addr: int, now: int) returns (r: Result<Raw>)
    modifies i2c
    ensures exists p1, p2 ::
              i2c.log == old(i2c.log) + RawOpenEvents(addr, p1, p2) && r.Failure() == AppOpenFailure(addr, p1, p2)
    ensures r.Ok? ==> fresh(r.value) && fresh(r.value.app) && fresh(r.value.app.dev)
                      && r.value.app.dev.i2c == i2c && r.value.app.dev.addr == addr
                      && r.value.Valid() && AlwaysFetching(Cache(r.value.app.values, r.value.app.reload))
                      && r.value.app.humidity == None && r.value.app.temperature == None
                      && r.value.app.timeBaseline == now
  {
    var a := OpenApplication(i2c, addr, now);
    ghost var p1, p2 :| i2c.log == old(i2c.log) + AppOpenEvents(addr, p1, p2)
                        && a.Failure() == AppOpenFailure(addr, p1, p2);
    if a.Err? {
      assert i2c.log == old(i2c.log) + RawOpenEvents(addr, p1, p2);
      return Err(a.error);
    }
    var raw := new Raw(a.value);
    assert MeasModeByte(Mode4, false, false) == Ok(0x40);
    var m := a.value.SetMeasMode(Mode4);
    r := Ok(raw);
  }
}
