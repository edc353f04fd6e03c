/**
 The reader for measurement modes 1 to 3 (ccs811algoresult.py): the 8-byte
 algorithm result, the per-field cache that serves each fetched field once,
 the cached data-ready flag and the write-only interrupt thresholds.
 */
module Ccs811AlgoResult {
  import opened I2cBus
  import opened Ccs811
  import opened Ccs811Bootloader
  import opened Ccs811Application

  const AlgResultReg: bv8 := 0x02
  const ThresholdsReg: bv8 := 0x10

  // ---------------------------------------------------------------------
  // The algorithm result

  /** The fields of one ALG_RESULT_DATA read; `voltage` is the 10-bit ADC code. */
  datatype AlgData = AlgData(eco2: nat, etvoc: nat, isReady: bool, errorFlag: bool, current: nat, voltage: nat)

  /**
   Decoding the 8 bytes of register 0x02.  On a byte, `>> 2` is division by 4,
   `& 0b11` the remainder by 4, and `<< 8 | lo` adds a byte below.  Every bit
   of bytes 0-3, 6 and 7 survives the decoding.
   */
  function DecodeAlg(d: seq<bv8>): (a: AlgData)
    requires |d| == 8
    ensures a.eco2 < 0x1_0000 && a.etvoc < 0x1_0000 && a.current < 64 && a.voltage < 1024
    ensures a.isReady <==> d[4] != 0
    ensures a.errorFlag <==> d[5] != 0
    ensures WordBytes(a.eco2) == [d[0], d[1]] && WordBytes(a.etvoc) == [d[2], d[3]]
    ensures 4 * a.current + a.voltage / 256 == d[6] as int && a.voltage % 256 == d[7] as int
  {
    WordRoundTrip(d[0], d[1]);
    WordRoundTrip(d[2], d[3]);
    AlgData(WordOf(d[0], d[1]), WordOf(d[2], d[3]), d[4] != 0, d[5] != 0,
            d[6] as int / 4, (d[6] as int % 4) * 256 + d[7] as int)
  }

  /** The cached value a decoded result gives each field. */
  function FieldValue(a: AlgData, f: Field): Value
  {
    match f
    case ECO2 => Num(a.eco2)
    case ETVOC => Num(a.etvoc)
    case IsReady => Flag(a.isReady)
    case Current => Num(a.current)
    case Voltage => Num(a.voltage)
  }

  // ---------------------------------------------------------------------
  // The cache

  /** `_values` and `_reload`. */
  datatype Cache = Cache(values: map<Field, Value>, reload: map<Field, bool>)

  /** All five keys are present in both dictionaries. */
  predicate Complete(c: Cache)
  {
    forall f: Field :: f in c.values && f in c.reload
  }

  predicate IsHead(f: Field)
  {
    f == ECO2 || f == ETVOC || f == IsReady
  }

  /** The stores before the error check: eCO2, eTVOC and is_ready, each marked fresh. */
  function StoreHead(c: Cache, a: AlgData): Cache
  {
    Cache(c.values[ECO2 := Num(a.eco2)][ETVOC := Num(a.etvoc)][IsReady := Flag(a.isReady)],
          c.reload[ECO2 := false][ETVOC := false][IsReady := false])
  }

  /** The stores after the error check: current and voltage, each marked fresh. */
  function StoreTail(c: Cache, a: AlgData): Cache
  {
    Cache(c.values[Current := Num(a.current)][Voltage := Num(a.voltage)],
          c.reload[Current := false][Voltage := false])
  }

  /**
   What the device answers to one `_get_alg_result_data`: the 8 result bytes
   and, when byte 5 is nonzero, the error-id byte.
   */
  datatype FetchReply = FetchReply(data: seq<bv8>, code: bv8)

  predicate WellFormedReply(reply: FetchReply)
  {
    |reply.data| == 8
  }

  /** The error the error-id lookup raises after the head stores, if any. */
  function ReplyFault(reply: FetchReply): (e: Option<Error>)
    requires WellFormedReply(reply)
    ensures e.Some? <==> reply.data[5] != 0 && reply.code < 6
  {
    if reply.data[5] != 0 && ErrorOfCode(reply.code).Some? then Some(Fault(ErrorOfCode(reply.code).value)) else None
  }

  /**
   The actions of `_get_alg_result_data`: the environment step, the 8-byte
   read of 0x02 and, when byte 5 is nonzero, the read of 0xE0.
   */
  function FetchEvents(addr: int, h: Option<real>, t: Option<real>, reply: FetchReply): seq<Event>
    requires WellFormedReply(reply)
  {
    EnvEvents(addr, h, t)
    + ([Read(addr, AlgResultReg, reply.data)]
       + if reply.data[5] != 0 then [Read(addr, ErrorIdReg, [reply.code])] else [])
  }

  lemma FetchLog(log0: seq<Event>, addr: int, h: Option<real>, t: Option<real>, reply: FetchReply)
    requires WellFormedReply(reply)
    ensures log0 + EnvEvents(addr, h, t) + [Read(addr, AlgResultReg, reply.data)]
            + (if reply.data[5] != 0 then [Read(addr, ErrorIdReg, [reply.code])] else [])
            == log0 + FetchEvents(addr, h, t, reply)
  {
    var env := EnvEvents(addr, h, t);
    var rd := [Read(addr, AlgResultReg, reply.data)];
    var fault := if reply.data[5] != 0 then [Read(addr, ErrorIdReg, [reply.code])] else [];
    ConcatAssoc(env, rd, fault);
    ConcatAssoc(log0, env, rd + fault);
    ConcatAssoc(log0 + env, rd, fault);
  }

  /** The cache after `_get_alg_result_data`, including when it raises part way. */
  function Fetched(c: Cache, reply: FetchReply): Cache
    requires WellFormedReply(reply)
  {
    var a := DecodeAlg(reply.data);
    if ReplyFault(reply).Some? then StoreHead(c, a)
    else StoreTail(StoreHead(c, a), a)
  }

  /**
   `_get_value(f)`: fetch if `f` is marked for reload, then mark `f` for reload
   and return its cached value.  A raising fetch leaves the flag as the fetch left it.
   */
  function ReadField(c: Cache, f: Field, reply: FetchReply): (Cache, Result<Value>)
    requires Complete(c) && WellFormedReply(reply)
  {
    if c.reload[f] then
      var c' := Fetched(c, reply);
      if ReplyFault(reply).Some? then (c', Err(ReplyFault(reply).value))
      else (c'.(reload := c'.reload[f := true]), Ok(c'.values[f]))
    else
      (c.(reload := c.reload[f := true]), Ok(c.values[f]))
  }

  function ReadFieldEvents(addr: int, c: Cache, f: Field, h: Option<real>, t: Option<real>, reply: FetchReply): seq<Event>
    requires Complete(c) && WellFormedReply(reply)
  {
    if c.reload[f] then FetchEvents(addr, h, t, reply) else []
  }

  predicate IsResultRead(e: Event)
  {
    e.Read? && e.reg == AlgResultReg
  }

  lemma {:induction false} FetchedComplete(c: Cache, reply: FetchReply)
    requires Complete(c) && WellFormedReply(reply)
    ensures Complete(Fetched(c, reply))
  {
    var c' := Fetched(c, reply);
    forall f: Field
      ensures f in c'.values && f in c'.reload
    {
      assert f in c.values && f in c.reload;
    }
  }

  /**
   A read of `f` fetches iff `f`'s flag is set; whatever happens, `f`'s flag
   is set afterwards unless the fetch raised.
   */
  lemma {:induction false} ReadFetchesIffFlagged(addr: int, c: Cache, f: Field, h: Option<real>, t: Option<real>, reply: FetchReply)
    requires Complete(c) && WellFormedReply(reply)
    ensures (exists e :: e in ReadFieldEvents(addr, c, f, h, t, reply) && IsResultRead(e))
            <==> c.reload[f]
    ensures !c.reload[f] ==> ReadFieldEvents(addr, c, f, h, t, reply) == []
    ensures ReadField(c, f, reply).1.Ok? ==> ReadField(c, f, reply).0.reload[f]
    ensures Complete(ReadField(c, f, reply).0)
  {
    FetchedComplete(c, reply);
    var ev := ReadFieldEvents(addr, c, f, h, t, reply);
    var env := EnvEvents(addr, h, t);
    EnvEventsFacts(addr, h, t);
    if !c.reload[f] {
      assert ev == [];
    } else {
      assert ev[|env|] == Read(addr, AlgResultReg, reply.data);
      assert IsResultRead(ev[|env|]) && ev[|env|] in ev;
    }
  }

  /**
   A fetch that does not raise fills all five fields from the decoded result
   and clears every flag but the one of the field being read.
   */
  lemma {:induction false} FetchFillsAllFields(c: Cache, f: Field, reply: FetchReply)
    requires Complete(c) && WellFormedReply(reply) && c.reload[f] && ReplyFault(reply).None?
    ensures var (c', r) := ReadField(c, f, reply);
            r == Ok(FieldValue(DecodeAlg(reply.data), f))
            && (forall g :: c'.values[g] == FieldValue(DecodeAlg(reply.data), g))
            && (forall g | g != f :: !c'.reload[g])
            && c'.reload[f]
  {
    var a := DecodeAlg(reply.data);
    var c1 := StoreTail(StoreHead(c, a), a);
    assert Fetched(c, reply) == c1;
    assert ReadField(c, f, reply) == (c1.(reload := c1.reload[f := true]), Ok(c1.values[f]));
    forall g: Field
      ensures c1.values[g] == FieldValue(a, g) && !c1.reload[g]
    {
      assert g in c.values && g in c.reload;
    }
  }

  /**
   A field filled by another field's fetch is served once from the cache
   (no bus action) and fetched again on the read after that.
   */
  lemma {:induction false} ServedOnceThenRefetched(
    addr: int, c: Cache, f: Field, g: Field, h: Option<real>, t: Option<real>,
    r1: FetchReply, r2: FetchReply, r3: FetchReply)
    requires Complete(c) && WellFormedReply(r1) && WellFormedReply(r2) && WellFormedReply(r3)
    requires c.reload[f] && ReplyFault(r1).None? && f != g
    ensures var c1 := ReadField(c, f, r1).0;
            Complete(c1)
            && ReadFieldEvents(addr, c1, g, h, t, r2) == []
            && ReadField(c1, g, r2).1 == Ok(FieldValue(DecodeAlg(r1.data), g))
            && var c2 := ReadField(c1, g, r2).0;
               Complete(c2) && ReadFieldEvents(addr, c2, g, h, t, r3) == FetchEvents(addr, h, t, r3)
  {
    FetchFillsAllFields(c, f, r1);
    ReadFetchesIffFlagged(addr, c, f, h, t, r1);
    var c1 := ReadField(c, f, r1).0;
    ReadFetchesIffFlagged(addr, c1, g, h, t, r2);
  }

  /**
   When result byte 5 is nonzero and the error id names an error, the read
   raises after eCO2, eTVOC and is_ready were stored but with current,
   voltage and their flags as they were; the 0x02 read precedes the 0xE0 read.
   */
  lemma {:induction false} FaultAfterHeadStores(addr: int, c: Cache, f: Field, h: Option<real>, t: Option<real>, reply: FetchReply)
    requires Complete(c) && WellFormedReply(reply) && c.reload[f]
    requires reply.data[5] != 0 && reply.code < 6
    ensures var (c', r) := ReadField(c, f, reply);
            r == Err(Fault(ErrorOfCode(reply.code).value))
            && (forall g | IsHead(g) :: c'.values[g] == FieldValue(DecodeAlg(reply.data), g) && !c'.reload[g])
            && c'.values[Current] == c.values[Current] && c'.values[Voltage] == c.values[Voltage]
            && c'.reload[Current] == c.reload[Current] && c'.reload[Voltage] == c.reload[Voltage]
    ensures ReadFieldEvents(addr, c, f, h, t, reply)
            == EnvEvents(addr, h, t) + [Read(addr, AlgResultReg, reply.data), Read(addr, ErrorIdReg, [reply.code])]
  {
    var a := DecodeAlg(reply.data);
    var e := Fault(ErrorOfCode(reply.code).value);
    assert ReplyFault(reply) == ReplyFault(reply) == Some(e);
    assert Fetched(c, reply) == StoreHead(c, a);
    assert ReadField(c, f, reply) == (StoreHead(c, a), Err(e));
    StoreHeadFacts(c, a);
  }

  /** The head stores set eCO2, eTVOC and is_ready and leave current and voltage alone. */
  lemma {:induction false} StoreHeadFacts(c: Cache, a: AlgData)
    requires Complete(c)
    ensures forall g | IsHead(g) :: StoreHead(c, a).values[g] == FieldValue(a, g) && !StoreHead(c, a).reload[g]
    ensures StoreHead(c, a).values[Current] == c.values[Current] && StoreHead(c, a).values[Voltage] == c.values[Voltage]
    ensures StoreHead(c, a).reload[Current] == c.reload[Current] && StoreHead(c, a).reload[Voltage] == c.reload[Voltage]
  {
    assert !IsHead(Current) && !IsHead(Voltage);
  }

  // ---------------------------------------------------------------------
  // The cached data-ready flag

  /** `data_is_ready` on the algorithm-result reader, for status reading `q`. */
  function ReadyStep(c: Cache, q: StatusReading): (Cache, Result<Value>)
    requires Complete(c)
  {
    if c.reload[IsReady] then
      match StatusResult(q, DataReadyBit)
      case Err(e) => (c, Err(e))
      case Ok(b) => (c.(values := c.values[IsReady := Flag(b)]), Ok(Flag(b)))
    else
      (c.(reload := c.reload[IsReady := true]), Ok(c.values[IsReady]))
  }

  function ReadyEvents(addr: int, c: Cache, q: StatusReading): seq<Event>
    requires Complete(c)
  {
    if c.reload[IsReady] then StatusEvents(addr, q) else []
  }

  /**
   With its flag set, `data_is_ready` reads the status register and returns
   the data-ready bit (0x08), leaving the flag set; with the flag clear it
   returns the cached value without a bus action and sets the flag.
   */
  lemma {:induction false} ReadyStepFacts(addr: int, c: Cache, q: StatusReading)
    requires Complete(c)
    ensures Complete(ReadyStep(c, q).0)
    ensures c.reload[IsReady] ==>
              ReadyEvents(addr, c, q)[0] == Read(addr, StatusReg, [q.status])
              && ReadyStep(c, q).0.reload == c.reload
              && (StatusResult(q, DataReadyBit).Ok? ==>
                    ReadyStep(c, q).1 == Ok(Flag(q.status & DataReadyBit != 0)))
    ensures !c.reload[IsReady] ==>
              ReadyEvents(addr, c, q) == []
              && ReadyStep(c, q) == (c.(reload := c.reload[IsReady := true]), Ok(c.values[IsReady]))
  {
  }

  /**
   A cached data-ready value is served once without a bus action; the call
   after that queries the status register again.
   */
  lemma {:induction false} ReadyServedOnce(addr: int, c: Cache, q1: StatusReading, q2: StatusReading)
    requires Complete(c) && !c.reload[IsReady]
    ensures ReadyEvents(addr, c, q1) == [] && ReadyStep(c, q1).1 == Ok(c.values[IsReady])
    ensures Complete(ReadyStep(c, q1).0)
            && ReadyEvents(addr, ReadyStep(c, q1).0, q2) == StatusEvents(addr, q2)
  {
    ReadyStepFacts(addr, c, q1);
  }

  // ---------------------------------------------------------------------
  // Thresholds

  /**
   `_set_thresholds`: both words high byte first, each kept modulo 2^16 by the
   bytearray stores.
   */
  function ThresholdBytes(lm: int, mh: int): (r: seq<bv8>)
    ensures |r| == 4 && WordOf(r[0], r[1]) == lm % 0x1_0000 && WordOf(r[2], r[3]) == mh % 0x1_0000
  {
    WordBytes(lm) + WordBytes(mh)
  }

  /** 1200/2800, the defaults 1500/2500, and -1, which the bytearray keeps as FF FF. */
  lemma ThresholdBytesExamples()
    ensures ThresholdBytes(1200, 2800) == [0x04, 0xB0, 0x0A, 0xF0]
    ensures ThresholdBytes(DefaultLowThreshold, DefaultHighThreshold) == [0x05, 0xDC, 0x09, 0xC4]
    ensures ThresholdBytes(-1, DefaultHighThreshold) == [0xFF, 0xFF, 0x09, 0xC4]
  {
    ThresholdWordExamples();
    ThresholdBytesOf(1200, 2800, 0x04, 0xB0, 0x0A, 0xF0);
    ThresholdBytesOf(1500, 2500, 0x05, 0xDC, 0x09, 0xC4);
    ThresholdBytesOf(-1, 2500, 0xFF, 0xFF, 0x09, 0xC4);
  }

  /** The threshold bytes are the only ones whose two words are the thresholds modulo 2^16. */
  lemma ThresholdBytesOf(lm: int, mh: int, a: bv8, b: bv8, c: bv8, d: bv8)
    requires WordOf(a, b) == lm % 0x1_0000 && WordOf(c, d) == mh % 0x1_0000
    ensures ThresholdBytes(lm, mh) == [a, b, c, d]
  {
    WordBytesUnique(lm, a, b);
    WordBytesUnique(mh, c, d);
  }

  lemma ThresholdWordExamples()
    ensures WordOf(0x04, 0xB0) == 1200 % 0x1_0000 && WordOf(0x0A, 0xF0) == 2800 % 0x1_0000
    ensures WordOf(0x05, 0xDC) == 1500 % 0x1_0000 && WordOf(0x09, 0xC4) == 2500 % 0x1_0000
    ensures WordOf(0xFF, 0xFF) == -1 % 0x1_0000
  {
  }

  function ThresholdEvents(addr: int, lm: int, mh: int): seq<Event>
  {
    [Write(addr, ThresholdsReg, ThresholdBytes(lm, mh))]
  }

  // ---------------------------------------------------------------------
  // Construction

  /** The actions of `CCS811AlgoResult(...)` after the application layer came up. */
  function AlgoSetupEvents(addr: int, mode: int, withInt: bool, withThresh: bool): seq<Event>
  {
    MeasModeEvents(addr, MeasModeByte(mode, withInt, withThresh))
    + if MeasModeByte(mode, withInt, withThresh).Err? then []
      else ThresholdEvents(addr, DefaultLowThreshold, DefaultHighThreshold)
  }

  /**
   A valid mode gives exactly two writes: the mode byte to 0x01, then the
   default thresholds 1500/2500 to 0x10; an invalid one writes nothing.
   */
  lemma {:induction false} AlgoSetupWrites(addr: int, mode: int, withInt: bool, withThresh: bool)
    ensures 0 <= mode < 16 ==>
              AlgoSetupEvents(addr, mode, withInt, withThresh)
              == [Write(addr, MeasModeReg, [MeasModeByte(mode, withInt, withThresh).value]),
                  Write(addr, ThresholdsReg, [0x05, 0xDC, 0x09, 0xC4])]
    ensures !(0 <= mode < 16) ==> AlgoSetupEvents(addr, mode, withInt, withThresh) == []
  {
    ThresholdBytesExamples();
  }

  /** The reader for modes 1-3 (class CCS811AlgoResult), over its application state. */
  class AlgoResult {
    const app: Application
    var lmTh: int
    var mhTh: int

    predicate Valid()
      reads app
    {
      Complete(Cache(app.values, app.reload))
    }

    /** Adds the three algorithm fields to the cache and takes the default thresholds. */
    constructor (app: Application)
      modifies app`values, app`reload
      ensures this.app == app && lmTh == DefaultLowThreshold && mhTh == DefaultHighThreshold
      ensures app.values == old(app.values) + map[IsReady := Unset, ECO2 := Unset, ETVOC := Unset]
      ensures app.reload == old(app.reload) + map[IsReady := true, ECO2 := true, ETVOC := true]
    {
      this.app := app;
      lmTh := DefaultLowThreshold;
      mhTh := DefaultHighThreshold;
      new;
      app.values := app.values + map[IsReady := Unset, ECO2 := Unset, ETVOC := Unset];
      app.reload := app.reload + map[IsReady := true, ECO2 := true, ETVOC := true];
    }

    /** The device side of the constructor: the mode byte, then the thresholds. */
    method Configure(mode: int, withInt: bool, withThresh: bool) returns (r: Result<()>)
      requires lmTh == DefaultLowThreshold && mhTh == DefaultHighThreshold
      modifies app.dev.i2c
      ensures app.dev.i2c.log == old(app.dev.i2c.log) + AlgoSetupEvents(app.dev.addr, mode, withInt, withThresh)
      ensures r.Failure() == MeasModeByte(mode, withInt, withThresh).Failure()
    {
      var m := app.SetMeasMode(mode, withInt, withThresh);
      if m.Err? {
        return Err(m.error);
      }
      ghost var log1 := app.dev.i2c.log;
      SetThresholds(lmTh, mhTh);
      ConcatAssoc(old(app.dev.i2c.log), MeasModeEvents(app.dev.addr, MeasModeByte(mode, withInt, withThresh)),
                  ThresholdEvents(app.dev.addr, DefaultLowThreshold, DefaultHighThreshold));
      r := Ok(());
    }

    /** `_get_alg_result_data`. */
    method FetchAlgResult() returns (r: Result<()>)
      requires Valid()
      modifies app`values, app`reload, app.dev.i2c
      ensures exists reply :: WellFormedReply(reply)
                && app.dev.i2c.log == old(app.dev.i2c.log) + FetchEvents(app.dev.addr, app.humidity, app.temperature, reply)
                && Cache(app.values, app.reload) == Fetched(old(Cache(app.values, app.reload)), reply)
                && r.Failure() == ReplyFault(reply)
    {
      ghost var c0, log0 := Cache(app.values, app.reload), app.dev.i2c.log;
      ghost var h, t := app.humidity, app.temperature;
      app.PushEnvironment();
      var data := app.dev.i2c.ReadMem(app.dev.addr, AlgResultReg, 8);
      var a := DecodeAlg(data);
      var head := StoreHead(Cache(app.values, app.reload), a);
      app.values, app.reload := head.values, head.reload;
      ghost var code: bv8 := 0;
      if data[5] != 0 {
        ghost var log2 := app.dev.i2c.log;
        var e := app.dev.ErrorId();
        code :| app.dev.i2c.log == log2 + [Read(app.dev.addr, ErrorIdReg, [code])] && e == ErrorOfCode(code);
        if e.Some? {
          ghost var reply := FetchReply(data, code);
          FetchLog(log0, app.dev.addr, h, t, reply);
          assert Fetched(c0, reply) == head && ReplyFault(reply) == Some(Fault(e.value));
          r := Err(Fault(e.value));
          assert WellFormedReply(reply) && app.dev.i2c.log == log0 + FetchEvents(app.dev.addr, h, t, reply)
                 && Cache(app.values, app.reload) == Fetched(c0, reply) && r.Failure() == ReplyFault(reply);
          return;
        }
      }
      var tail := StoreTail(head, a);
      app.values, app.reload := tail.values, tail.reload;
      ghost var reply := FetchReply(data, code);
      FetchLog(log0, app.dev.addr, h, t, reply);
      assert Fetched(c0, reply) == tail && ReplyFault(reply) == None;
      r := Ok(());
      assert WellFormedReply(reply) && app.dev.i2c.log == log0 + FetchEvents(app.dev.addr, h, t, reply)
             && Cache(app.values, app.reload) == Fetched(c0, reply) && r.Failure() == ReplyFault(reply);
    }

    /** `_get_value(f)`, behind the `eco2`, `etvoc`, `current` and `voltage` properties. */
    method GetValue(f: Field) returns (r: Result<Value>)
      requires Valid()
      modifies app`values, app`reload, app.dev.i2c
      ensures Valid()
      ensures exists reply :: WellFormedReply(reply)
                && app.dev.i2c.log == old(app.dev.i2c.log)
                                      + ReadFieldEvents(app.dev.addr, old(Cache(app.values, app.reload)), f, app.humidity, app.temperature, reply)
                && (Cache(app.values, app.reload), r)
                   == ReadField(old(Cache(app.values, app.reload)), f, reply)
    {
      ghost var c0, log0 := Cache(app.values, app.reload), app.dev.i2c.log;
      ghost var h, t := app.humidity, app.temperature;
      ghost var reply := FetchReply(Zeros(8), 0);
      if app.reload[f] {
        var e := FetchAlgResult();
        reply :| WellFormedReply(reply)
                 && app.dev.i2c.log == log0 + FetchEvents(app.dev.addr, h, t, reply)
                 && Cache(app.values, app.reload) == Fetched(c0, reply)
                 && e.Failure() == ReplyFault(reply);
        FetchedComplete(c0, reply);
        if e.Err? {
          r := Err(e.error);
          assert (Cache(app.values, app.reload), r) == ReadField(c0, f, reply);
          return;
        }
      } else {
        assert app.dev.i2c.log == log0 + [];
      }
      app.reload := app.reload[f := true];
      r := Ok(app.values[f]);
      assert (Cache(app.values, app.reload), r) == ReadField(c0, f, reply);
      assert app.dev.i2c.log == log0 + ReadFieldEvents(app.dev.addr, c0, f, h, t, reply);
      assert WellFormedReply(reply);
      assert c0 == old(Cache(app.values, app.reload)) && h == app.humidity && t == app.temperature;
    }

    /** `data_is_ready`: a status read when the flag is set, the cached value otherwise. */
    method DataIsReady() returns (r: Result<Value>)
      requires Valid()
      modifies app`values, app`reload, app.dev.i2c
      ensures Valid()
      ensures exists q :: app.dev.i2c.log == old(app.dev.i2c.log) + ReadyEvents(app.dev.addr, old(Cache(app.values, app.reload)), q)
                          && (Cache(app.values, app.reload), r) == ReadyStep(old(Cache(app.values, app.reload)), q)
    {
      ghost var c0, log0 := Cache(app.values, app.reload), app.dev.i2c.log;
      ghost var q := StatusReading(0, 0);
      if app.reload[IsReady] {
        var ready := app.dev.DataIsReady();
        q :| app.dev.i2c.log == log0 + StatusEvents(app.dev.addr, q) && ready == StatusResult(q, DataReadyBit);
        if ready.Err? {
          r := Err(ready.error);
          assert (Cache(app.values, app.reload), r) == ReadyStep(c0, q);
          return;
        }
        app.values := app.values[IsReady := Flag(ready.value)];
      } else {
        app.reload := app.reload[IsReady := true];
        assert app.dev.i2c.log == log0 + [];
      }
      r := Ok(app.values[IsReady]);
      assert (Cache(app.values, app.reload), r) == ReadyStep(c0, q);
      assert app.dev.i2c.log == log0 + ReadyEvents(app.dev.addr, c0, q);
    }

    /** The `low_threshold` getter: the local copy. */
    method LowThreshold() returns (lm: int)
      ensures lm == lmTh
    {
      lm := lmTh;
    }

    /** The `high_threshold` getter: the local copy. */
    method HighThreshold() returns (mh: int)
      ensures mh == mhTh
    {
      mh := mhTh;
    }

    /** `_set_thresholds(lm, mh)`. */
    method SetThresholds(lm: int, mh: int)
      modifies app.dev.i2c
      ensures app.dev.i2c.log == old(app.dev.i2c.log) + ThresholdEvents(app.dev.addr, lm, mh)
    {
      app.dev.i2c.WriteMem(app.dev.addr, ThresholdsReg, ThresholdBytes(lm, mh));
    }

    /** The `low_threshold` setter: the low copy changes, then both are written. */
    method SetLowThreshold(lm: int)
      modifies this`lmTh, app.dev.i2c
      ensures lmTh == lm && mhTh == old(mhTh)
      ensures app.dev.i2c.log == old(app.dev.i2c.log) + ThresholdEvents(app.dev.addr, lm, mhTh)
    {
      lmTh := lm;
      SetThresholds(lmTh, mhTh);
    }

    /** The `high_threshold` setter: the high copy changes, then both are written. */
    method SetHighThreshold(mh: int)
      modifies this`mhTh, app.dev.i2c
      ensures mhTh == mh && lmTh == old(lmTh)
      ensures app.dev.i2c.log == old(app.dev.i2c.log) + ThresholdEvents(app.dev.addr, lmTh, mh)
    {
      mhTh := mh;
      SetThresholds(lmTh, mhTh);
    }
  }

  /** The five-field cache a new reader starts with: nothing cached, every field to be fetched. */
  function InitialCache(): Cache
  {
    Cache(map[Current := Unset, Voltage := Unset, IsReady := Unset, ECO2 := Unset, ETVOC := Unset],
          map[Current := true, Voltage := true, IsReady := true, ECO2 := true, ETVOC := true])
  }

  /**
   A new reader caches nothing and will fetch on the first read of every
   field; its cache is the application's two fields merged with the three
   algorithm fields.
   */
  lemma InitialCacheFacts()
    ensures InitialCache().values == map[Current := Unset, Voltage := Unset] + map[IsReady := Unset, ECO2 := Unset, ETVOC := Unset]
    ensures InitialCache().reload == map[Current := true, Voltage := true] + map[IsReady := true, ECO2 := true, ETVOC := true]
    ensures Complete(InitialCache())
    ensures forall f :: InitialCache().values[f] == Unset && InitialCache().reload[f]
  {
    var c := InitialCache();
    assert c.values == map[Current := Unset, Voltage := Unset] + map[IsReady := Unset, ECO2 := Unset, ETVOC := Unset];
    assert c.reload == map[Current := true, Voltage := true] + map[IsReady := true, ECO2 := true, ETVOC := true];
    forall f: Field
      ensures f in c.values && f in c.reload && c.values[f] == Unset && c.reload[f]
    {
      match f
      case Current =>
      case Voltage =>
      case IsReady =>
      case ECO2 =>
      case ETVOC =>
    }
  }

  /** The actions of `CCS811AlgoResult(...)`: the application layer, then (if it came up) the setup writes. */
  function AlgoOpenEvents(addr: int, mode: int, withInt: bool, withThresh: bool, p1: ProbeRun, p2: ProbeRun): seq<Event>
  {
    AppOpenEvents(addr, p1, p2)
    + if AppOpenFailure(addr, p1, p2).Some? then [] else AlgoSetupEvents(addr, mode, withInt, withThresh)
  }

  /** The error `CCS811AlgoResult(...)` raises, if any: the application layer's, else the mode byte's. */
  function AlgoOpenFailure(addr: int, mode: int, withInt: bool, withThresh: bool, p1: ProbeRun, p2: ProbeRun): Option<Error>
  {
    if AppOpenFailure(addr, p1, p2).Some? then AppOpenFailure(addr, p1, p2)
    else MeasModeByte(mode, withInt, withThresh).Failure()
  }

  /**
   `CCS811AlgoResult(i2c, addr, mode, with_int, with_thresh)` at time `now`:
   the application layer, the three extra cache fields, the mode byte, and the
   default thresholds.
   */
  method OpenAlgoResult(i2c: Bus, addr: int, mode: int, withInt: bool, withThresh: bool, now: int)
    returns (r: Result<AlgoResult>)
    modifies i2c
    ensures exists p1, p2 ::
              i2c.log == old(i2c.log) + AlgoOpenEvents(addr, mode, withInt, withThresh, p1, p2)
              && r.Failure() == AlgoOpenFailure(addr, mode, withInt, withThresh, p1, p2)
    ensures r.Ok? ==> fresh(r.value) && fresh(r.value.app) && fresh(r.value.app.dev)
                      && r.value.app.dev.i2c == i2c && r.value.app.dev.addr == addr
                      && r.value.Valid() && Cache(r.value.app.values, r.value.app.reload) == InitialCache()
                      && r.value.lmTh == DefaultLowThreshold && r.value.mhTh == DefaultHighThreshold
                      && r.value.app.humidity == None && r.value.app.temperature == None
                      && r.value.app.timeBaseline == now
  {
    var a := OpenApplication(i2c, addr, now);
    ghost var p1, p2 :| i2c.log == old(i2c.log) + AppOpenEvents(addr, p1, p2)
                        && a.Failure() == AppOpenFailure(addr, p1, p2);
    if a.Err? {
      assert i2c.log == old(i2c.log) + AlgoOpenEvents(addr, mode, withInt, withThresh, p1, p2);
      return Err(a.error);
    }
    var algo := new AlgoResult(a.value);
    InitialCacheFacts();
    var c := algo.Configure(mode, withInt, withThresh);
    ConcatAssoc(old(i2c.log), AppOpenEvents(addr, p1, p2), AlgoSetupEvents(addr, mode, withInt, withThresh));
    assert i2c.log == old(i2c.log) + AlgoOpenEvents(addr, mode, withInt, withThresh, p1, p2);
    if c.Err? {
      return Err(c.error);
    }
    r := Ok(algo);
  }
}
