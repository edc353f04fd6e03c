/**
 The application side of the CCS811 (ccs811application.py): the
 measurement-mode byte, the environmental compensation data, the baseline
 register, and the state shared by the two application-mode readers (the
 humidity and temperature the user sets, the construction timestamp and the
 per-field value cache).
 */
module Ccs811Application {
  import opened I2cBus
  import opened Ccs811
  import opened Ccs811Bootloader

  const MeasModeReg: bv8 := 0x01
  const EnvDataReg: bv8 := 0x05
  const BaselineReg: bv8 := 0x11
  /** Below this many milliseconds since construction the baseline getter warns. */
  const BaselineWarmup: int := 72000

  // ---------------------------------------------------------------------
  // Measurement mode

  /**
   `bytes([mode << 4 | with_int << 3 | with_thresh << 2])`: Python refuses the
   value unless it is in 0..255, which for these three terms means mode in 0..15.
   The byte holds the mode in its upper nibble, the interrupt flags in bits 3
   and 2, and zero in bits 1 and 0.
   */
  function MeasModeByte(mode: int, withInt: bool, withThresh: bool): (r: Result<bv8>)
    ensures r.Ok? <==> 0 <= mode < 16
    ensures r.Ok? ==> r.value >> 4 == mode as bv8 && r.value & 3 == 0
    ensures r.Ok? ==> (r.value & 8 != 0 <==> withInt) && (r.value & 4 != 0 <==> withThresh)
    ensures r.Err? ==> r.error == ByteOutOfRange
  {
    if 0 <= mode < 16 then
      var intBit: bv8 := if withInt then 8 else 0;
      var threshBit: bv8 := if withThresh then 4 else 0;
      Ok(((mode as bv8) << 4) | intBit | threshBit)
    else
      Err(ByteOutOfRange)
  }

  /** Two settings that give the same mode byte are the same settings. */
  lemma MeasModeByteInjective(m1: int, i1: bool, t1: bool, m2: int, i2: bool, t2: bool)
    requires MeasModeByte(m1, i1, t1).Ok? && MeasModeByte(m1, i1, t1) == MeasModeByte(m2, i2, t2)
    ensures m1 == m2 && i1 == i2 && t1 == t2
  {
    var b := MeasModeByte(m1, i1, t1).value;
    assert (m1 as bv8) == b >> 4 == (m2 as bv8);
  }

  /** A one-byte write to 0x01 when the byte is valid, nothing otherwise. */
  function MeasModeEvents(addr: int, m: Result<bv8>): seq<Event>
  {
    if m.Ok? then [Write(addr, MeasModeReg, [m.value])] else []
  }

  // ---------------------------------------------------------------------
  // 16-bit big-endian words (baseline, thresholds, environment data)

  function WordOf(hi: bv8, lo: bv8): (w: nat)
    ensures w < 0x1_0000
  {
    hi as nat * 256 + lo as nat
  }

  /**
   `register[0] = w >> 8; register[1] = w & 0xFF` on a bytearray.  MicroPython
   keeps the low 8 bits of a value stored into a bytearray slot, so every
   integer gives two bytes: its low 16 bits, high byte first.  For every int,
   Python's `w >> 8` is floor division by 256 and `w & 0xFF` the remainder
   modulo 256, which are Dafny's `/` and `%` by a positive divisor.
   */
  function WordBytes(w: int): (r: seq<bv8>)
    ensures |r| == 2 && WordOf(r[0], r[1]) == w % 0x1_0000
  {
    ByteOfInt((w / 256) % 256);
    ByteOfInt(w % 256);
    LowWord(w);
    [((w / 256) % 256) as bv8, (w % 256) as bv8]
  }

  lemma ByteOfInt(n: int)
    requires 0 <= n < 256
    ensures (n as bv8) as int == n
  {
    assert n == n % 256;
  }

  lemma ByteNumberInjective(x: bv8, y: bv8)
    requires x as int == y as int
    ensures x == y
  {
  }

  /** The low byte of `w >> 8` above the low byte of `w` is `w` modulo 2^16. */
  lemma LowWord(w: int)
    ensures ((w / 256) % 256) * 256 + w % 256 == w % 0x1_0000
  {
    var q := w / 256;
    var q2 := q / 256;
    assert w == 256 * q + w % 256;
    assert q == 256 * q2 + q % 256;
    assert w == 0x1_0000 * q2 + ((q % 256) * 256 + w % 256);
  }

  /** Splitting a word read from two bytes gives the two bytes again. */
  lemma WordRoundTrip(hi: bv8, lo: bv8)
    ensures WordBytes(WordOf(hi, lo)) == [hi, lo]
  {
    WordBytesUnique(WordOf(hi, lo), hi, lo);
  }

  /** The two bytes of a word are the only ones that read back as its low 16 bits. */
  lemma WordBytesUnique(w: int, hi: bv8, lo: bv8)
    requires WordOf(hi, lo) == w % 0x1_0000
    ensures WordBytes(w) == [hi, lo]
  {
    var r := WordBytes(w);
    WordDigits(r[0], r[1]);
    WordDigits(hi, lo);
    ByteNumberInjective(r[0], hi);
    ByteNumberInjective(r[1], lo);
  }

  lemma WordDigits(hi: bv8, lo: bv8)
    ensures (WordOf(hi, lo) / 256) % 256 == hi as int && WordOf(hi, lo) % 256 == lo as int
  {
    var w := WordOf(hi, lo);
    assert w / 256 == hi as int;
  }

  // ---------------------------------------------------------------------
  // Environmental data

  /** Python `int(x)` on a float: truncation toward zero. */
  function Trunc(x: real): (n: int)
    ensures x >= 0.0 ==> 0 <= n && n as real <= x < n as real + 1.0
    ensures x < 0.0 ==> n <= 0 && n as real - 1.0 < x <= n as real
  {
    if x >= 0.0 then x.Floor else -((-x).Floor)
  }

  /** Python `int((x % 1) * 512)`: `x % 1` is the non-negative fraction, so this is 0..511. */
  function FracCode(x: real): (c: int)
    ensures 0 <= c < 512
    ensures c as real <= (x - x.Floor as real) * 512.0 < c as real + 1.0
  {
    ((x - x.Floor as real) * 512.0).Floor
  }

  /**
   Python `|` on integers of either sign: Python ints behave as infinite
   two's-complement bit strings, so 0 and -1 are the two fixed points of
   halving and every other value loses a bit to each halving.
   */
  function IntOr(a: int, b: int): int
    decreases Size(a) + Size(b)
  {
    if a == 0 || b == -1 then b
    else if b == 0 || a == -1 then a
    else
      HalfShrinks(a);
      HalfShrinks(b);
      2 * IntOr(a / 2, b / 2) + (if a % 2 == 1 || b % 2 == 1 then 1 else 0)
  }

  /** Distance from the nearest fixed point of halving. */
  function Size(x: int): nat
  {
    if x < 0 then -x - 1 else x
  }

  lemma HalfShrinks(x: int)
    requires x != 0 && x != -1
    ensures Size(x / 2) < Size(x)
  {
  }

  /** Bit `i` of `x` in two's complement (bit 0 is the lowest). */
  predicate Bit(x: int, i: nat)
    decreases i
  {
    if i == 0 then x % 2 == 1 else Bit(x / 2, i - 1)
  }

  lemma {:induction false} BitsOfZero(i: nat)
    ensures !Bit(0, i) && Bit(-1, i)
  {
    if i > 0 {
      BitsOfZero(i - 1);
    }
  }

  /** `IntOr` is the bitwise OR: each bit of the result is set iff it is set in either operand. */
  lemma {:induction false} IntOrBits(a: int, b: int, i: nat)
    ensures Bit(IntOr(a, b), i) <==> Bit(a, i) || Bit(b, i)
    decreases i
  {
    BitsOfZero(i);
    if a == 0 || b == -1 || b == 0 || a == -1 {
    } else if i > 0 {
      var q := IntOr(a / 2, b / 2);
      var r := if a % 2 == 1 || b % 2 == 1 then 1 else 0;
      assert IntOr(a, b) == 2 * q + r;
      assert (2 * q + r) / 2 == q;
      IntOrBits(a / 2, b / 2, i - 1);
    }
  }

  /** On non-negative operands an OR is at least each operand and at most their sum. */
  lemma {:induction false} IntOrBounds(a: nat, b: nat)
    ensures a <= IntOr(a, b) && b <= IntOr(a, b) <= a + b
    decreases a + b
  {
    if a != 0 && b != 0 {
      IntOrBounds(a / 2, b / 2);
    }
  }

  /**
   The word `_set_env_data` builds, `(int(part) << 1) | fraction code`.  The
   fraction code overlaps the integer bits above bit 0; the model keeps that.
   */
  function EnvWord(whole: int, frac: real): int
  {
    IntOr(2 * whole, FracCode(frac))
  }

  /**
   `_set_env_data(humidity, temperature)`: humidity with `int(h)` and the
   fraction of `h`; temperature with `int(t + 25)` but the fraction of `t`.
   Each word is stored high byte first, modulo 2^16 as a bytearray keeps it.
   */
  function EnvBytes(h: real, t: real): (r: seq<bv8>)
    ensures |r| == 4
    ensures WordOf(r[0], r[1]) == EnvWord(Trunc(h), h) % 0x1_0000
    ensures WordOf(r[2], r[3]) == EnvWord(Trunc(t + 25.0), t) % 0x1_0000
  {
    WordBytes(EnvWord(Trunc(h), h)) + WordBytes(EnvWord(Trunc(t + 25.0), t))
  }

  /**
   For integer parts 0..32512 a word is below 2^16, so the bytes carry it
   without loss; from 32768 up the word is too wide and loses its top bits.
   For 32513..32767 whether it fits depends on the fraction code ORed in.
   */
  lemma EnvWordRange(whole: int, frac: real)
    ensures 0 <= whole <= 32512 ==> 0 <= EnvWord(whole, frac) < 0x1_0000
                                    && EnvWord(whole, frac) % 0x1_0000 == EnvWord(whole, frac)
    ensures whole >= 32768 ==> EnvWord(whole, frac) >= 0x1_0000
  {
    if whole >= 0 {
      IntOrBounds(2 * whole, FracCode(frac));
    }
  }

  function Pow2(k: nat): (p: nat)
    ensures 1 <= p
  {
    if k == 0 then 1 else 2 * Pow2(k - 1)
  }

  /** When the bits cannot meet, below 2^k and a multiple of 2^k, the OR is the sum. */
  lemma {:induction false} IntOrDisjoint(a: nat, m: nat, k: nat)
    requires a < Pow2(k)
    ensures IntOr(a, m * Pow2(k)) == a + m * Pow2(k)
  {
    var b := m * Pow2(k);
    if k > 0 && a != 0 && b != 0 {
      assert b == 2 * (m * Pow2(k - 1));
      IntOrDisjoint(a / 2, m, k - 1);
    }
  }

  lemma WordOfExamples()
    ensures WordOf(0x01, 0x5A) == 346 && WordOf(0x00, 0xDE) == 222
    ensures WordOf(0x00, 0x64) == 100 && WordOf(0xFF, 0xF6) == 0xFFF6
  {
  }

  /** The two words of the 45.5 / 22.25 example. */
  lemma EnvWordExamples()
    ensures EnvWord(45, 45.5) == 346 && EnvWord(47, 22.25) == 222
  {
    assert FracCode(45.5) == 256 && FracCode(22.25) == 128;
    assert Pow2(7) == 128 && Pow2(8) == 256;
    IntOrDisjoint(90, 1, 8);
    IntOrDisjoint(94, 1, 7);
  }

  /** 45.5 % and 22.25 degrees encode as 01 5A 00 DE. */
  lemma EnvBytesExample()
    ensures EnvBytes(45.5, 22.25) == [0x01, 0x5A, 0x00, 0xDE]
  {
    WordOfExamples();
    WordBytesUnique(346, 0x01, 0x5A);
    WordBytesUnique(222, 0x00, 0xDE);
    assert Trunc(45.5) == 45 && Trunc(22.25 + 25.0) == 47;
    EnvWordExamples();
  }

  /**
   50 % and -30 degrees: `int(-5.0) << 1` is -10, whose low 16 bits FF F6 are
   what the bytearray keeps.
   */
  lemma EnvBytesNegativeExample()
    ensures EnvBytes(50.0, -30.0) == [0x00, 0x64, 0xFF, 0xF6]
  {
    assert Trunc(50.0) == 50 && FracCode(50.0) == 0;
    assert Trunc(-30.0 + 25.0) == -5 && FracCode(-30.0) == 0;
    assert EnvWord(50, 50.0) == 100 && EnvWord(-5, -30.0) == -10;
    WordOfExamples();
    WordBytesUnique(100, 0x00, 0x64);
    WordBytesUnique(-10, 0xFF, 0xF6);
  }

  /** Python truthiness of an optional number: present and not zero. */
  predicate Truthy(x: Option<real>)
  {
    x.Some? && x.value != 0.0
  }

  /**
   The environment step both readers run before fetching: a warning when
   exactly one of humidity and temperature is None, then the 0x05 write when
   both are truthy.
   */
  function EnvEvents(addr: int, h: Option<real>, t: Option<real>): seq<Event>
  {
    (if h.None? != t.None? then [Warn(EnvIncomplete)] else [])
    + if Truthy(h) && Truthy(t) then [Write(addr, EnvDataReg, EnvBytes(h.value, t.value))] else []
  }

  predicate IsEnvWrite(e: Event)
  {
    e.Write? && e.reg == EnvDataReg
  }

  /**
   The environment step warns iff exactly one value is missing, writes 0x05
   iff both are truthy, and never reads the bus.
   */
  lemma EnvEventsFacts(addr: int, h: Option<real>, t: Option<real>)
    ensures Warn(EnvIncomplete) in EnvEvents(addr, h, t) <==> h.None? != t.None?
    ensures (exists e :: e in EnvEvents(addr, h, t) && IsEnvWrite(e)) <==> Truthy(h) && Truthy(t)
    ensures forall e | e in EnvEvents(addr, h, t) :: !e.Read?
  {
    var t0 := EnvEvents(addr, h, t);
    if Truthy(h) && Truthy(t) {
      assert IsEnvWrite(t0[|t0| - 1]);
    }
  }

  // ---------------------------------------------------------------------
  // Baseline

  /** The baseline getter: a warning while the sensor is warming up, then a 2-byte read of 0x11. */
  function BaselineEvents(addr: int, elapsed: int, data: seq<bv8>): seq<Event>
  {
    (if elapsed < BaselineWarmup then [Warn(BaselineUnstable)] else []) + [Read(addr, BaselineReg, data)]
  }

  lemma BaselineWarnsIffEarly(addr: int, elapsed: int, data: seq<bv8>)
    ensures Warn(BaselineUnstable) in BaselineEvents(addr, elapsed, data) <==> elapsed < BaselineWarmup
    ensures BaselineEvents(addr, elapsed, data)[|BaselineEvents(addr, elapsed, data)| - 1]
            == Read(addr, BaselineReg, data)
  {
  }

  // ---------------------------------------------------------------------
  // Construction

  /** The actions of `CCS811Application(i2c, addr)` for its two probe runs. */
  function AppOpenEvents(addr: int, p1: ProbeRun, p2: ProbeRun): seq<Event>
  {
    ProbeEvents(addr, p1)
    + if ProbeFailure(addr, p1).Some? then []
      else ProbeEvents(addr, p2) + if ProbeFailure(addr, p2).Some? then [] else StartEvents(addr)
  }

  function AppOpenFailure(addr: int, p1: ProbeRun, p2: ProbeRun): Option<Error>
  {
    if ProbeFailure(addr, p1).Some? then ProbeFailure(addr, p1) else ProbeFailure(addr, p2)
  }

  lemma {:induction false} ProbeIssuesNoRawWrite(addr: int, p: ProbeRun)
    ensures forall e | e in ProbeEvents(addr, p) :: !e.WriteRaw?
  {
    var t := ProbeEvents(addr, p);
    forall e | e in t
      ensures !e.WriteRaw?
    {
      if addr in p.found && p.id == HwIdValue {
        assert t == [Sleep(20), Scan(p.found), Read(addr, HwIdReg, [p.id])] + StatusEvents(addr, p.valid);
      }
    }
  }

  /**
   A successful construction runs the probe twice (the second time for the
   bootloader object it builds) and ends with the app-start command 0xF4 and
   its 1 ms sleep, the only raw write of the sequence.
   */
  lemma {:induction false} AppOpenEndsWithStart(addr: int, p1: ProbeRun, p2: ProbeRun)
    requires AppOpenFailure(addr, p1, p2).None?
    ensures AppOpenEvents(addr, p1, p2) == ProbeEvents(addr, p1) + ProbeEvents(addr, p2) + StartEvents(addr)
    ensures var t := AppOpenEvents(addr, p1, p2);
            t[|t| - 2] == WriteRaw(addr, [AppStartCmd]) && t[|t| - 1] == Sleep(1)
            && forall i :: 0 <= i < |t| - 2 ==> !t[i].WriteRaw?
  {
    var t := AppOpenEvents(addr, p1, p2);
    var probes := ProbeEvents(addr, p1) + ProbeEvents(addr, p2);
    ProbeIssuesNoRawWrite(addr, p1);
    ProbeIssuesNoRawWrite(addr, p2);
    ConcatAssoc(ProbeEvents(addr, p1), ProbeEvents(addr, p2), StartEvents(addr));
    assert t == probes + StartEvents(addr);
    forall i | 0 <= i < |t| - 2
      ensures !t[i].WriteRaw?
    {
      assert t[i] == probes[i] && probes[i] in probes;
    }
  }

  lemma {:induction false} AppOpenFailsIffAProbeFails(addr: int, p1: ProbeRun, p2: ProbeRun)
    ensures AppOpenFailure(addr, p1, p2).Some? <==> ProbeFailure(addr, p1).Some? || ProbeFailure(addr, p2).Some?
    ensures ProbeFailure(addr, p1).Some? ==> AppOpenEvents(addr, p1, p2) == ProbeEvents(addr, p1)
  {
    if ProbeFailure(addr, p1).Some? {
      assert ProbeEvents(addr, p1) + [] == ProbeEvents(addr, p1);
    }
  }

  // ---------------------------------------------------------------------
  // The value cache

  /** The keys of `_values` and `_reload`. */
  datatype Field = Current | Voltage | IsReady | ECO2 | ETVOC

  /** A cached value: None, a number, or a bool. */
  datatype Value = Unset | Num(n: int) | Flag(b: bool)

  /** The application state of a CCS811 (class CCS811Application). */
  class Application {
    const dev: Device
    var humidity: Option<real>
    var temperature: Option<real>
    var timeBaseline: int
    var values: map<Field, Value>
    var reload: map<Field, bool>

    constructor (dev: Device, now: int)
      ensures this.dev == dev && humidity == None && temperature == None && timeBaseline == now
      ensures values == map[Current := Unset, Voltage := Unset]
      ensures reload == map[Current := true, Voltage := true]
    {
      this.dev := dev;
      humidity := None;
      temperature := None;
      timeBaseline := now;
      values := map[Current := Unset, Voltage := Unset];
      reload := map[Current := true, Voltage := true];
    }

    /** `_set_meas_mode`: one byte to 0x01, or a refusal before any write. */
    method SetMeasMode(mode: int, withInt: bool := false, withThresh: bool := false) returns (r: Result<()>)
      modifies dev.i2c
      ensures dev.i2c.log == old(dev.i2c.log) + MeasModeEvents(dev.addr, MeasModeByte(mode, withInt, withThresh))
      ensures r.Failure() == MeasModeByte(mode, withInt, withThresh).Failure()
    {
      var b := MeasModeByte(mode, withInt, withThresh);
      if b.Err? {
        return Err(b.error);
      }
      dev.i2c.WriteMem(dev.addr, MeasModeReg, [b.value]);
      r := Ok(());
    }

    /** `_set_env_data`: four bytes to 0x05. */
    method SetEnvData(h: real, t: real)
      modifies dev.i2c
      ensures dev.i2c.log == old(dev.i2c.log) + [Write(dev.addr, EnvDataReg, EnvBytes(h, t))]
    {
      dev.i2c.WriteMem(dev.addr, EnvDataReg, EnvBytes(h, t));
    }

    /** The environment step that precedes every fetch of measured data. */
    method PushEnvironment()
      modifies dev.i2c
      ensures dev.i2c.log == old(dev.i2c.log) + EnvEvents(dev.addr, humidity, temperature)
    {
      if humidity.None? != temperature.None? {
        dev.i2c.Print(EnvIncomplete);
      }
      ghost var warned := dev.i2c.log;
      if Truthy(humidity) && Truthy(temperature) {
        SetEnvData(humidity.value, temperature.value);
      }
      ConcatAssoc(old(dev.i2c.log), warned[|old(dev.i2c.log)|..], dev.i2c.log[|warned|..]);
    }

    /** The `baseline` getter at time `now`. */
    method GetBaseline(now: int) returns (b: nat)
      modifies dev.i2c
      ensures exists data :: |data| == 2 && dev.i2c.log == old(dev.i2c.log) + BaselineEvents(dev.addr, now - timeBaseline, data)
                             && b == WordOf(data[0], data[1])
    {
      if now - timeBaseline < BaselineWarmup {
        dev.i2c.Print(BaselineUnstable);
      }
      var data := dev.i2c.ReadMem(dev.addr, BaselineReg, 2);
      b := WordOf(data[0], data[1]);
    }

    /** The `baseline` setter: two bytes to 0x11, the low 16 bits of `b`. */
    method SetBaseline(b: int)
      modifies dev.i2c
      ensures dev.i2c.log == old(dev.i2c.log) + [Write(dev.addr, BaselineReg, WordBytes(b))]
    {
      dev.i2c.WriteMem(dev.addr, BaselineReg, WordBytes(b));
    }
  }

  /**
   `CCS811Application(i2c, addr)` at time `now`: the base probe, the initial
   state, a second probe for the bootloader object, then app-start.
   */
  method OpenApplication(i2c: Bus, addr: int, now: int) returns (r: Result<Application>)
    modifies i2c
    ensures exists p1, p2 :: i2c.log == old(i2c.log) + AppOpenEvents(addr, p1, p2)
                             && r.Failure() == AppOpenFailure(addr, p1, p2)
    ensures r.Ok? ==> fresh(r.value) && fresh(r.value.dev) && r.value.dev.i2c == i2c && r.value.dev.addr == addr
    ensures r.Ok? ==> r.value.humidity == None && r.value.temperature == None && r.value.timeBaseline == now
    ensures r.Ok? ==> r.value.values == map[Current := Unset, Voltage := Unset]
                      && r.value.reload == map[Current := true, Voltage := true]
  {
    var d := Open(i2c, addr);
    ghost var p1 :| i2c.log == old(i2c.log) + ProbeEvents(addr, p1) && d.Failure() == ProbeFailure(addr, p1);
    if d.Err? {
      assert i2c.log == old(i2c.log) + AppOpenEvents(addr, p1, p1);
      return Err(d.error);
    }
    var app := new Application(d.value, now);
    ghost var log1 := i2c.log;
    var b := OpenBootloader(i2c, addr);
    ghost var p2 :| i2c.log == log1 + ProbeEvents(addr, p2) && b.Failure() == ProbeFailure(addr, p2);
    if b.Err? {
      assert i2c.log == old(i2c.log) + AppOpenEvents(addr, p1, p2) by {
        ConcatAssoc(old(i2c.log), ProbeEvents(addr, p1), ProbeEvents(addr, p2));
      }
      return Err(b.error);
    }
    b.value.AppStart();
    assert i2c.log == old(i2c.log) + AppOpenEvents(addr, p1, p2) by {
      ConcatAssoc(old(i2c.log) + ProbeEvents(addr, p1), ProbeEvents(addr, p2), StartEvents(addr));
      ConcatAssoc(old(i2c.log), ProbeEvents(addr, p1), ProbeEvents(addr, p2) + StartEvents(addr));
    }
    r := Ok(app);
  }
}
