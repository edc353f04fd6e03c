/**
 The mode dispatch of ccs811factory.py: mode 0 gives a bootloader object,
 mode 4 a raw reader, and every other value an algorithm-result reader with
 the mode and flags passed on unchanged.
 */
module Ccs811Factory {
  import opened I2cBus
  import opened Ccs811
  import opened Ccs811Bootloader
  import opened Ccs811Application
  import opened Ccs811AlgoResult
  import opened Ccs811Raw

  /** Which class the factory constructs, with the arguments it passes on. */
  datatype Kind = BootloaderKind | RawKind | AlgoKind(mode: int, withInt: bool, withThresh: bool)

  function Select(mode: int, withInt: bool, withThresh: bool): Kind
  {
    if mode == Mode0 then BootloaderKind
    else if mode == Mode4 then RawKind
    else AlgoKind(mode, withInt, withThresh)
  }

  /**
   Only mode 0 selects the bootloader and only mode 4 the raw reader; any
   other integer, in range or not, selects the algorithm-result reader with
   the arguments unchanged.
   */
  lemma SelectCases(mode: int, withInt: bool, withThresh: bool)
    ensures Select(mode, withInt, withThresh).BootloaderKind? <==> mode == 0
    ensures Select(mode, withInt, withThresh).RawKind? <==> mode == 4
    ensures Select(mode, withInt, withThresh).AlgoKind? <==> mode != 0 && mode != 4
    ensures Select(mode, withInt, withThresh).AlgoKind? ==>
              Select(mode, withInt, withThresh) == AlgoKind(mode, withInt, withThresh)
  {
  }

  /** The actions of constructing kind `k`, for the probe runs the device answers. */
  function FactoryEvents(addr: int, k: Kind, p1: ProbeRun, p2: ProbeRun): seq<Event>
  {
    match k
    case BootloaderKind => ProbeEvents(addr, p1)
    case RawKind => RawOpenEvents(addr, p1, p2)
    case AlgoKind(m, i, t) => AlgoOpenEvents(addr, m, i, t, p1, p2)
  }

  /** The error constructing kind `k` raises, if any. */
  function FactoryFailure(addr: int, k: Kind, p1: ProbeRun, p2: ProbeRun): Option<Error>
  {
    match k
    case BootloaderKind => ProbeFailure(addr, p1)
    case RawKind => AppOpenFailure(addr, p1, p2)
    case AlgoKind(m, i, t) => AlgoOpenFailure(addr, m, i, t, p1, p2)
  }

  /**
   Every branch starts with the base probe; when the probe fails, the error
   is the probe's and nothing follows it.
   */
  lemma {:induction false} EveryKindProbesFirst(addr: int, k: Kind, p1: ProbeRun, p2: ProbeRun)
    ensures var t := FactoryEvents(addr, k, p1, p2);
            |ProbeEvents(addr, p1)| <= |t| && t[..|ProbeEvents(addr, p1)|] == ProbeEvents(addr, p1)
    ensures ProbeFailure(addr, p1).Some? ==>
              FactoryEvents(addr, k, p1, p2) == ProbeEvents(addr, p1)
              && FactoryFailure(addr, k, p1, p2) == ProbeFailure(addr, p1)
  {
    var probe := ProbeEvents(addr, p1);
    AppOpenFailsIffAProbeFails(addr, p1, p2);
    if !k.BootloaderKind? {
      var tail := if ProbeFailure(addr, p1).Some? then []
                  else ProbeEvents(addr, p2) + if ProbeFailure(addr, p2).Some? then [] else StartEvents(addr);
      var rest := if AppOpenFailure(addr, p1, p2).Some? then []
                  else if k.RawKind? then [Write(addr, MeasModeReg, [0x40])]
                  else AlgoSetupEvents(addr, k.mode, k.withInt, k.withThresh);
      assert AppOpenEvents(addr, p1, p2) == probe + tail;
      ConcatAssoc(probe, tail, rest);
      assert FactoryEvents(addr, k, p1, p2) == probe + (tail + rest);
      if ProbeFailure(addr, p1).Some? {
        assert tail + rest == [];
      }
    }
  }

  /** The probe reads, scans and sleeps; it writes nothing. */
  lemma {:induction false} ProbeWritesNothing(addr: int, p: ProbeRun)
    ensures forall e | e in ProbeEvents(addr, p) :: !e.Write? && !e.WriteRaw?
  {
    var t := ProbeEvents(addr, p);
    forall e | e in t
      ensures !e.Write? && !e.WriteRaw?
    {
      if addr in p.found && p.id == HwIdValue {
        assert t == [Sleep(20), Scan(p.found), Read(addr, HwIdReg, [p.id])] + StatusEvents(addr, p.valid);
      }
    }
  }

  /**
   Mode 0 issues neither the app-start command 0xF4 nor a mode-byte write,
   yet fails like every mode when the app-valid bit is clear.
   */
  lemma {:induction false} BootloaderModeStaysInBoot(addr: int, withInt: bool, withThresh: bool, p1: ProbeRun, p2: ProbeRun)
    ensures forall e | e in FactoryEvents(addr, Select(Mode0, withInt, withThresh), p1, p2) ::
              !e.WriteRaw? && !(e.Write? && e.reg == MeasModeReg)
    ensures addr in p1.found && p1.id == HwIdValue && StatusResult(p1.valid, AppValidBit) == Ok(false) ==>
              FactoryFailure(addr, Select(Mode0, withInt, withThresh), p1, p2) == Some(AppNotValid)
  {
    ProbeWritesNothing(addr, p1);
  }

  /** Every other successful construction has sent the app-start command 0xF4. */
  lemma {:induction false} OtherModesStartApp(addr: int, mode: int, withInt: bool, withThresh: bool, p1: ProbeRun, p2: ProbeRun)
    requires mode != Mode0
    requires FactoryFailure(addr, Select(mode, withInt, withThresh), p1, p2).None?
    ensures WriteRaw(addr, [AppStartCmd]) in FactoryEvents(addr, Select(mode, withInt, withThresh), p1, p2)
  {
    var k := Select(mode, withInt, withThresh);
    AppOpenEndsWithStart(addr, p1, p2);
    var t := AppOpenEvents(addr, p1, p2);
    var ev := FactoryEvents(addr, k, p1, p2);
    assert ev[|t| - 2] == t[|t| - 2];
  }

  /** An algorithm-result mode fails after a good start exactly when it is not a 4-bit value. */
  lemma {:induction false} AlgoModeRange(addr: int, mode: int, withInt: bool, withThresh: bool, p1: ProbeRun, p2: ProbeRun)
    requires mode != Mode0 && mode != Mode4 && AppOpenFailure(addr, p1, p2).None?
    ensures FactoryFailure(addr, Select(mode, withInt, withThresh), p1, p2).None? <==> 0 <= mode < 16
    ensures !(0 <= mode < 16) ==>
              FactoryFailure(addr, Select(mode, withInt, withThresh), p1, p2) == Some(ByteOutOfRange)
  {
  }

  /** The object the factory returns. */
  datatype Driver = AsBootloader(boot: Bootloader) | AsRaw(raw: Raw) | AsAlgoResult(algo: AlgoResult)

  /** The mode-0 branch: a bootloader object. */
  method CreateBootloader(i2c: Bus, addr: int) returns (r: Result<Driver>)
    modifies i2c
    ensures exists p1, p2 ::
              i2c.log == old(i2c.log) + FactoryEvents(addr, BootloaderKind, p1, p2)
              && r.Failure() == FactoryFailure(addr, BootloaderKind, p1, p2)
    ensures r.Ok? ==> r.value.AsBootloader? && r.value.boot.dev.i2c == i2c && r.value.boot.dev.addr == addr
  {
    var b := OpenBootloader(i2c, addr);
    ghost var p :| i2c.log == old(i2c.log) + ProbeEvents(addr, p) && b.Failure() == ProbeFailure(addr, p);
    assert i2c.log == old(i2c.log) + FactoryEvents(addr, BootloaderKind, p, p);
    r := if b.Ok? then Ok(AsBootloader(b.value)) else Err(b.error);
  }

  /** The mode-4 branch: a raw reader. */
  method CreateRaw(i2c: Bus, addr: int, now: int) returns (r: Result<Driver>)
    modifies i2c
    ensures exists p1, p2 ::
              i2c.log == old(i2c.log) + FactoryEvents(addr, RawKind, p1, p2)
              && r.Failure() == FactoryFailure(addr, RawKind, p1, p2)
    ensures r.Ok? ==> r.value.AsRaw? && r.value.raw.app.dev.i2c == i2c && r.value.raw.app.dev.addr == addr
                      && r.value.raw.Valid()
  {
    var raw := OpenRaw(i2c, addr, now);
    ghost var p1, p2 :| i2c.log == old(i2c.log) + RawOpenEvents(addr, p1, p2) && raw.Failure() == AppOpenFailure(addr, p1, p2);
    assert i2c.log == old(i2c.log) + FactoryEvents(addr, RawKind, p1, p2);
    r := if raw.Ok? then Ok(AsRaw(raw.value)) else Err(raw.error);
  }

  /** The branch for every other mode: an algorithm-result reader. */
  method CreateAlgoResult(i2c: Bus, addr: int, mode: int, withInt: bool, withThresh: bool, now: int)
    returns (r: Result<Driver>)
    modifies i2c
    ensures exists p1, p2 ::
              i2c.log == old(i2c.log) + FactoryEvents(addr, AlgoKind(mode, withInt, withThresh), p1, p2)
              && r.Failure() == FactoryFailure(addr, AlgoKind(mode, withInt, withThresh), p1, p2)
    ensures r.Ok? ==> r.value.AsAlgoResult? && r.value.algo.app.dev.i2c == i2c && r.value.algo.app.dev.addr == addr
                      && r.value.algo.Valid()
  {
    var algo := OpenAlgoResult(i2c, addr, mode, withInt, withThresh, now);
    ghost var p1, p2 :| i2c.log == old(i2c.log) + AlgoOpenEvents(addr, mode, withInt, withThresh, p1, p2)
                        && algo.Failure() == AlgoOpenFailure(addr, mode, withInt, withThresh, p1, p2);
    assert i2c.log == old(i2c.log) + FactoryEvents(addr, AlgoKind(mode, withInt, withThresh), p1, p2);
    r := if algo.Ok? then Ok(AsAlgoResult(algo.value)) else Err(algo.error);
  }

  /** `CCS811Factory(i2c, addr, mode, with_int, with_thresh)` at time `now`. */
  method Create(i2c: Bus, now: int, addr: int := DefaultAddr, mode: int := Mode1,
                withInt: bool := false, withThresh: bool := false)
    returns (r: Result<Driver>)
    modifies i2c
    ensures exists p1, p2 ::
              i2c.log == old(i2c.log) + FactoryEvents(addr, Select(mode, withInt, withThresh), p1, p2)
              && r.Failure() == FactoryFailure(addr, Select(mode, withInt, withThresh), p1, p2)
    ensures r.Ok? ==> (r.value.AsBootloader? <==> mode == Mode0) && (r.value.AsRaw? <==> mode == Mode4)
    ensures r.Ok? && r.value.AsBootloader? ==> r.value.boot.dev.i2c == i2c && r.value.boot.dev.addr == addr
    ensures r.Ok? && r.value.AsRaw? ==> r.value.raw.app.dev.i2c == i2c && r.value.raw.app.dev.addr == addr
                                        && r.value.raw.Valid()
    ensures r.Ok? && r.value.AsAlgoResult? ==> r.value.algo.app.dev.i2c == i2c && r.value.algo.app.dev.addr == addr
                                               && r.value.algo.Valid()
  {
    SelectCases(mode, withInt, withThresh);
    if mode == Mode0 {
      r := CreateBootloader(i2c, addr);
    } else if mode == Mode4 {
      r := CreateRaw(i2c, addr, now);
    } else {
      r := CreateAlgoResult(i2c, addr, mode, withInt, withThresh, now);
    }
  }
}
