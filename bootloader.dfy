/**
 The bootloader side of the CCS811 (ccs811bootloader.py): erase, verify and
 start commands, and the firmware upgrade sequence.  The firmware file is
 modelled as the byte sequence it holds.
 */
module Ccs811Bootloader {
  import opened I2cBus
  import opened Ccs811

  const AppEraseReg: bv8 := 0xF1
  const AppDataReg: bv8 := 0xF2
  const AppVerifyCmd: bv8 := 0xF3
  const AppStartCmd: bv8 := 0xF4
  const EraseMagic: seq<bv8> := [0xE7, 0xA7, 0xE6, 0x09]
  const ChunkSize: nat := 8
  const PollDelay: nat := 100

  function EraseEvents(addr: int): seq<Event>
  {
    [Write(addr, AppEraseReg, EraseMagic), Sleep(500)]
  }

  function VerifyEvents(addr: int): seq<Event>
  {
    [WriteRaw(addr, [AppVerifyCmd]), Sleep(70)]
  }

  function StartEvents(addr: int): seq<Event>
  {
    [WriteRaw(addr, [AppStartCmd]), Sleep(1)]
  }

  // ---------------------------------------------------------------------
  // Upload in chunks

  function Flatten(cs: seq<seq<bv8>>): seq<bv8>
  {
    if cs == [] then [] else cs[0] + Flatten(cs[1..])
  }

  /**
   `file.read(8)` at offset `pos`: the bytes that follow `pos`, at most 8 of
   them, and fewer only when the file ends first.
   */
  function FileRead(image: seq<bv8>, pos: nat): (data: seq<bv8>)
    requires pos <= |image|
    ensures |data| <= ChunkSize && pos + |data| <= |image| && data == image[pos..pos + |data|]
    ensures |data| < ChunkSize ==> pos + |data| == |image|
  {
    if |image| - pos <= ChunkSize then image[pos..] else image[pos..pos + ChunkSize]
  }

  /**
   The chunks `upgrade_fw` sends: together they are the image, every chunk
   but the last has 8 bytes, the last has 1 to 8, and an empty image has none.
   */
  function Chunks(image: seq<bv8>): (cs: seq<seq<bv8>>)
    ensures Flatten(cs) == image
    ensures forall i :: 0 <= i < |cs| ==> 1 <= |cs[i]| <= ChunkSize
    ensures forall i :: 0 <= i < |cs| - 1 ==> |cs[i]| == ChunkSize
    ensures cs == [] <==> image == []
    decreases |image|
  {
    if image == [] then []
    else
      var data := FileRead(image, 0);
      var cs := [data] + Chunks(image[|data|..]);
      assert cs[1..] == Chunks(image[|data|..]);
      assert image == data + image[|data|..];
      cs
  }

  /** One more `file.read(8)` takes the next chunk off what is left of the image. */
  lemma ChunksStep(image: seq<bv8>, pos: nat)
    requires pos < |image|
    ensures |FileRead(image, pos)| > 0
    ensures Chunks(image[pos..]) == [FileRead(image, pos)] + Chunks(image[pos + |FileRead(image, pos)|..])
  {
    var data := FileRead(image, pos);
    assert FileRead(image[pos..], 0) == data;
    assert image[pos..][|data|..] == image[pos + |data|..];
  }

  function ChunkWrites(addr: int, cs: seq<seq<bv8>>): seq<Event>
  {
    if cs == [] then [] else [Write(addr, AppDataReg, cs[0])] + ChunkWrites(addr, cs[1..])
  }

  /**
   One turn of the upload loop: after writing the next chunk, what is left
   to write is the chunks of the rest of the image.
   */
  lemma UploadStep(addr: int, image: seq<bv8>, pos: nat, log: seq<Event>)
    requires pos < |image|
    ensures var data := FileRead(image, pos);
            0 < |data| && pos + |data| <= |image|
            && (log + [Write(addr, AppDataReg, data)]) + ChunkWrites(addr, Chunks(image[pos + |data|..]))
               == log + ChunkWrites(addr, Chunks(image[pos..]))
  {
    var data := FileRead(image, pos);
    var rest := Chunks(image[pos + |data|..]);
    ChunksStep(image, pos);
    assert ([data] + rest)[1..] == rest;
    assert ChunkWrites(addr, [data] + rest) == [Write(addr, AppDataReg, data)] + ChunkWrites(addr, rest);
    ConcatAssoc(log, [Write(addr, AppDataReg, data)], ChunkWrites(addr, rest));
  }

  // ---------------------------------------------------------------------
  // Status polling

  /** The actions of `while not <status bit>: time.sleep_ms(100)` for the queries `polls`. */
  function PollEvents(addr: int, polls: seq<StatusReading>): seq<Event>
  {
    if |polls| == 0 then []
    else if |polls| == 1 then StatusEvents(addr, polls[0])
    else StatusEvents(addr, polls[0]) + [Sleep(PollDelay)] + PollEvents(addr, polls[1..])
  }

  lemma {:induction false} PollEventsAppend(addr: int, polls: seq<StatusReading>, q: StatusReading)
    requires |polls| >= 1
    ensures PollEvents(addr, polls + [q]) == PollEvents(addr, polls) + [Sleep(PollDelay)] + StatusEvents(addr, q)
    decreases |polls|
  {
    assert (polls + [q])[1..] == polls[1..] + [q];
    if |polls| > 1 {
      PollEventsAppend(addr, polls[1..], q);
    }
  }

  /**
   A poll with at most `fuel` retries: every query but the last read the
   bit clear, and the last one read it set, raised, or was the last retry.
   */
  predicate ValidPoll(polls: seq<StatusReading>, mask: bv8, fuel: nat)
  {
    1 <= |polls| <= fuel + 1
    && (forall i :: 0 <= i < |polls| - 1 ==> StatusResult(polls[i], mask) == Ok(false))
    && (StatusResult(polls[|polls| - 1], mask) == Ok(false) ==> |polls| == fuel + 1)
  }

  function PollOutcome(polls: seq<StatusReading>, mask: bv8): Result<()>
    requires |polls| >= 1
  {
    match StatusResult(polls[|polls| - 1], mask)
    case Err(e) => Err(e)
    case Ok(isSet) => if isSet then Ok(()) else Err(PollTimeout)
  }

  // ---------------------------------------------------------------------
  // The upgrade sequence

  /**
   Everything the device answers during `upgrade_fw`: the ready-to-measure
   query, the erase-done polls, the verify-done polls and the final app-valid
   query.  Parts the run does not reach are ignored.
   */
  datatype UpgradeRun = UpgradeRun(
    first: StatusReading,
    erase: seq<StatusReading>,
    verify: seq<StatusReading>,
    last: StatusReading)

  predicate WellFormedRun(run: UpgradeRun, fuel: nat)
  {
    ValidPoll(run.erase, AppEraseBit, fuel) && ValidPoll(run.verify, AppVerifyBit, fuel)
  }

  predicate UploadReached(run: UpgradeRun)
    requires |run.erase| >= 1
  {
    StatusResult(run.first, FwModeBit).Ok? && PollOutcome(run.erase, AppEraseBit).Ok?
  }

  /** The actions of `upgrade_fw` up to the end of the erase poll. */
  function UpgradePrefix(addr: int, run: UpgradeRun): seq<Event>
    requires |run.erase| >= 1 && StatusResult(run.first, FwModeBit).Ok?
  {
    StatusEvents(addr, run.first)
    + (if StatusResult(run.first, FwModeBit).value then ResetEvents(addr) else [])
    + EraseEvents(addr) + PollEvents(addr, run.erase)
  }

  /** The actions of `upgrade_fw` from the verify command on. */
  function UpgradeSuffix(addr: int, run: UpgradeRun): seq<Event>
    requires |run.erase| >= 1 && |run.verify| >= 1
  {
    VerifyEvents(addr) + PollEvents(addr, run.verify)
    + if PollOutcome(run.verify, AppVerifyBit).Err? then [] else StatusEvents(addr, run.last)
  }

  /**
   The actions of `upgrade_fw(image)` when the device answers as in `run`:
   a raised error ends the sequence.
   */
  function UpgradeEvents(addr: int, image: seq<bv8>, run: UpgradeRun): seq<Event>
    requires |run.erase| >= 1 && |run.verify| >= 1
  {
    if StatusResult(run.first, FwModeBit).Err? then StatusEvents(addr, run.first)
    else if PollOutcome(run.erase, AppEraseBit).Err? then UpgradePrefix(addr, run)
    else UpgradePrefix(addr, run) + ChunkWrites(addr, Chunks(image)) + UpgradeSuffix(addr, run)
  }

  /** What `upgrade_fw` returns or raises when the device answers as in `run`. */
  function UpgradeOutcome(run: UpgradeRun): Result<bool>
    requires |run.erase| >= 1 && |run.verify| >= 1
  {
    match StatusResult(run.first, FwModeBit)
    case Err(e) => Err(e)
    case Ok(_) =>
      if PollOutcome(run.erase, AppEraseBit).Err? then Err(PollOutcome(run.erase, AppEraseBit).error)
      else if PollOutcome(run.verify, AppVerifyBit).Err? then Err(PollOutcome(run.verify, AppVerifyBit).error)
      else StatusResult(run.last, AppValidBit)
  }

  // ---------------------------------------------------------------------
  // Properties of the upgrade trace

  predicate IsChunkWrite(e: Event)
  {
    e.Write? && e.reg == AppDataReg
  }

  /** `e` is a status-register read whose byte has `mask` set. */
  predicate ShowsBit(e: Event, mask: bv8)
  {
    e.Read? && e.reg == StatusReg && |e.data| == 1 && e.data[0] & mask != 0
  }

  /** The payloads written to the data register, in order. */
  function Uploaded(t: seq<Event>): (cs: seq<seq<bv8>>)
    ensures |cs| <= |t|
  {
    if t == [] then []
    else (if IsChunkWrite(t[0]) then [t[0].data] else []) + Uploaded(t[1..])
  }

  lemma {:induction false} UploadedConcat(a: seq<Event>, b: seq<Event>)
    ensures Uploaded(a + b) == Uploaded(a) + Uploaded(b)
    decreases |a|
  {
    if a == [] {
      assert a + b == b;
    } else {
      var h := if IsChunkWrite(a[0]) then [a[0].data] else [];
      assert (a + b)[0] == a[0] && (a + b)[1..] == a[1..] + b;
      UploadedConcat(a[1..], b);
      assert Uploaded(a + b) == h + Uploaded(a[1..] + b);
      ConcatAssoc(h, Uploaded(a[1..]), Uploaded(b));
    }
  }

  lemma {:induction false} UploadedChunkWrites(addr: int, cs: seq<seq<bv8>>)
    ensures Uploaded(ChunkWrites(addr, cs)) == cs
    ensures forall e | e in ChunkWrites(addr, cs) :: IsChunkWrite(e)
    decreases |cs|
  {
    if cs != [] {
      var t := ChunkWrites(addr, cs);
      assert t[1..] == ChunkWrites(addr, cs[1..]);
      UploadedChunkWrites(addr, cs[1..]);
    }
  }

  lemma {:induction false} NoUploads(t: seq<Event>)
    requires forall e | e in t :: !IsChunkWrite(e)
    ensures Uploaded(t) == []
    decreases |t|
  {
    if t != [] {
      assert t[0] in t;
      assert forall e | e in t[1..] :: e in t;
      NoUploads(t[1..]);
    }
  }

  /** A poll only reads (status and error-id registers) and sleeps. */
  lemma {:induction false} PollEventsOnlyRead(addr: int, polls: seq<StatusReading>)
    ensures forall e | e in PollEvents(addr, polls) :: e.Read? || e == Sleep(PollDelay)
    decreases |polls|
  {
    if |polls| > 1 {
      PollEventsOnlyRead(addr, polls[1..]);
    }
  }

  /** The last query of a poll is a status read inside its events. */
  lemma PollLastRead(addr: int, polls: seq<StatusReading>) returns (k: nat)
    requires |polls| >= 1
    ensures k < |PollEvents(addr, polls)|
    ensures PollEvents(addr, polls)[k] == Read(addr, StatusReg, [polls[|polls| - 1].status])
    ensures PollEvents(addr, polls)[k..] == StatusEvents(addr, polls[|polls| - 1])
  {
    var n := |polls|;
    if n == 1 {
      k := 0;
    } else {
      var init := polls[..n - 1];
      assert polls == init + [polls[n - 1]];
      PollEventsAppend(addr, init, polls[n - 1]);
      k := |PollEvents(addr, init)| + 1;
    }
  }

  /** Splits a trace that reaches the upload into prefix, chunk writes and suffix. */
  lemma UpgradeSplit(addr: int, image: seq<bv8>, run: UpgradeRun)
    requires |run.erase| >= 1 && |run.verify| >= 1 && UploadReached(run)
    ensures UpgradeEvents(addr, image, run)
            == UpgradePrefix(addr, run) + ChunkWrites(addr, Chunks(image)) + UpgradeSuffix(addr, run)
    ensures forall e | e in UpgradePrefix(addr, run) :: !IsChunkWrite(e) && !e.WriteRaw?
    ensures forall e | e in UpgradeSuffix(addr, run) :: !IsChunkWrite(e)
    ensures forall e | e in UpgradeSuffix(addr, run)[2..] :: !e.WriteRaw?
    ensures forall e | e in ChunkWrites(addr, Chunks(image)) :: IsChunkWrite(e)
  {
    PrefixFacts(addr, run);
    SuffixFacts(addr, run);
    UploadedChunkWrites(addr, Chunks(image));
  }

  lemma PrefixFacts(addr: int, run: UpgradeRun)
    requires |run.erase| >= 1 && StatusResult(run.first, FwModeBit).Ok?
    ensures forall e | e in UpgradePrefix(addr, run) :: !IsChunkWrite(e) && !e.WriteRaw?
  {
    PollEventsOnlyRead(addr, run.erase);
    var a := StatusEvents(addr, run.first);
    var b := if StatusResult(run.first, FwModeBit).value then ResetEvents(addr) else [];
    var c := EraseEvents(addr);
    var d := PollEvents(addr, run.erase);
    assert UpgradePrefix(addr, run) == a + b + c + d;
    forall e: Event | e in a + b + c + d
      ensures !IsChunkWrite(e) && !e.WriteRaw?
    {
      assert e in a || e in b || e in c || e in d;
    }
  }

  lemma SuffixFacts(addr: int, run: UpgradeRun)
    requires |run.erase| >= 1 && |run.verify| >= 1
    ensures forall e | e in UpgradeSuffix(addr, run) :: !IsChunkWrite(e)
    ensures UpgradeSuffix(addr, run)[..2] == VerifyEvents(addr)
    ensures forall e | e in UpgradeSuffix(addr, run)[2..] :: !e.WriteRaw?
  {
    PollEventsOnlyRead(addr, run.verify);
    var a := VerifyEvents(addr);
    var d := PollEvents(addr, run.verify);
    var f := if PollOutcome(run.verify, AppVerifyBit).Err? then [] else StatusEvents(addr, run.last);
    var s := UpgradeSuffix(addr, run);
    assert s == a + (d + f);
    assert s[2..] == d + f;
    forall e: Event | e in d + f
      ensures e.Read? || e.Sleep?
    {
      assert e in d || e in f;
    }
  }

  /** A trace that stops before the upload contains no chunk write and no raw command. */
  lemma UpgradeStopsEarly(addr: int, image: seq<bv8>, run: UpgradeRun)
    requires |run.erase| >= 1 && |run.verify| >= 1 && !UploadReached(run)
    ensures forall e | e in UpgradeEvents(addr, image, run) :: !IsChunkWrite(e) && !e.WriteRaw?
  {
    PollEventsOnlyRead(addr, run.erase);
  }

  /** The soft reset is issued if and only if the first query saw ready-to-measure set. */
  lemma UpgradeResetIffReady(addr: int, image: seq<bv8>, run: UpgradeRun)
    requires |run.erase| >= 1 && |run.verify| >= 1
    ensures Write(addr, SwResetReg, ResetMagic) in UpgradeEvents(addr, image, run)
            <==> StatusResult(run.first, FwModeBit) == Ok(true)
  {
    PollEventsOnlyRead(addr, run.erase);
    PollEventsOnlyRead(addr, run.verify);
    UploadedChunkWrites(addr, Chunks(image));
  }

  /**
   What is written to the data register is exactly the chunking of the
   image once the erase poll succeeded, and nothing otherwise.
   */
  lemma UpgradeUploadsImage(addr: int, image: seq<bv8>, run: UpgradeRun)
    requires |run.erase| >= 1 && |run.verify| >= 1
    ensures Uploaded(UpgradeEvents(addr, image, run)) == if UploadReached(run) then Chunks(image) else []
    ensures UploadReached(run) ==> Flatten(Uploaded(UpgradeEvents(addr, image, run))) == image
  {
    if UploadReached(run) {
      UpgradeSplit(addr, image, run);
      var x := UpgradePrefix(addr, run);
      var c := ChunkWrites(addr, Chunks(image));
      var y := UpgradeSuffix(addr, run);
      NoUploads(x);
      NoUploads(y);
      UploadedChunkWrites(addr, Chunks(image));
      UploadedConcat(x, c);
      UploadedConcat(x + c, y);
    } else {
      UpgradeStopsEarly(addr, image, run);
      NoUploads(UpgradeEvents(addr, image, run));
    }
  }

  /** No chunk is written before a status read has shown erase-done. */
  lemma UpgradeChunksAfterEraseDone(addr: int, image: seq<bv8>, run: UpgradeRun, i: nat)
    requires |run.erase| >= 1 && |run.verify| >= 1
    requires i < |UpgradeEvents(addr, image, run)| && IsChunkWrite(UpgradeEvents(addr, image, run)[i])
    ensures exists j :: 0 <= j < i && ShowsBit(UpgradeEvents(addr, image, run)[j], AppEraseBit)
  {
    var t := UpgradeEvents(addr, image, run);
    if !UploadReached(run) {
      UpgradeStopsEarly(addr, image, run);
    } else {
      UpgradeSplit(addr, image, run);
      var x := UpgradePrefix(addr, run);
      var pre := x[..|x| - |PollEvents(addr, run.erase)|];
      assert x == pre + PollEvents(addr, run.erase);
      var k := PollLastRead(addr, run.erase);
      var j := |pre| + k;
      assert t[j] == PollEvents(addr, run.erase)[k];
      assert ShowsBit(t[j], AppEraseBit);
    }
  }

  /** The verify command is issued after the last chunk, and only if the upload was reached. */
  lemma UpgradeVerifyAfterChunks(addr: int, image: seq<bv8>, run: UpgradeRun, i: nat, j: nat)
    requires |run.erase| >= 1 && |run.verify| >= 1
    requires i < |UpgradeEvents(addr, image, run)| && IsChunkWrite(UpgradeEvents(addr, image, run)[i])
    requires j < |UpgradeEvents(addr, image, run)| && UpgradeEvents(addr, image, run)[j] == WriteRaw(addr, [AppVerifyCmd])
    ensures UploadReached(run) && i < j
  {
    var t := UpgradeEvents(addr, image, run);
    if !UploadReached(run) {
      UpgradeStopsEarly(addr, image, run);
    } else {
      UpgradeSplit(addr, image, run);
      var x := UpgradePrefix(addr, run);
      var c := ChunkWrites(addr, Chunks(image));
      var y := UpgradeSuffix(addr, run);
      forall m | |x| + |c| <= m < |t|
        ensures !IsChunkWrite(t[m])
      {
        assert t[m] == y[m - |x| - |c|] && y[m - |x| - |c|] in y;
      }
      forall m | 0 <= m < |x| + |c|
        ensures !t[m].WriteRaw?
      {
        assert t[m] == (x + c)[m] && (x + c)[m] in x + c;
      }
    }
  }

  /** The verify command is in the trace exactly when the upload was reached. */
  lemma UpgradeVerifyIffUploaded(addr: int, image: seq<bv8>, run: UpgradeRun)
    requires |run.erase| >= 1 && |run.verify| >= 1
    ensures WriteRaw(addr, [AppVerifyCmd]) in UpgradeEvents(addr, image, run) <==> UploadReached(run)
  {
    if UploadReached(run) {
      UpgradeSplit(addr, image, run);
      var x := UpgradePrefix(addr, run);
      var c := ChunkWrites(addr, Chunks(image));
      var y := UpgradeSuffix(addr, run);
      assert y[0] == WriteRaw(addr, [AppVerifyCmd]);
      assert UpgradeEvents(addr, image, run)[|x| + |c|] == y[0];
    } else {
      UpgradeStopsEarly(addr, image, run);
    }
  }

  /**
   A normal return is the app-valid bit of the final status read, which
   comes after a status read that showed verify-done, which comes after
   the verify command.
   */
  lemma UpgradeResultFromFinalRead(addr: int, image: seq<bv8>, run: UpgradeRun)
    requires |run.erase| >= 1 && |run.verify| >= 1 && UpgradeOutcome(run).Ok?
    ensures UpgradeOutcome(run).value == (run.last.status & AppValidBit != 0)
    ensures exists v, k, j ::
              0 <= v < k < j < |UpgradeEvents(addr, image, run)|
              && UpgradeEvents(addr, image, run)[v] == WriteRaw(addr, [AppVerifyCmd])
              && ShowsBit(UpgradeEvents(addr, image, run)[k], AppVerifyBit)
              && UpgradeEvents(addr, image, run)[j..] == StatusEvents(addr, run.last)
  {
    assert UploadReached(run) && PollOutcome(run.verify, AppVerifyBit).Ok?;
    UpgradeCompleted(addr, image, run);
    var t := UpgradeEvents(addr, image, run);
    var y := UpgradeSuffix(addr, run);
    var base := |UpgradePrefix(addr, run)| + |ChunkWrites(addr, Chunks(image))|;
    assert t[base..] == y;
    var k, j := SuffixShape(addr, run);
    assert t[base] == y[0] && t[base + k] == y[k] && t[base + j..] == y[j..];
  }

  /**
   A suffix that passes the verify poll: the verify command first, then a
   read showing verify-done, then the final status query.
   */
  lemma SuffixShape(addr: int, run: UpgradeRun) returns (k: nat, j: nat)
    requires |run.erase| >= 1 && |run.verify| >= 1 && PollOutcome(run.verify, AppVerifyBit).Ok?
    ensures 0 < k < j < |UpgradeSuffix(addr, run)|
    ensures UpgradeSuffix(addr, run)[0] == WriteRaw(addr, [AppVerifyCmd])
    ensures ShowsBit(UpgradeSuffix(addr, run)[k], AppVerifyBit)
    ensures UpgradeSuffix(addr, run)[j..] == StatusEvents(addr, run.last)
  {
    var y := UpgradeSuffix(addr, run);
    var poll := PollEvents(addr, run.verify);
    var last := StatusEvents(addr, run.last);
    assert y == VerifyEvents(addr) + poll + last;
    var k0 := PollLastRead(addr, run.verify);
    k, j := 2 + k0, 2 + |poll|;
    assert y[k] == poll[k0];
    assert y[j..] == last;
  }

  /** The prefix depends only on the first query and the erase polls. */
  lemma PrefixIgnoresVerify(addr: int, r1: UpgradeRun, r2: UpgradeRun)
    requires r1.first == r2.first && r1.erase == r2.erase && |r1.erase| >= 1
    requires StatusResult(r1.first, FwModeBit).Ok?
    ensures UpgradePrefix(addr, r1) == UpgradePrefix(addr, r2)
  {
  }

  /** A run that does not reach the upload: its trace and outcome. */
  lemma UpgradeStopped(addr: int, image: seq<bv8>, run: UpgradeRun)
    requires |run.erase| >= 1 && |run.verify| >= 1 && !UploadReached(run)
    ensures StatusResult(run.first, FwModeBit).Err? ==>
              UpgradeEvents(addr, image, run) == StatusEvents(addr, run.first)
              && UpgradeOutcome(run) == Err(StatusResult(run.first, FwModeBit).error)
    ensures StatusResult(run.first, FwModeBit).Ok? ==>
              UpgradeEvents(addr, image, run) == UpgradePrefix(addr, run)
              && UpgradeOutcome(run) == Err(PollOutcome(run.erase, AppEraseBit).error)
  {
  }

  /** A run that reaches the upload: its trace in three phases and its outcome. */
  lemma UpgradeCompleted(addr: int, image: seq<bv8>, run: UpgradeRun)
    requires |run.erase| >= 1 && |run.verify| >= 1 && UploadReached(run)
    ensures UpgradeEvents(addr, image, run)
            == UpgradePrefix(addr, run) + ChunkWrites(addr, Chunks(image)) + UpgradeSuffix(addr, run)
    ensures UpgradeOutcome(run)
            == if PollOutcome(run.verify, AppVerifyBit).Err? then Err(PollOutcome(run.verify, AppVerifyBit).error)
               else StatusResult(run.last, AppValidBit)
  {
  }

  /** A poll that read the bit clear may go on with one more query. */
  lemma PollsExtend(polls: seq<StatusReading>, q: StatusReading, mask: bv8)
    requires |polls| >= 1 && forall i :: 0 <= i < |polls| ==> StatusResult(polls[i], mask) == Ok(false)
    ensures forall i :: 0 <= i < |polls + [q]| - 1 ==> StatusResult((polls + [q])[i], mask) == Ok(false)
    ensures (polls + [q])[|polls + [q]| - 1] == q
  {
  }

  /** Regrouping a log extended by three pieces. */
  lemma LogOfPhases(log0: seq<Event>, pre: seq<Event>, chunks: seq<Event>, suffix: seq<Event>, log: seq<Event>)
    requires log == log0 + pre + chunks + suffix
    ensures log == log0 + (pre + chunks + suffix)
  {
    ConcatAssoc(log0 + pre, chunks, suffix);
    ConcatAssoc(log0, pre, chunks + suffix);
    ConcatAssoc(pre, chunks, suffix);
  }

  lemma ConcatAssoc<T>(a: seq<T>, b: seq<T>, c: seq<T>)
    ensures a + (b + c) == a + b + c
  {
  }

  // ---------------------------------------------------------------------
  // The bootloader object

  /** class CCS811Bootloader: the core protocol plus the bootloader commands. */
  class Bootloader {
    const dev: Device

    constructor (dev: Device)
      ensures this.dev == dev
    {
      this.dev := dev;
    }

    method AppIsErased() returns (r: Result<bool>)
      modifies dev.i2c
      ensures exists q :: dev.i2c.log == old(dev.i2c.log) + StatusEvents(dev.addr, q)
                          && r == StatusResult(q, AppEraseBit)
    {
      r := dev.GetStatus(AppEraseBit);
    }

    method AppIsVerified() returns (r: Result<bool>)
      modifies dev.i2c
      ensures exists q :: dev.i2c.log == old(dev.i2c.log) + StatusEvents(dev.addr, q)
                          && r == StatusResult(q, AppVerifyBit)
    {
      r := dev.GetStatus(AppVerifyBit);
    }

    /** `_app_erase`: erase magic to 0xF1, then 500 ms. */
    method AppErase()
      modifies dev.i2c
      ensures dev.i2c.log == old(dev.i2c.log) + EraseEvents(dev.addr)
    {
      dev.i2c.WriteMem(dev.addr, AppEraseReg, EraseMagic);
      dev.i2c.SleepMs(500);
    }

    /** `_app_verify`: raw command 0xF3, then 70 ms. */
    method AppVerify()
      modifies dev.i2c
      ensures dev.i2c.log == old(dev.i2c.log) + VerifyEvents(dev.addr)
    {
      dev.i2c.WriteTo(dev.addr, [AppVerifyCmd]);
      dev.i2c.SleepMs(70);
    }

    /** `_app_start`: raw command 0xF4, then 1 ms. */
    method AppStart()
      modifies dev.i2c
      ensures dev.i2c.log == old(dev.i2c.log) + StartEvents(dev.addr)
    {
      dev.i2c.WriteTo(dev.addr, [AppStartCmd]);
      dev.i2c.SleepMs(1);
    }

    /**
     `while not <bit>: time.sleep_ms(100)`, with at most `fuel` retries
     where the source waits forever.
     */
    method PollStatus(mask: bv8, fuel: nat) returns (r: Result<()>)
      modifies dev.i2c
      ensures exists polls :: ValidPoll(polls, mask, fuel)
                              && dev.i2c.log == old(dev.i2c.log) + PollEvents(dev.addr, polls)
                              && r == PollOutcome(polls, mask)
    {
      var done := dev.GetStatus(mask);
      ghost var q0 :| dev.i2c.log == old(dev.i2c.log) + StatusEvents(dev.addr, q0)
                      && done == StatusResult(q0, mask);
      ghost var polls := [q0];
      var retries := 0;
      while done == Ok(false)
        invariant retries <= fuel && |polls| == retries + 1
        invariant forall i :: 0 <= i < |polls| - 1 ==> StatusResult(polls[i], mask) == Ok(false)
        invariant done == StatusResult(polls[|polls| - 1], mask)
        invariant dev.i2c.log == old(dev.i2c.log) + PollEvents(dev.addr, polls)
        decreases fuel - retries
      {
        if retries == fuel {
          assert ValidPoll(polls, mask, fuel);
          return Err(PollTimeout);
        }
        dev.i2c.SleepMs(PollDelay);
        ghost var log1 := dev.i2c.log;
        done := dev.GetStatus(mask);
        ghost var q :| dev.i2c.log == log1 + StatusEvents(dev.addr, q) && done == StatusResult(q, mask);
        PollEventsAppend(dev.addr, polls, q);
        LogOfPhases(old(dev.i2c.log), PollEvents(dev.addr, polls), [Sleep(PollDelay)], StatusEvents(dev.addr, q), dev.i2c.log);
        PollsExtend(polls, q, mask);
        polls := polls + [q];
        retries := retries + 1;
      }
      assert ValidPoll(polls, mask, fuel);
      r := if done.Err? then Err(done.error) else Ok(());
    }

    /** The `while data:` loop of `upgrade_fw`: the image to 0xF2, 8 bytes at a time. */
    method Upload(image: seq<bv8>)
      modifies dev.i2c
      ensures dev.i2c.log == old(dev.i2c.log) + ChunkWrites(dev.addr, Chunks(image))
    {
      var pos := 0;
      var data := FileRead(image, pos);
      assert image[pos..] == image;
      while |data| > 0
        invariant pos <= |image| && data == FileRead(image, pos)
        invariant dev.i2c.log + ChunkWrites(dev.addr, Chunks(image[pos..]))
                  == old(dev.i2c.log) + ChunkWrites(dev.addr, Chunks(image))
        decreases |image| - pos
      {
        UploadStep(dev.addr, image, pos, dev.i2c.log);
        dev.i2c.WriteMem(dev.addr, AppDataReg, data);
        pos := pos + |data|;
        data := FileRead(image, pos);
      }
      assert image[pos..] == [];
      assert dev.i2c.log + [] == dev.i2c.log;
    }

    /** The first part of `upgrade_fw`: leave application mode, erase, wait for erase-done. */
    method ResetAndErase(fuel: nat) returns (r: Result<()>, ghost first: StatusReading, ghost polls: seq<StatusReading>)
      modifies dev.i2c
      ensures ValidPoll(polls, AppEraseBit, fuel)
      ensures StatusResult(first, FwModeBit).Err? ==>
                dev.i2c.log == old(dev.i2c.log) + StatusEvents(dev.addr, first)
                && r == Err(StatusResult(first, FwModeBit).error)
      ensures StatusResult(first, FwModeBit).Ok? ==>
                dev.i2c.log == old(dev.i2c.log) + UpgradePrefix(dev.addr, UpgradeRun(first, polls, polls, first))
                && r == PollOutcome(polls, AppEraseBit)
    {
      polls := [StatusReading(AppEraseBit, 0)];
      var ready := dev.IsReadyToMeasure();
      first :| dev.i2c.log == old(dev.i2c.log) + StatusEvents(dev.addr, first)
               && ready == StatusResult(first, FwModeBit);
      if ready.Err? {
        return Err(ready.error), first, polls;
      }
      ghost var resetPart := if ready.value then ResetEvents(dev.addr) else [];
      if ready.value {
        dev.SwReset();
      }
      AppErase();
      ghost var log1 := dev.i2c.log;
      assert log1 == old(dev.i2c.log) + StatusEvents(dev.addr, first) + resetPart + EraseEvents(dev.addr);
      r := PollStatus(AppEraseBit, fuel);
      polls :| ValidPoll(polls, AppEraseBit, fuel)
               && dev.i2c.log == log1 + PollEvents(dev.addr, polls)
               && r == PollOutcome(polls, AppEraseBit);
      ghost var statusPart, erasePart := StatusEvents(dev.addr, first), EraseEvents(dev.addr);
      ConcatAssoc(old(dev.i2c.log), statusPart, resetPart);
      ConcatAssoc(old(dev.i2c.log), statusPart + resetPart, erasePart);
      ConcatAssoc(old(dev.i2c.log), statusPart + resetPart + erasePart, PollEvents(dev.addr, polls));
    }

    /** The last part of `upgrade_fw`: verify, wait for verify-done, read app-valid. */
    method VerifyAndCheck(fuel: nat) returns (r: Result<bool>, ghost polls: seq<StatusReading>, ghost last: StatusReading)
      modifies dev.i2c
      ensures ValidPoll(polls, AppVerifyBit, fuel)
      ensures dev.i2c.log == old(dev.i2c.log) + VerifyEvents(dev.addr) + PollEvents(dev.addr, polls)
                             + if PollOutcome(polls, AppVerifyBit).Err? then [] else StatusEvents(dev.addr, last)
      ensures r == if PollOutcome(polls, AppVerifyBit).Err? then Err(PollOutcome(polls, AppVerifyBit).error)
                   else StatusResult(last, AppValidBit)
    {
      last := StatusReading(0, 0);
      AppVerify();
      ghost var log1 := dev.i2c.log;
      var verified := PollStatus(AppVerifyBit, fuel);
      polls :| ValidPoll(polls, AppVerifyBit, fuel)
               && dev.i2c.log == log1 + PollEvents(dev.addr, polls)
               && verified == PollOutcome(polls, AppVerifyBit);
      if verified.Err? {
        assert dev.i2c.log + [] == dev.i2c.log;
        return Err(verified.error), polls, last;
      }
      ghost var log2 := dev.i2c.log;
      r := dev.AppIsValid();
      last :| dev.i2c.log == log2 + StatusEvents(dev.addr, last) && r == StatusResult(last, AppValidBit);
    }

    /**
     `upgrade_fw`: soft reset if in application mode, erase and wait,
     upload, verify and wait, then report whether the application is valid.
     */
    method UpgradeFw(image: seq<bv8>, fuel: nat) returns (r: Result<bool>)
      modifies dev.i2c
      ensures exists run :: WellFormedRun(run, fuel)
                            && dev.i2c.log == old(dev.i2c.log) + UpgradeEvents(dev.addr, image, run)
                            && r == UpgradeOutcome(run)
    {
      ghost var log0 := dev.i2c.log;
      var erased, first, erasePolls := ResetAndErase(fuel);
      ghost var erasing := UpgradeRun(first, erasePolls, erasePolls, first);
      if erased.Err? {
        ghost var stopped := UpgradeRun(first, erasePolls, [StatusReading(AppVerifyBit, 0)], first);
        if StatusResult(first, FwModeBit).Ok? {
          PrefixIgnoresVerify(dev.addr, erasing, stopped);
        }
        assert WellFormedRun(stopped, fuel);
        UpgradeStopped(dev.addr, image, stopped);
        assert dev.i2c.log == log0 + UpgradeEvents(dev.addr, image, stopped);
        return Err(erased.error);
      }
      ghost var pre := UpgradePrefix(dev.addr, erasing);
      ghost var verifyPolls, last;
      r, verifyPolls, last := UploadAndVerify(image, fuel);
      ghost var run := UpgradeRun(first, erasePolls, verifyPolls, last);
      PrefixIgnoresVerify(dev.addr, erasing, run);
      assert WellFormedRun(run, fuel);
      ghost var chunks := ChunkWrites(dev.addr, Chunks(image));
      ghost var suffix := UpgradeSuffix(dev.addr, run);
      LogOfPhases(log0, pre, chunks, suffix, dev.i2c.log);
      UpgradeCompleted(dev.addr, image, run);
      assert dev.i2c.log == log0 + UpgradeEvents(dev.addr, image, run);
    }

    /** The part of `upgrade_fw` after the erase: upload, then verify and check. */
    method UploadAndVerify(image: seq<bv8>, fuel: nat) returns (r: Result<bool>, ghost polls: seq<StatusReading>, ghost last: StatusReading)
      modifies dev.i2c
      ensures ValidPoll(polls, AppVerifyBit, fuel)
      ensures dev.i2c.log == old(dev.i2c.log) + ChunkWrites(dev.addr, Chunks(image))
                             + (VerifyEvents(dev.addr) + PollEvents(dev.addr, polls)
                                + if PollOutcome(polls, AppVerifyBit).Err? then [] else StatusEvents(dev.addr, last))
      ensures r == if PollOutcome(polls, AppVerifyBit).Err? then Err(PollOutcome(polls, AppVerifyBit).error)
                   else StatusResult(last, AppValidBit)
    {
      Upload(image);
      ghost var uploaded := dev.i2c.log;
      r, polls, last := VerifyAndCheck(fuel);
      ghost var verifying := VerifyEvents(dev.addr) + PollEvents(dev.addr, polls);
      ghost var tail := if PollOutcome(polls, AppVerifyBit).Err? then [] else StatusEvents(dev.addr, last);
      ConcatAssoc(uploaded, verifying, tail);
    }
  }

  /** `CCS811Bootloader(i2c, addr)`: the probe of the core constructor. */
  method OpenBootloader(i2c: Bus, addr: int) returns (r: Result<Bootloader>)
    modifies i2c
    ensures exists p :: i2c.log == old(i2c.log) + ProbeEvents(addr, p) && r.Failure() == ProbeFailure(addr, p)
    ensures r.Ok? ==> fresh(r.value) && fresh(r.value.dev) && r.value.dev.i2c == i2c && r.value.dev.addr == addr
  {
    var d := Open(i2c, addr);
    match d
    case Err(e) =>
      r := Err(e);
    case Ok(dev) =>
      var b := new Bootloader(dev);
      r := Ok(b);
  }
}
