# CCS811 driver model

A Dafny model of the MicroPython driver for the CCS811 gas sensor (eCO2 and
eTVOC over I2C). It covers the core protocol class, the application layer,
the bootloader's firmware upgrade, the algorithm-result reader (modes 1-3),
the raw reader (mode 4) and the factory that picks one of them by mode.

The I2C bus is a class `I2cBus.Bus` whose only state is an event log:
register reads and writes, raw writes, bus scans, sleeps and printed warnings.
The results of reads and scans are arbitrary, so every bus response is an
input to the model. Each driver operation is a method whose postcondition
says the log grows by a pure trace function of those responses, and that the
result (or the raised error) is a pure function of them. The lemmas are
stated on these pure functions.

Python's inheritance becomes composition:

- `Ccs811.Device` is `CCS811`.
- `Ccs811Bootloader.Bootloader` holds a device.
- `Ccs811Application.Application` holds a device, the humidity, temperature and baseline time stamp, and the `_values`/`_reload` dictionaries as maps.
- `Ccs811AlgoResult.AlgoResult` and `Ccs811Raw.Raw` hold an application.

Python exceptions become `Result` values whose `Error` names the check that
failed:

- `NotFound`, `WrongHardwareId`, `AppNotValid` for the probe checks;
- `Fault(code)` for the six device error codes;
- `ByteOutOfRange` where `bytes()` refuses a value outside 0..255 (only the measurement-mode byte);
- `PollTimeout` when a poll exhausts its retry bound.

Files, one module each: `bus.dfy` (I2cBus), `ccs811.dfy` (Ccs811),
`bootloader.dfy` (Ccs811Bootloader), `application.dfy` (Ccs811Application),
`algoresult.dfy` (Ccs811AlgoResult), `raw.dfy` (Ccs811Raw), `factory.dfy`
(Ccs811Factory).

A store into a MicroPython `bytearray` keeps the low 8 bits of the integer,
so the baseline, threshold and environment setters never raise: a word is
written modulo 2^16, and a negative one in two's complement. The model's OR
is Python's `|` on integers of either sign.

Two places where the code does something other than evidently intended are
modelled as written:

- The raw getters store `False` into the other field's `_values` entry where `_reload` was evidently meant, so the reload flags are never cleared.
- The environment encoding ORs a 9-bit fraction code into `int(x) << 1`, where the sensor's field is a 7-bit integer part above a 9-bit fraction, so the fraction bits overlap the integer bits.

## Model

| member | source | states |
|---|---|---|
| Ccs811.CodeOf | ccs811.py:106-113 | each named device error has a code below 6 |
| Ccs811.ErrorOfCode | ccs811.py:115-117 | a code names an error exactly when it is 0..5, and then that error's code is the one read |
| Ccs811.ErrorCodeRoundTrip | ccs811.py:106-113 | the error table is a bijection between the six errors and codes 0..5 |
| Ccs811.StatusEvents | ccs811.py:71-76 | a status query reads 0x00 once, and reads 0xE0 as well exactly when bit 0 is set |
| Ccs811.StatusResult | ccs811.py:71-76 | it raises exactly when bit 0 is set and the error code is 0..5, with that code's error; otherwise it returns whether the masked bit is set |
| Ccs811.StatusFaultsDistinct | ccs811.py:104-117 | different error codes raise different errors |
| Ccs811.ProbeEvents | ccs811.py:34-53 | defines the probe trace: 20 ms sleep, scan, id read, status read, each only after the previous check passed; ProbeChecksInOrder states it |
| Ccs811.ProbeFailure | ccs811.py:44-53 | defines which check fails first; ProbeChecksInOrder states it |
| Ccs811.FwVersion | ccs811.py:98-102 | major and minor are the two nibbles of byte 0 (each below 16) and patch is byte 1, so major*16+minor gives back byte 0 |
| Ccs811.ProbeChecksInOrder | ccs811.py:44-53 | construction passes exactly when the address is in the scan, the id is 0x81 and the app-valid bit is set; the first failing check gives its own error and the later checks issue no read |
| Ccs811.Device.ErrorId | ccs811.py:104-117 | reads one byte from 0xE0 and yields the error that code names, if any |
| Ccs811.Device.GetStatus | ccs811.py:71-76 | the bus sees the status query's actions and the result is the status query's outcome for the mask |
| Ccs811.Device.IsReadyToMeasure | ccs811.py:55-59 | a status query with mask 0x80 |
| Ccs811.Device.AppIsValid | ccs811.py:61-64 | a status query with mask 0x10 |
| Ccs811.Device.DataIsReady | ccs811.py:66-69 | a status query with mask 0x08 |
| Ccs811.Device.HwId | ccs811.py:78-81 | one read of one byte from 0x20, returned unchanged |
| Ccs811.Device.HwVersion | ccs811.py:83-86 | one read of one byte from 0x21, returned unchanged |
| Ccs811.Device.ReadFwVersion | ccs811.py:98-102 | one 2-byte read of the given register, decoded as a version |
| Ccs811.Device.FwBootVersion | ccs811.py:88-91 | a 2-byte read of 0x23, decoded as a version |
| Ccs811.Device.FwAppVersion | ccs811.py:93-96 | a 2-byte read of 0x24, decoded as a version |
| Ccs811.Device.SwReset | ccs811.py:119-123 | writes exactly 11 E5 72 8A to 0xFF, then sleeps 2 ms |
| Ccs811.ResetEvents | ccs811.py:119-123 | defines the reset trace, 11 E5 72 8A to 0xFF then a 2 ms sleep; Ccs811.Device.SwReset and UpgradeResetIffReady state it |
| Ccs811.Open | ccs811.py:34-53 | the bus sees a 20 ms sleep, then the scan and the checks in order; the outcome is the probe's outcome |
| Ccs811Bootloader.FileRead | ccs811bootloader.py:54-57 | `file.read(8)` at a position returns the bytes that follow it, at most 8, and fewer only when the image ends first |
| Ccs811Bootloader.Chunks | ccs811bootloader.py:53-57 | the chunks concatenate to the image; every chunk but the last has 8 bytes and the last has 1..8; an empty image gives no chunk |
| Ccs811Bootloader.ChunksStep | ccs811bootloader.py:55-57 | one loop step: the next read is non-empty and the remaining chunks are it followed by the chunks of the rest |
| Ccs811Bootloader.UploadStep | ccs811bootloader.py:55-57 | after one chunk write, what remains to write is the chunks of the rest of the image |
| Ccs811Bootloader.ChunkWrites | ccs811bootloader.py:55-57 | defines the upload loop's trace, one write to 0xF2 per chunk in order; UploadedChunkWrites and Bootloader.Upload state it |
| Ccs811Bootloader.PollEventsAppend | ccs811bootloader.py:50-51 | each further poll adds one 100 ms sleep and one status query |
| Ccs811Bootloader.PollEvents | ccs811bootloader.py:50-51 | defines a poll's trace: status queries separated by 100 ms sleeps; PollEventsAppend, PollEventsOnlyRead and PollLastRead state it |
| Ccs811Bootloader.PollOutcome | ccs811bootloader.py:50-51 | defines how a poll ends: the last reading's error, success when its bit is set, else a timeout; PollLastRead, PollStatus and UpgradeCompleted use it |
| Ccs811Bootloader.Uploaded | ccs811bootloader.py:55-56 | the chunk writes in a trace are at most as many as its events |
| Ccs811Bootloader.UploadedConcat | ccs811bootloader.py:55-56 | the chunks written by two trace pieces are those of each piece in order |
| Ccs811Bootloader.UploadedChunkWrites | ccs811bootloader.py:55-57 | the upload loop's writes carry exactly the chunks, in order, and are all chunk writes |
| Ccs811Bootloader.NoUploads | ccs811bootloader.py:55-56 | a trace with no write to 0xF2 uploads nothing |
| Ccs811Bootloader.PollEventsOnlyRead | ccs811bootloader.py:50-51 | a polling loop only reads and sleeps 100 ms |
| Ccs811Bootloader.PollLastRead | ccs811bootloader.py:60-61 | a poll ends with the status query of its last reading |
| Ccs811Bootloader.UpgradeSplit | ccs811bootloader.py:42-63 | a run that reaches the upload is prefix, then the chunk writes, then suffix; only the middle writes to 0xF2, and the prefix has no raw write |
| Ccs811Bootloader.UpgradePrefix | ccs811bootloader.py:46-51 | defines the trace up to the erase poll: first status query, reset if ready, erase, erase poll; PrefixFacts and ResetAndErase state it |
| Ccs811Bootloader.UpgradeSuffix | ccs811bootloader.py:59-63 | defines the trace from verify on: verify, verify poll, then the final status query unless the poll failed; SuffixFacts, SuffixShape and UpgradeSplit state it |
| Ccs811Bootloader.UpgradeEvents | ccs811bootloader.py:42-63 | defines the upgrade trace; UpgradeSplit and the Upgrade lemmas state its properties |
| Ccs811Bootloader.UpgradeOutcome | ccs811bootloader.py:42-63 | defines the upgrade's result; UpgradeStopped, UpgradeCompleted and UpgradeResultFromFinalRead state it |
| Ccs811Bootloader.PrefixFacts | ccs811bootloader.py:46-51 | reset, erase and the erase poll write no chunk and no raw command |
| Ccs811Bootloader.SuffixFacts | ccs811bootloader.py:59-63 | the suffix starts with the verify command and its 70 ms sleep, and writes no chunk and no other raw command |
| Ccs811Bootloader.UpgradeStopsEarly | ccs811bootloader.py:46-52 | a run that fails before the upload writes no chunk and no raw command |
| Ccs811Bootloader.UpgradeResetIffReady | ccs811bootloader.py:46-47 | the soft reset is issued exactly when the first status read shows ready-to-measure |
| Ccs811Bootloader.UpgradeUploadsImage | ccs811bootloader.py:53-57 | the chunks written are the chunks of the image (nothing when the upload is not reached), so they concatenate to the image |
| Ccs811Bootloader.UpgradeChunksAfterEraseDone | ccs811bootloader.py:49-57 | every chunk write is preceded by a status read showing erase-done (0x40) |
| Ccs811Bootloader.UpgradeVerifyAfterChunks | ccs811bootloader.py:55-59 | the verify command comes after every chunk write |
| Ccs811Bootloader.UpgradeVerifyIffUploaded | ccs811bootloader.py:49-59 | the verify command is issued exactly when the erase poll succeeded and the upload ran |
| Ccs811Bootloader.UpgradeResultFromFinalRead | ccs811bootloader.py:59-63 | a successful upgrade returns the app-valid bit of a status read made after verify and after a read showing verify-done (0x20) |
| Ccs811Bootloader.SuffixShape | ccs811bootloader.py:59-63 | a suffix past the verify poll starts with the verify command, then has a read showing verify-done, and ends with the final status query |
| Ccs811Bootloader.UpgradeStopped | ccs811bootloader.py:46-52 | a run stopped before the upload is the first query (or the prefix) alone and fails with that query's or the erase poll's error |
| Ccs811Bootloader.UpgradeCompleted | ccs811bootloader.py:46-63 | a run that reaches the upload is prefix, chunk writes, suffix, and returns the verify poll's error or the final app-valid bit |
| Ccs811Bootloader.Bootloader.AppIsErased | ccs811bootloader.py:13-16 | a status query with mask 0x40 |
| Ccs811Bootloader.Bootloader.AppIsVerified | ccs811bootloader.py:18-21 | a status query with mask 0x20 |
| Ccs811Bootloader.Bootloader.AppErase | ccs811bootloader.py:23-27 | writes E7 A7 E6 09 to 0xF1, then sleeps 500 ms |
| Ccs811Bootloader.EraseEvents | ccs811bootloader.py:23-27 | defines the erase trace, E7 A7 E6 09 to 0xF1 then a 500 ms sleep; AppErase and PrefixFacts state it |
| Ccs811Bootloader.Bootloader.AppVerify | ccs811bootloader.py:29-34 | a raw write of F3, then a 70 ms sleep |
| Ccs811Bootloader.VerifyEvents | ccs811bootloader.py:29-34 | defines the verify trace, raw F3 then a 70 ms sleep; AppVerify and SuffixFacts state it |
| Ccs811Bootloader.Bootloader.AppStart | ccs811bootloader.py:36-40 | a raw write of F4, then a 1 ms sleep |
| Ccs811Bootloader.StartEvents | ccs811bootloader.py:36-40 | defines the app-start trace, raw F4 then a 1 ms sleep; AppStart and AppOpenEndsWithStart state it |
| Ccs811Bootloader.Bootloader.PollStatus | ccs811bootloader.py:50-51 | polls until the masked bit is set, sleeping 100 ms between queries; a device error or the retry bound ends it |
| Ccs811Bootloader.Bootloader.Upload | ccs811bootloader.py:53-57 | writes the image's chunks to 0xF2 in order, one write per chunk |
| Ccs811Bootloader.Bootloader.UploadAndVerify | ccs811bootloader.py:53-63 | the chunk writes followed by the verify command, the verify poll and the final app-valid query, whose bit is the result |
| Ccs811Bootloader.Bootloader.ResetAndErase | ccs811bootloader.py:46-51 | the first status query, a reset if ready-to-measure, the erase command, then the erase poll |
| Ccs811Bootloader.Bootloader.VerifyAndCheck | ccs811bootloader.py:59-63 | the verify command, the verify poll, then one app-valid status query whose bit is the result |
| Ccs811Bootloader.Bootloader.UpgradeFw | ccs811bootloader.py:42-63 | the bus sees the whole upgrade trace for some device responses and the result is that run's outcome |
| Ccs811Bootloader.OpenBootloader | ccs811.py:34-53 | constructing a bootloader object runs the probe and fails as it does |
| Ccs811Application.MeasModeByte | ccs811application.py:32 | the byte exists exactly when mode is 0..15; its high nibble is the mode, bit 3 is with_int, bit 2 is with_thresh, bits 0-1 are clear |
| Ccs811Application.MeasModeByteInjective | ccs811application.py:32 | mode and both flags can be recovered from the byte |
| Ccs811Application.MeasModeEvents | ccs811application.py:29-33 | defines the mode write, one byte to 0x01 when the byte exists and nothing otherwise; Application.SetMeasMode and AlgoSetupWrites state it |
| Ccs811Application.WordOf | ccs811application.py:55 | the big-endian word of two bytes is below 65536 |
| Ccs811Application.WordBytes | ccs811application.py:60-62 | the two bytes a bytearray keeps for `w >> 8` and `w & 0xFF`: they recombine to w modulo 65536 |
| Ccs811Application.WordRoundTrip | ccs811application.py:54-62 | splitting the word read from two bytes gives back those bytes |
| Ccs811Application.WordBytesUnique | ccs811application.py:60-62 | the kept bytes are the only pair whose big-endian word is w modulo 65536 |
| Ccs811Application.Trunc | ccs811application.py:38-39 | `int()` truncates toward zero |
| Ccs811Application.FracCode | ccs811application.py:38-39 | `int((x % 1) * 512)` is 0..511, the floor of the non-negative fraction times 512 |
| Ccs811Application.EnvWord | ccs811application.py:38-39 | defines the encoded word `(int(x) << 1) OR int((x % 1) * 512)`; EnvWordRange and EnvWordExamples state its values |
| Ccs811Application.IntOrBounds | ccs811application.py:38-39 | for non-negative operands the OR is at least each operand and at most their sum |
| Ccs811Application.IntOr | ccs811application.py:38-39 | defines Python's OR on integers of either sign; IntOrBits states its meaning |
| Ccs811Application.IntOrBits | ccs811application.py:38-39 | bit i of the OR (two's complement) is set exactly when bit i of either operand is set |
| Ccs811Application.EnvBytes | ccs811application.py:35-43 | always 4 bytes: the humidity word then the temperature word, each modulo 65536 and high byte first, with temperature from `int(t + 25)` and the fraction of `t` |
| Ccs811Application.EnvWordRange | ccs811application.py:38-43 | integer parts 0..32512 give a word that fits 16 bits and is written whole; integer parts of 32768 and above give a word of 17 bits or more, which the bytearray cuts |
| Ccs811Application.IntOrDisjoint | ccs811application.py:38-39 | an OR of a value below 2^k with a multiple of 2^k adds them, since no bit is set in both |
| Ccs811Application.EnvBytesExample | ccs811application.py:35-44 | humidity 45.5 and temperature 22.25 encode as 01 5A 00 DE |
| Ccs811Application.EnvWordExamples | ccs811application.py:38-39 | 45.5 encodes as 346 and 22.25 (integer part 47) as 222 |
| Ccs811Application.EnvBytesNegativeExample | ccs811application.py:35-44 | temperature -30.0 encodes as the word -10, which the bytearray keeps as FF F6, after humidity 50.0 as 00 64 |
| Ccs811Application.EnvEventsFacts | ccs811algoresult.py:67-70 | the warning is logged exactly when one value is None; the write to 0x05 happens exactly when both are truthy; nothing is read |
| Ccs811Application.EnvEvents | ccs811algoresult.py:67-70 | defines the environment step (warning, then write); EnvEventsFacts states its properties |
| Ccs811Application.Truthy | ccs811algoresult.py:69 | defines Python truthiness of an optional number, present and non-zero; EnvEventsFacts uses it |
| Ccs811Application.BaselineWarnsIffEarly | ccs811application.py:49-55 | the warning is logged exactly when less than 72000 ms have passed since construction; the read of 2 bytes from 0x11 comes last |
| Ccs811Application.BaselineEvents | ccs811application.py:46-55 | defines the baseline getter's trace; BaselineWarnsIffEarly and Application.GetBaseline state it |
| Ccs811Application.ProbeIssuesNoRawWrite | ccs811.py:34-53 | the probe writes no raw command |
| Ccs811Application.AppOpenEndsWithStart | ccs811application.py:19-27 | a successful construction is probe, second probe, then raw F4 and a 1 ms sleep; F4 is the only raw write |
| Ccs811Application.AppOpenFailsIffAProbeFails | ccs811application.py:19-27 | construction fails exactly when one of the two probes fails; a first-probe failure stops everything after it |
| Ccs811Application.AppOpenEvents | ccs811application.py:14-27 | defines the construction trace: first probe, then the second probe and app-start while no probe failed; AppOpenEndsWithStart and OpenApplication state it |
| Ccs811Application.AppOpenFailure | ccs811application.py:14-27 | defines the construction error, the first probe's else the second's; AppOpenFailsIffAProbeFails states it |
| Ccs811Application.Application.constructor | ccs811application.py:20-25 | humidity and temperature are None, the time stamp is taken, current and voltage are None with their reload flags set |
| Ccs811Application.Application.SetMeasMode | ccs811application.py:29-33 | writes the mode byte to 0x01 and touches nothing else, or raises without a write when it does not fit |
| Ccs811Application.Application.SetEnvData | ccs811application.py:35-44 | writes the 4 encoded bytes to 0x05 and never raises |
| Ccs811Application.Application.PushEnvironment | ccs811algoresult.py:67-70 | warns or writes the environment exactly as the environment step says |
| Ccs811Application.Application.GetBaseline | ccs811application.py:46-55 | the warning if early, one 2-byte read of 0x11, and the big-endian word of those bytes |
| Ccs811Application.Application.SetBaseline | ccs811application.py:57-63 | writes the two kept bytes of the baseline (modulo 65536, high byte first) to 0x11 and never raises |
| Ccs811Application.OpenApplication | ccs811application.py:14-27 | two probes, then app-start; on success the fresh object has the initial state |
| Ccs811AlgoResult.DecodeAlg | ccs811algoresult.py:72-83 | eCO2 and eTVOC are the big-endian words of bytes 0-1 and 2-3; is_ready is byte 4 non-zero; current (0..63) and the voltage code (0..1023) split bytes 6-7 without loss |
| Ccs811AlgoResult.FieldValue | ccs811algoresult.py:73-84 | defines the cached value a decoded result gives each field; FetchFillsAllFields and StoreHeadFacts use it |
| Ccs811AlgoResult.ReplyFault | ccs811algoresult.py:79-80 | the fetch raises exactly when byte 5 is non-zero and the error code is 0..5 |
| Ccs811AlgoResult.FetchEvents | ccs811algoresult.py:64-80 | defines the fetch trace: environment step, 8-byte read of 0x02, error lookup when byte 5 is set |
| Ccs811AlgoResult.Fetched | ccs811algoresult.py:72-84 | defines the cache after a fetch: head stores, then tail stores unless it raised; FetchFillsAllFields and FaultAfterHeadStores state it |
| Ccs811AlgoResult.ReadField | ccs811algoresult.py:55-62 | defines `_get_value` on the cache; ReadFetchesIffFlagged and FetchFillsAllFields state its properties |
| Ccs811AlgoResult.ReadFieldEvents | ccs811algoresult.py:55-62 | defines `_get_value`'s trace, the fetch when the flag is set and nothing otherwise; ReadFetchesIffFlagged and AlgoResult.GetValue state it |
| Ccs811AlgoResult.FetchedComplete | ccs811algoresult.py:64-84 | a fetch keeps every field in both dictionaries |
| Ccs811AlgoResult.ReadFetchesIffFlagged | ccs811algoresult.py:55-62 | reading a field fetches exactly when its flag was set; the flag is set on return |
| Ccs811AlgoResult.FetchFillsAllFields | ccs811algoresult.py:55-84 | a good fetch stores the decoded value of every field, clears every other flag, and returns the decoded value of the field read |
| Ccs811AlgoResult.ServedOnceThenRefetched | ccs811algoresult.py:55-84 | a field filled by another field's fetch is served once from the cache and fetched on its next read |
| Ccs811AlgoResult.FaultAfterHeadStores | ccs811algoresult.py:77-84 | with byte 5 set, eCO2, eTVOC and is_ready are already stored when the error is raised, and current and voltage are untouched |
| Ccs811AlgoResult.StoreHeadFacts | ccs811algoresult.py:73-78 | the head stores set eCO2, eTVOC and is_ready from the result and mark them fresh, leaving current and voltage as they were |
| Ccs811AlgoResult.StoreHead | ccs811algoresult.py:73-78 | defines the stores of eCO2, eTVOC and is_ready; StoreHeadFacts states them |
| Ccs811AlgoResult.StoreTail | ccs811algoresult.py:81-84 | defines the stores of current and voltage; FetchFillsAllFields states them |
| Ccs811AlgoResult.ReadyStepFacts | ccs811algoresult.py:86-93 | with its flag set, `data_is_ready` queries status bit 0x08 and keeps the flag; with the flag clear it returns the cached value and sets the flag |
| Ccs811AlgoResult.ReadyServedOnce | ccs811algoresult.py:86-93 | a cached data-ready value is served once without a bus access, and the next call queries the status register again |
| Ccs811AlgoResult.ReadyStep | ccs811algoresult.py:86-93 | defines `data_is_ready` on the cache; ReadyStepFacts and ReadyServedOnce state its properties |
| Ccs811AlgoResult.ReadyEvents | ccs811algoresult.py:86-93 | defines `data_is_ready`'s trace, a status query when the flag is set and nothing otherwise; ReadyStepFacts and ReadyServedOnce state it |
| Ccs811AlgoResult.ThresholdBytes | ccs811algoresult.py:121-128 | always 4 bytes: the low threshold then the high one, each modulo 65536 and high byte first |
| Ccs811AlgoResult.ThresholdBytesExamples | ccs811algoresult.py:121-128 | 1200/2800 give 04 B0 0A F0, the defaults 1500/2500 give 05 DC 09 C4, and -1/2500 give FF FF 09 C4 |
| Ccs811AlgoResult.ThresholdEvents | ccs811algoresult.py:121-129 | defines the threshold write, the 4 threshold bytes to 0x10; AlgoResult.SetThresholds and AlgoSetupWrites state it |
| Ccs811AlgoResult.AlgoSetupEvents | ccs811algoresult.py:27-33 | defines the setup trace, the mode write then the default thresholds unless the mode byte was refused; AlgoSetupWrites and AlgoResult.Configure state it |
| Ccs811AlgoResult.AlgoSetupWrites | ccs811algoresult.py:27-33 | construction writes the mode byte to 0x01 and then 05 DC 09 C4 to 0x10; a mode that does not fit writes nothing |
| Ccs811AlgoResult.AlgoResult.constructor | ccs811algoresult.py:24-32 | adds is_ready, eCO2 and eTVOC as None with their flags set, and keeps the defaults 1500 and 2500 |
| Ccs811AlgoResult.AlgoResult.Configure | ccs811algoresult.py:27-33 | the bus sees the setup writes and the outcome is the mode byte's outcome |
| Ccs811AlgoResult.AlgoResult.FetchAlgResult | ccs811algoresult.py:64-84 | the environment step, the 8-byte read of 0x02, the error lookup if byte 5 is set; the cache becomes the fetched cache |
| Ccs811AlgoResult.AlgoResult.GetValue | ccs811algoresult.py:55-62 | one field read: the log and the new cache are those of the cache step |
| Ccs811AlgoResult.AlgoResult.DataIsReady | ccs811algoresult.py:86-93 | the log and the new cache are those of the ready step |
| Ccs811AlgoResult.AlgoResult.LowThreshold | ccs811algoresult.py:95-99 | returns the stored low threshold without a bus access |
| Ccs811AlgoResult.AlgoResult.HighThreshold | ccs811algoresult.py:108-112 | returns the stored high threshold without a bus access |
| Ccs811AlgoResult.AlgoResult.SetThresholds | ccs811algoresult.py:121-129 | writes the 4 threshold bytes to 0x10 and never raises |
| Ccs811AlgoResult.AlgoResult.SetLowThreshold | ccs811algoresult.py:101-106 | changes only the low threshold, then writes both |
| Ccs811AlgoResult.AlgoResult.SetHighThreshold | ccs811algoresult.py:114-119 | changes only the high threshold, then writes both |
| Ccs811AlgoResult.InitialCacheFacts | ccs811algoresult.py:24-25 | after construction all five fields are None with their reload flags set |
| Ccs811AlgoResult.InitialCache | ccs811algoresult.py:24-25 | defines the five-field cache after construction; InitialCacheFacts and OpenAlgoResult state it |
| Ccs811AlgoResult.OpenAlgoResult | ccs811algoresult.py:13-33 | application construction, then the setup writes; on success the object has the initial cache and the default thresholds |
| Ccs811AlgoResult.AlgoOpenEvents | ccs811algoresult.py:13-33 | defines the construction trace, the application layer then the setup writes if it came up; OpenAlgoResult and EveryKindProbesFirst state it |
| Ccs811AlgoResult.AlgoOpenFailure | ccs811algoresult.py:13-33 | defines the construction error, the application layer's else the mode byte's; OpenAlgoResult and AlgoModeRange state it |
| Ccs811Raw.DecodeRaw | ccs811raw.py:57-59 | current is byte 0 shifted right by 2 (0..63) and the voltage code is the low 2 bits of byte 0 and byte 1 (0..1023), without loss |
| Ccs811Raw.RawMatchesAlgResultTail | ccs811algoresult.py:81-83 | bytes 6-7 of the algorithm result decode like the raw-data register |
| Ccs811Raw.DecodeRawInjective | ccs811raw.py:57-59 | different register contents give different readings |
| Ccs811Raw.RawFetchEvents | ccs811raw.py:50-57 | defines the `_get_raw_data` trace; RawFetchPushesEnvFirst states its properties |
| Ccs811Raw.RawFetchPushesEnvFirst | ccs811raw.py:52-57 | the environment is written first exactly when both values are truthy, the warning exactly when one is None; the read of 0x03 comes last |
| Ccs811Raw.RawReadFetches | ccs811raw.py:28-48 | with both flags set, a getter fetches, returns its field's new value, leaves False in the other field and leaves both flags set |
| Ccs811Raw.RawRead | ccs811raw.py:28-48 | defines the two getters on the cache, as written; RawReadFetches and EveryRawReadFetches state their properties |
| Ccs811Raw.RawReadEvents | ccs811raw.py:28-48 | defines a getter's trace, the raw fetch when its flag is set and nothing otherwise; RawReadFetches and Raw.GetCurrent state it |
| Ccs811Raw.RawRun | ccs811raw.py:28-48 | defines the cache and trace after a sequence of getter calls; EveryRawReadFetches states it |
| Ccs811Raw.EnvEventsNoRawRead | ccs811raw.py:52-55 | the environment step does not read 0x03 |
| Ccs811Raw.EveryRawReadFetches | ccs811raw.py:28-48 | from construction on, n getter calls make n reads of 0x03: the flags are never cleared |
| Ccs811Raw.Raw.DataIsReady | ccs811raw.py:23-26 | always a fresh status query with mask 0x08, with no cache |
| Ccs811Raw.Raw.GetRawData | ccs811raw.py:50-60 | the environment step, then one 2-byte read of 0x03 decoded as raw data |
| Ccs811Raw.Raw.GetCurrent | ccs811raw.py:28-37 | the log and the new cache are those of the raw getter step for current |
| Ccs811Raw.Raw.GetVoltage | ccs811raw.py:39-48 | the log and the new cache are those of the raw getter step for voltage |
| Ccs811Raw.OpenRaw | ccs811raw.py:15-21 | application construction, then mode byte 0x40 to 0x01; both reload flags stay set |
| Ccs811Raw.RawOpenEvents | ccs811raw.py:15-21 | defines the construction trace, the application layer then mode byte 0x40 if it came up; OpenRaw and OtherModesStartApp state it |
| Ccs811Factory.SelectCases | ccs811factory.py:18-22 | mode 0 picks the bootloader, mode 4 the raw reader, any other integer the algorithm-result reader with mode and flags unchanged |
| Ccs811Factory.Select | ccs811factory.py:18-22 | defines the kind the mode picks; SelectCases states it |
| Ccs811Factory.FactoryEvents | ccs811factory.py:18-22 | defines the trace of constructing the selected kind; EveryKindProbesFirst, BootloaderModeStaysInBoot and Create state it |
| Ccs811Factory.FactoryFailure | ccs811factory.py:18-22 | defines the error of constructing the selected kind; EveryKindProbesFirst, AlgoModeRange and Create state it |
| Ccs811Factory.EveryKindProbesFirst | ccs811factory.py:18-22 | every branch starts with the probe, and a probe failure is the result with nothing after it |
| Ccs811Factory.ProbeWritesNothing | ccs811.py:34-53 | the probe writes nothing |
| Ccs811Factory.BootloaderModeStaysInBoot | ccs811factory.py:18-19 | mode 0 sends neither F4 nor a mode byte, yet fails when the app-valid bit is clear |
| Ccs811Factory.OtherModesStartApp | ccs811factory.py:20-22 | every other successful construction has sent F4 |
| Ccs811Factory.AlgoModeRange | ccs811factory.py:22 | after a good start, an algorithm-result mode fails exactly when it is outside 0..15, with an out-of-range byte |
| Ccs811Factory.CreateBootloader | ccs811factory.py:18-19 | the mode-0 branch: the probe and a bootloader object |
| Ccs811Factory.CreateRaw | ccs811factory.py:20-21 | the mode-4 branch: a raw reader |
| Ccs811Factory.CreateAlgoResult | ccs811factory.py:22 | the branch for other modes: an algorithm-result reader |
| Ccs811Factory.Create | ccs811factory.py:15-22 | the defaults are address 0x5A, mode 1 and both flags false; the log and the outcome are those of the kind the mode selects |

## Left out

- Timing: `time.sleep_ms` is a `Sleep` log event and `time.ticks_ms` is a `now` input. The `ticks_diff` wrap-around is not modelled.
- `print` warnings are `Warn` log events; their text is not modelled.
- Floating point: the voltage scaling `1.65 / 1023` is not applied; the model keeps the 10-bit code. `_set_env_data` uses exact reals, with no claim about IEEE rounding.
- File handling in `upgrade_fw` (`open`, `file.read`): the firmware image is a byte sequence.
- The I2C transport and `i2c.scan()` are external. Scan results and read responses are inputs.
- Ccs811Bootloader.Bootloader.PollStatus: the source polls forever; the model has a retry bound (`fuel`) and reports `PollTimeout` when it runs out.
- Ccs811Bootloader.Bootloader.UpgradeFw: it takes the same retry bound for both polls.
- Ccs811.FwVersion: it returns the three numbers, not the formatted "major.minor.patch" string.
- Ccs811AlgoResult.AlgoResult.Configure: it requires the default thresholds, which is the state construction leaves it in.
- main.py (an HTTP server and a DHT11 read) and boot.py (WiFi bring-up and an LED loop) are not part of this model; they are I/O with no driver logic.
