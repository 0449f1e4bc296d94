# Models and proofs for the RGBW controller firmware

This project models the protocols and algorithms of the ESP32-C3 firmware and proves what they are for. Each module
follows one source file, or one protocol that runs through several.

**Pulse measurement.** `PulseMonitor` is the capture protocol as a state machine: two tasks that arm, the receive-done
interrupt and the decode task interleave at every point where another of them can run, also inside the lock-protected
sections. `PulseSafety` has its inductive invariant and what follows over every run: a capture never mixes two arms, no arm
gets two outcomes, no wake-up is lost; `PulseProgress` adds that the lock is always given back and the decode task always
comes to rest, so arming cannot stay blocked. `TunerPipeline` puts the HTTP submission counter, the orchestrator queue and the
overwriting LED queue around it and proves that served answers only move forward and that a measured answer is the
measurement of the capture armed for its number. `TunerAnswers` says which answer every number has and what it contains,
`TunerDelivery` that a submission to a device at rest can be measured and served. `Ws2812` and `PulseDecode` are the encode,
decode and averaging arithmetic, `PulseMeaning` what a published measurement says about the captured symbols.

**Firmware update and boot.** `Crc32` and `FwMeta` are the records and their checksum, `FwFlash` the two record sectors and
the OTA partition over NOR flash, `UpdaterHttp` the upload worker, `FwBoot` the boot procedure and the firmware's own flash
calls. Every flash operation may succeed, fail or be cut by a power loss; `PowerLoss.Op` carries a cut to the caller, so
every contract also describes the flash that the next start finds. `UploadHandoff` is the claim and hand-off between the
HTTP server task and the worker.

**Wi-Fi.** `CredentialStore` is the two-record transaction over NVS, `Provisioning` the ten-state orchestrator with any
message, time-out and service failure, `WifiScan` the in-place sort and compaction of a scan, `PortalForm` and `ScanJson`
the scan list and the form decoder, `DnsServer` the in-place responder. `Button` is the hold and update-gesture detection
over a wrapping 32-bit clock.

## Assumptions

- Services outside the modelled files have any result, and an effect stated where they are called. `rmt_disable()` ends a
  receive in flight; a failed `rmt_receive()` leaves the buffer alone; an interrupted flash operation on a record leaves
  the old sector, the complete new one, or a record that reads as invalid.
- A single-key NVS write or erase takes effect completely or not at all, whatever it reports. One that is reported as done
  is not undone by a power loss before its commit; `nvs_commit()` itself only succeeds, fails or is cut.
- The digest of the partition and the image verification of `esp_ota_end()` are uninterpreted functions of the content.
- Submission and sequence numbers are natural numbers. Lengths and times are unbounded except where their width matters:
  the 32-bit clock of the button, the 15-bit durations, the 32-bit sums of the read analysis, the one-byte crash count.

## What the proofs found

- main/credential_store/include/credential_store.h:63 says that a failed replacement leaves the previous active record
  unchanged. When the commit or the read-back after the write of the active record fails, the active record is already the
  new one (`CredentialStore.FailedMayChangeActive`). `CredentialStore.FailedKeepsActiveIff` is the exact condition. The
  recoverable pair is old or new throughout.
- Boot recovery erases a pending record it cannot read, so one failed read loses a stored new pair
  (`CredentialStore.RecoveryMayLosePending`). `CredentialStore.RecoveryChangesIff` is the exact condition; every other
  failure and every cut keeps the recoverable pair.
- `StopWifiAccessPoint()` is called without looking at its result (main/provisioning/provisioning.c:399). Outside the open
  portal states the access point is on exactly if it was on when the last stop failed, in the station states exactly if
  the last stop failed; `Provisioning.AccessPointStaysOn` is such a run.
- GET /status reads the installed version and the upload state in two locked sections
  (updater/main/updater_http.c:175-185). A reply can say done and name no version, or the version that was replaced;
  `UploadHandoff.RepliesAreSane` says exactly when, and `UploadHandoff.DoneIsFinal` that the next request is answered
  correctly.
- The comma of the scan list depends on the index of an entry and not on what was printed before it
  (main/http_portal/http_portal.c:193), so the list is well formed if and only if its first entry has a name or none has
  (`ScanJson.BodyReadsBack`). After normalisation every entry has one.
- The gesture ring agrees with true time while four times (hold time + 3000 ms + two sample gaps) is below 2^32 ms. The
  idle reset is what makes it so: the same detector without it fires falsely (`Button.StaleRingFalselyMatches`).

## Model

| member | source | states |
|---|---|---|
| Crc32.ComputeFwCrc32 | components/fw_meta/fw_meta.c:39-50 | the byte and bit loops compute the reflected CRC-32 of IEEE 802.3 clause 3.2.9, given as a recursive register |
| Crc32.GeneratorPolynomial | components/fw_meta/fw_meta.c:39-50 | the constant is the generator of IEEE 802.3 clause 3.2.9 in reflected order, exponent by exponent |
| Crc32.CheckValue | components/fw_meta/fw_meta.c:39-50 | the checksum of the digits 1 to 9 is the published check value 0xCBF43926 |
| Crc32.StepBitsKernel | components/fw_meta/fw_meta.c:39-50 | only the zero register reaches zero: the step is invertible |
| Crc32.RegisterLinear | components/fw_meta/fw_meta.c:39-50 | the register of the difference of two strings is the difference of their registers |
| Crc32.RegisterOfWindow | components/fw_meta/fw_meta.c:39-50 | four bytes act as one 32-bit word pushed through 32 steps |
| Crc32.WindowSurvives | components/fw_meta/fw_meta.c:39-50 | a difference confined to four bytes of a longer string cannot vanish in the register |
| Crc32.BurstDetected | components/fw_meta/fw_meta.c:39-50 | two different equal-length strings that differ only inside four consecutive bytes have different checksums |
| FwMeta.LeRoundTrip | components/fw_meta/fw_meta.c:16-25 | little-endian fields read back the number stored |
| FwMeta.MetaValidIff | components/fw_meta/fw_meta.c:52-70 | a record is valid exactly if its words hold 0x57424752, a dotted version, a size from 304 to the partition and the CRC of bytes 0 to 51, and forced exactly if its last word is not 0xFFFFFFFF |
| FwMeta.CtrlValidIff | components/fw_meta/fw_meta.c:61-65 | a control record is valid exactly if its first word is 0x4C525443 and its last the CRC of bytes 0 to 7 |
| FwMeta.CheckedHeadIff | components/fw_meta/fw_meta.c:92-110 | which heads are accepted, and which are refused for what, in the numbers of the image format: magic 0xE9, chip 5, descriptor 0xABCD5432, block 0x57424752, dotted version |
| FwMeta.IsValidFwVersion | components/fw_meta/fw_meta.c:27-37 | true exactly for DD.DD.DD with its terminator, and never reads past a shorter terminated string |
| FwMeta.BuiltMetaFields | components/fw_meta/fw_meta.c:72-81 | a built record reads back version, size and digest, is not forced, and carries the CRC of its covered bytes |
| FwMeta.BuiltMetaValidity | components/fw_meta/fw_meta.c:52-81 | a built record is valid if and only if its version is well formed and its size lies between the image head and the partition |
| FwMeta.ForceOutsideValidity | components/fw_meta/fw_meta.c:52-70 | the force word decides neither validity nor any other field |
| FwMeta.CorruptionRejected | components/fw_meta/fw_meta.c:52-59 | a valid record with up to four consecutive covered bytes changed is invalid |
| FwMeta.BuiltCtrlRecord | components/fw_meta/fw_meta.c:61-65 | a built control record is valid and reads back both counts |
| FwMeta.FirmwareStartsIff | components/fw_meta/fw_meta.c:113-143 | the firmware is chosen exactly for an unforced, valid, matching record outside deep sleep with fewer than three counted crashes; how the count moves; when the crash loop is declared |
| FwMeta.DecisionIff | components/fw_meta/fw_meta.c:113-143 | each other mode is decided on exactly its inputs: requested, deep sleep, nothing installed, a third counted crash; the count moves by one for a counted crash and saturates at 255 |
| FwFlash.ProgramErased | components/fw_meta/fw_meta_flash.c:48-55 | programming erased flash stores exactly the data, although programming only clears bits |
| FwFlash.ProgramForce | components/fw_meta/fw_meta_flash.c:57-75 | programming the force word over any sector clears that word and nothing else |
| FwFlash.SameCovered | components/fw_meta/fw_meta_flash.c:57-75 | a torn force write changes neither the validity of the record nor its fields |
| FwFlash.FwFlash.EraseFwMetaRecord | components/fw_meta/fw_meta_flash.c:39-46 | erased, or failed or cut with the old, the erased or an invalid sector |
| FwFlash.FwFlash.WriteFwMetaRecord | components/fw_meta/fw_meta_flash.c:48-55 | programmed over what was there, or failed or cut with the old, the new or an invalid sector |
| FwFlash.FwFlash.ProgramFwMetaForceFlag | components/fw_meta/fw_meta_flash.c:57-75 | success means that the force word is set in flash, and undisturbed it succeeds; in every case validity is unchanged |
| FwFlash.FwFlash.ReadFwCtrlRecord | components/fw_meta/fw_meta_flash.c:77-86 | always a valid record, with the stored count and reserved byte unless the read failed and zeros were put in their place |
| FwFlash.FwFlash.WriteFwCtrlRecord | components/fw_meta/fw_meta_flash.c:88-99 | whatever happens the stored count is the old one, zero or the new one |
| FwFlash.FwFlash.WriteOta | updater/main/updater_http.c:269-274 | appends, or rejects exactly a wrong first byte, or fails |
| FwFlash.FwFlash.EndOta | updater/main/updater_http.c:355-357 | releases the handle whatever the result; undisturbed it succeeds exactly for a verified image |
| UpdaterHttp.UploadWorker.ProcessChunk | updater/main/updater_http.c:257-274 | a rejected head or first byte is the verdict of the whole body, with nothing written from this chunk, and the rest of the body is taken unless the link breaks |
| UpdaterHttp.UploadWorker.DiscardBody | updater/main/updater_http.c:215-231 | takes the rest of the body in chunks of at most 4096 bytes, completely exactly if the link stays healthy |
| UpdaterHttp.BodyVerdictIff | updater/main/updater_http.c:196-209 | accepted exactly: at least 304 bytes, byte 0 0xE9, chip 5, descriptor 0xABCD5432, block 0x57424752, DD.DD.DD with its terminator; each rejection exactly for the first of these that is missing |
| UpdaterHttp.UploadVerdictIff | updater/main/updater_http.c:336-359 | the reply a complete undisturbed upload deserves, one condition on size, body and verification for each reply |
| UpdaterHttp.UploadWorker.ReceiveImage | updater/main/updater_http.c:237-289 | for every split of the body: on success flash holds exactly the body and the head its first 304 bytes; interrupted exactly when the link was not healthy; otherwise, flash failures aside, the verdict is a function of the body; a head rejection has written exactly the chunks before the one that completes the head or brings a wrong first byte, or a whole body too short for a head; whatever the reply, the whole body is taken unless the link breaks; by `BodyVerdictIff` the accepted bodies are the firmware images |
| UpdaterHttp.UploadWorker.ClearCrashCount | updater/main/updater_http.c:292-307 | the count becomes zero and the reserved byte stays, unless something failed |
| UpdaterHttp.UploadWorker.CommittedRecord | updater/main/updater_http.c:319-322 | the record about to be committed is valid, unforced, and describes the complete verified image in ota_0 |
| UpdaterHttp.UploadWorker.CommitMetaRecord | updater/main/updater_http.c:313-333 | success leaves a record that boots the image and shows its version, and without a failure it succeeds; any failure or cut leaves a record that is invalid or describes the image, and an erased one unless the erase failed too |
| UpdaterHttp.UploadWorker.PrepareFlash | updater/main/updater_http.c:342-350 | the record is erased before the partition is touched, so the commit rule holds at every cut |
| UpdaterHttp.UploadWorker.RunUpload | updater/main/updater_http.c:336-359 | the commit rule at every outcome; undisturbed, the result is interrupted exactly for a broken link and otherwise `UploadVerdict` of the body; on success the booting record states the size of the body held; a size rejection changes nothing, any other leaves sector 0 erased and no version shown unless its erase failed; the crash count is kept or cleared |
| UpdaterHttp.UploadWorker.FinishUpload | updater/main/updater_http.c:355-358 | from a complete body to a booting record, or to a record that is invalid or describes the image; undisturbed, to a booting record exactly if the image verifies |
| UpdaterHttp.UploadWorker.ProcessUpload | updater/main/updater_http.c:383-410 | as RunUpload for the reply sent, with no OTA handle left open and the version of the image body shown; the settled state is done exactly for a 200 reply |
| FwBoot.IsOtaMatchingRecord | updater/main/updater_main.c:53-75 | true only for a match, false for a match only after a failure |
| FwBoot.SaveCrashCount | updater/main/updater_main.c:78-91 | an unchanged count writes nothing; otherwise the stored count is the old one, zero or the new one, and undisturbed the new one with the reserved byte kept |
| FwBoot.ClearForceFlag | updater/main/updater_main.c:98-117 | the rewritten record is the same record unforced; every failure and cut keeps the commit rule |
| FwBoot.GatherInputs | updater/main/updater_main.c:162-180 | what the boot found is what flash holds, or safer after a failed read; undisturbed it is exactly what flash holds, and a valid record always matches ota_0 |
| FwBoot.PassThrough | updater/main/updater_main.c:182-195 | starts the firmware exactly if the jump can be prepared, else shows updater mode with its reason and version; a start that is no crash leaves the control sector alone; the count stays below three |
| FwBoot.EnterUpdater | updater/main/updater_main.c:196-207 | ends in updater mode for the decided reason with the installed version; a served request is consumed: the record is the same one unforced; without a request the record is left alone; the commit rule and the count it should leave |
| FwBoot.AppMain | updater/main/updater_main.c:162-208 | an undisturbed start decides on exactly what is stored and ends in the firmware or in updater mode as decided; it leaves the record as it was but unforced, so a request is served once; the firmware starts only from a valid unforced record; a non-crash pass-through writes no flash; the count never reaches three and the reserved byte is kept |
| FwBoot.RequestFwUpdate | main/fw_update/fw_update.c:38-55 | success means a valid record with the force word set, and undisturbed it succeeds exactly if there is a valid record; without one nothing is written; nothing but the force word ever changes |
| FwBoot.MarkFirmwareHealthy | main/fw_update/fw_update.c:85-101 | the count is kept or zero; zero, with the reserved byte kept, when nothing failed |
| FwBoot.StartLogged | updater/main/updater_main.c:181-207 | an undisturbed start leaves the number of counted crashes since the last clear, and never starts the firmware on the third |
| FwBoot.RunDevice | updater/main/updater_main.c:162-208 | over every run of starts, uploads, force requests and healthy marks with any failure and any cut: a valid record always describes the complete verified image, and the count stays below three; while no operation on the control sector fails or is cut, the count equals the counted crashes since the last clear and the firmware never starts on the third |
| FwBoot.UploadThenRestart | updater/main/updater_http.c:383-410 | a 200 reply implies that the next undisturbed software restart starts the uploaded image if the jump can be prepared, whatever failed during the upload |
| FwBoot.RequestThenRestarts | updater/main/updater_main.c:196-201 | a request from the firmware is served by exactly one start: the software restart enters the updater, the next undisturbed start that is neither deep sleep nor a third crash is back in the firmware, and the record is what it was before the request |
| UploadHandoff.StepInv | updater/main/updater_http.c:336-472 | every step of either task keeps the whole invariant |
| UploadHandoff.RunInv | updater/main/updater_http.c:336-472 | the invariant holds in every state of every run |
| UploadHandoff.OneUploadAtATime | updater/main/updater_http.c:430-472 | at most one upload is between claim and settlement; the hand-off queue is empty at every send; the worker's own size check never rejects |
| UploadHandoff.ClaimedIff | updater/main/updater_http.c:430-444 | a POST is claimed exactly when no upload is in progress and none has succeeded; otherwise it changes nothing |
| UploadHandoff.StateTellsOutcome | updater/main/updater_http.c:398-469 | uploading exactly while an upload is held; done exactly after a successful settlement, error after every other end, refusals before the hand-off included |
| UploadHandoff.CompletedOnce | updater/main/updater_http.c:409-469 | no request is completed twice or without having begun, and all are completed when both tasks rest |
| UploadHandoff.FlashIsTheWorkers | updater/main/updater_http.c:336-410 | flash and the OTA handle change only by the worker for the one claimed upload, at most one handle is open, and flash operations of different uploads never interleave |
| UploadHandoff.FinishedIsAbsorbing | updater/main/updater_http.c:398-408 | after a successful upload no event changes the state, flash, the version or the counters |
| UploadHandoff.RepliesAreSane | updater/main/updater_http.c:175-185 | every status reply in every run has received at most total, and equal when it says done; a reply that says done quotes the version just installed if and only if that was read after it was set, or was the same; it quotes none exactly if the version was read between being cleared and being set, or none was installed before |
| UploadHandoff.DoneIsFinal | updater/main/updater_http.c:175-185 | once a reply has said done, every later request is answered done with the installed version |
| UploadHandoff.VersionEventsCounted | updater/main/updater_http.c:130-138 | the counters compared in those two results are the numbers of clearing and setting events so far |
| UploadHandoff.WorkerAdvances | updater/main/updater_http.c:383-422 | the server never moves the worker, and every worker event brings its upload nearer to completion |
| UploadHandoff.WorkerCanMove | updater/main/updater_http.c:413-422 | a handed-over upload always has a next worker event |
| UploadHandoff.DoneWithNothingInstalled | updater/main/updater_http.c:175-185 | a reachable status reply that says done and names no version, after an upload of the smallest size |
| UploadHandoff.DoneWithOldVersion | updater/main/updater_http.c:175-185 | a reachable status reply that says done and names the version that was replaced |
| Ws2812.AcceptedTimingExact | main/led_controller/led_controller.c:91-125 | every accepted timing set is emitted exactly, with low phases of at least 100 ns and the exact reset |
| Ws2812.DutyProductsFit | main/ws2812_timing/ws2812_timing.c:31-56 | the duty cross products of an in-range set do not overflow 32 bits |
| Ws2812.TimingAcceptedIff | main/ws2812_timing/ws2812_timing.c:31-56 | each result of the check has its exact condition in the numbers of the ranges, and the last one in duty quotients as real numbers: bit 0 must have the smaller one |
| Ws2812.MostSignificantFirst | main/led_controller/led_controller.c:91-113 | the eight bits sent for a byte add up to it with the first one worth 128 |
| Ws2812.FrameOnWire | main/led_controller/led_controller.c:128-159 | every data symbol of an accepted timing set is high and then low for the commanded times of its pixel bit, in nanoseconds, and the reset symbol follows |
| Ws2812.AverageBounds | main/rmt_pulse_monitor/rmt_pulse_monitor.c:237-240 | a rounded average lies between the bounds of its values and within one half of the true mean |
| PulseDecode.AggregateWs2812Pulses | main/rmt_pulse_monitor/rmt_pulse_monitor.c:139-223 | the one-pass accumulators give minimum, maximum, average, match count and low times of each class as defined over the whole frame; a wrong symbol count is refused |
| PulseDecode.ClassAverage | main/rmt_pulse_monitor/rmt_pulse_monitor.c:139-223 | the class average lies between a minimum and a maximum that occur, within one half of the mean |
| PulseDecode.CaptureRoundTrip | main/rmt_pulse_monitor/rmt_pulse_monitor.c:139-223 | a frame off by less than half the gap decodes to the commanded bits with match count 144, and both averages are off by less than half the gap |
| PulseDecode.ExactCapture | main/rmt_pulse_monitor/rmt_pulse_monitor.c:139-223 | without deviation each class average is the commanded high time |
| PulseMeaning.SentWithin | main/rmt_pulse_monitor/rmt_pulse_monitor.c:350-360 | a send captured within d ns of what was commanded publishes done, 144 matches, and for each bit the high time commanded for that bit within d ns; zero for a bit that was not sent |
| PulseMeaning.SentExactly | main/rmt_pulse_monitor/rmt_pulse_monitor.c:350-360 | an exact capture with both bits publishes exactly the two commanded high times, bit 0 as bit 0 |
| PulseMeaning.SentUntold | main/rmt_pulse_monitor/rmt_pulse_monitor.c:139-223 | with equal commanded high times the match is not available, and the averages go by the bits sent |
| PulseMeaning.SendDoneIff | main/rmt_pulse_monitor/rmt_pulse_monitor.c:350-360 | any send is done exactly for 144 symbols, and the match count is the number of positions whose decoded bit is the bit sent |
| PulseMeaning.DecodesByMidpoint | main/rmt_pulse_monitor/rmt_pulse_monitor.c:126-137 | a pulse is bit 0 exactly up to the midpoint of the commanded high times, and invalid exactly if it starts low |
| PulseMeaning.ExampleIsEarliest | main/rmt_pulse_monitor/rmt_pulse_monitor.c:139-223 | the example times of a class are those of its earliest symbol before the last |
| PulseDecode.EncodedFrameDecodes | main/led_controller/led_controller.c:128-159 | for every accepted timing set with different high times and every 18-byte pattern the encoder's own frame decodes fully |
| PulseDecode.MeasureSpread | main/rmt_pulse_monitor/rmt_pulse_monitor.c:242-303 | the first pass finds the shortest and longest usable high time and their number |
| PulseDecode.SumClasses | main/rmt_pulse_monitor/rmt_pulse_monitor.c:242-303 | the second pass holds the class sums modulo 2^32 and the counts |
| PulseDecode.SumFits | main/rmt_pulse_monitor/rmt_pulse_monitor.c:242-303 | up to 144 symbols the sums do not overflow 32 bits, rounding term included |
| PulseDecode.AnalyzeWs2812Read | main/rmt_pulse_monitor/rmt_pulse_monitor.c:242-303 | with 32-bit sums the analysis of up to 144 symbols is the analysis over unbounded numbers |
| PulseDecode.ReadCountsAdd | main/rmt_pulse_monitor/rmt_pulse_monitor.c:242-303 | the class counts sum to the usable count |
| PulseDecode.SplitSeparates | main/rmt_pulse_monitor/rmt_pulse_monitor.c:242-303 | a split leaves both classes non-empty, separated by the midpoint, with the bit-0 average below the bit-1 average |
| PulseDecode.IdealReadRecovered | main/rmt_pulse_monitor/rmt_pulse_monitor.c:242-303 | an ideal frame with high times at least 100 ns apart and both bits before the last symbol is recovered exactly: validity, usable count, count of each bit, high times and periods |
| PulseMeaning.ReadDoneIff | main/rmt_pulse_monitor/rmt_pulse_monitor.c:368-379 | a read is done exactly with at least eight complete pulses, and otherwise a count error without values |
| PulseMeaning.ReadExactly | main/rmt_pulse_monitor/rmt_pulse_monitor.c:368-379 | a source with two exact pulse shapes at least 100 ns apart is published as it is: both high times and both periods, the shorter shape as bit 0 |
| PulseMeaning.UnsplitIsOneClass | main/rmt_pulse_monitor/rmt_pulse_monitor.c:242-303 | high times less than 100 ns apart are one class: bit 0 exactly up to a middle of 625 ns |
| PulseMeaning.ReadOneShape | main/rmt_pulse_monitor/rmt_pulse_monitor.c:368-379 | a source with one exact pulse shape is published as that one bit, decided at 625 ns |
| PulseSafety.PublishCaptureInv | main/rmt_pulse_monitor/rmt_pulse_monitor.c:555-593 | a published capture is the measurement of one arm's own frame with that arm's request; what it contains is said by `PulseMeaning` |
| PulseSafety.CopyMeasures | main/rmt_pulse_monitor/rmt_pulse_monitor.c:555-593 | decoding the private copies gives the measurement of the request and frame they were copied from |
| PulseSafety.StepInv | main/rmt_pulse_monitor/rmt_pulse_monitor.c:696-796 | every step of any task or of the hardware keeps the invariant |
| PulseSafety.RunInv | main/rmt_pulse_monitor/rmt_pulse_monitor.c:609-638 | the invariant holds in every state of every interleaving |
| PulseSafety.CapturesArePaired | main/rmt_pulse_monitor/rmt_pulse_monitor.c:529-593 | every outcome is a time-out for its arm or the measurement of that arm's request and that arm's own frame |
| PulseSafety.SingleOutcome | main/rmt_pulse_monitor/rmt_pulse_monitor.c:486-638 | outcomes come in strictly increasing arm order: no arm gets two |
| PulseSafety.NoLostWakeUp | main/rmt_pulse_monitor/rmt_pulse_monitor.c:437-638 | whenever the lock is free and the decode task blocks on an empty semaphore, no receive is pending and the latest arm has its outcome |
| PulseProgress.SectionAdvances | main/rmt_pulse_monitor/rmt_pulse_monitor.c:696-796 | every step of the lock-protected section brings it nearer to giving the lock back |
| PulseProgress.SectionCanMove | main/rmt_pulse_monitor/rmt_pulse_monitor.c:696-796 | and it always has a next step, whatever the driver answers |
| PulseProgress.DecodeAdvances | main/rmt_pulse_monitor/rmt_pulse_monitor.c:486-638 | every step of the decode task, stale events and restarts included, brings it nearer to rest |
| PulseProgress.OthersKeepRank | main/rmt_pulse_monitor/rmt_pulse_monitor.c:312-321 | no other step sets it back, except a successful arm |
| PulseProgress.ArmCost | main/rmt_pulse_monitor/rmt_pulse_monitor.c:724-796 | a successful arm sets it back by a bounded number of steps |
| PulseProgress.DecodeCanMove | main/rmt_pulse_monitor/rmt_pulse_monitor.c:609-638 | a decode task that is not at rest has a next step whenever no arming task holds the lock |
| PulseProgress.RestUnblocksArming | main/rmt_pulse_monitor/rmt_pulse_monitor.c:609-638 | at rest with the lock free nothing is pending, so the next call can arm |
| PulseSafety.PublishEffect | main/rmt_pulse_monitor/rmt_pulse_monitor.c:335-379 | a publication either rejects a call or settles the oldest unsettled arm |
| PulseSafety.InternalEffect | main/rmt_pulse_monitor/rmt_pulse_monitor.c:724-796 | an internal step keeps the callers' requests or turns one into the next arm |
| TunerPipeline.PostResultInv | main/provisioning/provisioning.c:256-266 | a published measurement is the first one for its number |
| TunerPipeline.SystemStepInv | main/http_portal/http_portal.c:327-389 | every step of the composed system keeps its invariant |
| TunerPipeline.SystemRunInv | main/http_portal/http_portal.c:327-389 | the invariant holds over every run |
| TunerPipeline.AnswersOnlyProgress | main/http_portal/tuner_result.c:72-92 | over every run the answer for an issued number goes pending, one terminal state, superseded, possibly skipping, never back; a terminal answer keeps its values; when it moves is said by `TunerAnswers.AnswerIff` |
| TunerPipeline.MeasuredAnswersAreGenuine | main/http_portal/http_portal.c:368-389 | a done or read answer for n carries the measurement of the capture armed for the request issued as n, of the requested kind; what that is, is said by `TunerAnswers.ServedSend` and `TunerAnswers.ServedRead` |
| TunerAnswers.StoreServes | main/http_portal/http_portal.c:110-123 | handling the result of a number serves it at once, unless a later number is served already |
| TunerAnswers.RecordIsLatest | main/http_portal/http_portal.c:110-123 | over every run the stored record is the handled result with the highest number, and a number never has two results |
| TunerAnswers.AnswerIff | main/http_portal/tuner_result.c:72-92 | over every run, by the results handled so far: unknown exactly for numbers never issued, pending exactly while none of the number or a later one was handled, terminal with its own values once its own was and no later one, superseded exactly once a later one was |
| TunerAnswers.HandledStaysServed | main/http_portal/http_portal.c:110-123 | once the result of a number has been handled it is served until a later one supersedes it: never pending again |
| TunerAnswers.ServedSend | main/http_portal/http_portal.c:368-389 | every done answer for n: the timing issued as n was accepted, the capture had 144 symbols, and if it was off by at most d ns the served high times are those issued for n within d ns, each for its own bit, with 144 matches |
| TunerAnswers.ServedRead | main/http_portal/http_portal.c:368-389 | every read answer for n: the capture armed for n had at least eight complete pulses, and two exact pulse shapes are served as they are |
| TunerDelivery.DeliversSend | main/led_controller/led_controller.c:252-310 | from every invariant state at rest, whatever came before, an accepted timing set can be issued, forwarded, driven, captured, decoded, posted and stored, ending at rest with the terminal answer for its number: for an exact capture the very high times submitted |
| TunerDelivery.DeliversRead | main/rmt_pulse_monitor/rmt_pulse_monitor.c:368-379 | the same for a read, with a read answer exactly as the capture deserves |
| TunerDelivery.Arms | main/rmt_pulse_monitor/rmt_pulse_monitor.c:696-796 | at rest an arm can succeed, also on a channel that a failed restart has left disabled |
| TunerDelivery.StartsAtRest | main/rmt_pulse_monitor/rmt_pulse_monitor.c:655-688 | a started device is at rest, so its first submission can be served |
| Button.RingTestExact | main/button/button.c:35-44 | the ring test agrees with the true-time window |
| Button.DroppedStartsNeverMatter | main/button/button.c:53-65 | press starts forgotten by the idle reset can never complete a gesture |
| Button.StaleRingFalselyMatches | main/button/button.c:53-65 | without the idle reset the detector is wrong: for every start and hold time there is a run of samples 128 ms apart on which it fires and true time does not |
| Button.ButtonState.IsGestureComplete | main/button/button.c:35-44 | true exactly when the last five true press starts span at most 3000 ms |
| Button.ButtonState.CountGesturePress | main/button/button.c:68-75 | the ring holds the newest press starts |
| Button.ButtonState.ProcessGestureRelease | main/button/button.c:53-65 | the released or idle sample emits exactly the specified event |
| Button.ButtonState.ProcessButtonSample | main/button/button.c:77-98 | each sample emits the event and reaches the state of the true-time specification, and changes the fields as the detector with the idle reset does |
| Button.RunButton | main/button/button.c:77-98 | over every sample sequence with bounded gaps the events are those of the specification that keeps all press starts, and those of the detector with the idle reset |
| CredentialStore.IsPasswordValid | main/credential_store/credential_store.c:24-48 | empty, 8 to 63 printable characters or exactly 64 hexadecimal digits |
| CredentialStore.IsCredentialsValid | main/credential_store/credential_store.c:50-60 | a terminated name of 1 to 32 bytes and an acceptable password |
| CredentialStore.ReplaceIsAtomic | main/credential_store/credential_store.c:156-181 | for every answer of NVS the recoverable pair becomes the old one or the new one, and after success the new one is recoverable and active |
| CredentialStore.FailedKeepsActiveIff | main/credential_store/credential_store.c:168-169 | a failed replacement keeps the active pair if it failed in opening the namespace or in storing the pending record; otherwise exactly if the write of the active record took no effect or wrote what was there |
| CredentialStore.FailedMayChangeActive | main/credential_store/credential_store.c:156-181 | answers of NVS under which a failed replacement has changed the active pair |
| CredentialStore.RecoveryChangesIff | main/credential_store/credential_store.c:87-113 | recovery, cut anywhere, changes the recoverable pair if and only if the read of a complete pending pair other than the active one fails and its erase takes effect |
| CredentialStore.RecoveryMayLosePending | main/credential_store/credential_store.c:87-113 | records and answers for which recovery falls back to the old pair |
| CredentialStore.UndisturbedRecovery | main/credential_store/credential_store.c:87-113 | undisturbed, recovery leaves no pending record and the recoverable pair active |
| CredentialStore.StartsKeepPair | main/credential_store/credential_store.c:87-127 | any number of starts, each cut anywhere, keeps the recoverable pair while no read of the pending record fails |
| CredentialStore.Store.WriteAndVerifyRecord | main/credential_store/credential_store.c:63-84 | the record changes exactly if the write took effect, and success means that write, commit and read-back succeeded |
| CredentialStore.Store.ReplaceCredentials | main/credential_store/credential_store.c:156-181 | the calls in this order do what the function of the NVS answers says; a bad pair or a store that is not ready changes nothing |
| CredentialStore.Store.RecoverPendingRecord | main/credential_store/credential_store.c:87-113 | the calls in this order do what the function of the NVS answers says, so the pair changes exactly in the case above |
| CredentialStore.Store.LoadCredentials | main/credential_store/credential_store.c:129-154 | the stored valid active pair exactly if the store is ready and can be read |
| CredentialStore.Store.StartRepeatedly | main/credential_store/credential_store.c:115-127 | repeated starts of the store are the repeated function above |
| Provisioning.GetWifiReconnectDelayMs | main/wifi_manager/wifi_manager.c:36-43 | the early-stopping loop gives the doubled minimum capped at the maximum for every failure count |
| Provisioning.DoubledMonotone | main/wifi_manager/wifi_manager.c:36-43 | the back-off never shrinks with more failures |
| Provisioning.Deadlines | main/provisioning/provisioning.c:43-50 | every deadline in milliseconds, and the back-off 1, 2, 4, 8, 16, 32, then 60 seconds |
| Provisioning.Orchestrator.Start | main/provisioning/provisioning.c:645-669 | every start, also with a store that is not ready, keeps the invariants, and holds the stored pair exactly if it could be read |
| Provisioning.Orchestrator.StopPortalServices | main/provisioning/provisioning.c:395-400 | portal server and DNS are down, and the access point is on exactly if it was and its stop failed |
| Provisioning.Orchestrator.OpenPortal | main/provisioning/provisioning.c:402-420 | all portal services run exactly if every start succeeded; a partial start is undone and retried |
| Provisioning.Orchestrator.StartStationServices | main/provisioning/provisioning.c:335-352 | needs the portal closed; which services are up afterwards, and the deadline that fits them |
| Provisioning.Orchestrator.LeaveProvisioning | main/provisioning/provisioning.c:422-439 | connected exactly if associated, with the station services that start; the access point stays on exactly if its stop fails |
| Provisioning.Orchestrator.HandleStationConnected | main/provisioning/provisioning.c:450-477 | the successor; the stored pair becomes active after a boot attempt, the pair on trial exactly if it was stored, and no other; failures start from zero |
| Provisioning.Orchestrator.HandleStationGotIp | main/provisioning/provisioning.c:378-393 | the state is kept; a connected station retries what is down and gets a deadline |
| Provisioning.Orchestrator.HandleLinkLost | main/provisioning/provisioning.c:479-500 | a lost link forgets the address; a connected station starts over, a reconnect attempt counts as failed, and every other state waits for its own deadline |
| Provisioning.Orchestrator.NoteInput | main/provisioning/provisioning.c:522-531 | a connect associates, a disconnect dissociates, nothing else does either: association is what the last link event of the log says |
| Provisioning.Orchestrator.HandleUpdateRequest | main/provisioning/provisioning.c:502-511 | goes down exactly if the flag was set, with every server stopped and the station dropped |
| Provisioning.Orchestrator.HandleMessage | main/provisioning/provisioning.c:513-560 | every message keeps all invariants and leads to the state the transition table gives; association, address, active pair and failure count afterwards are given by message and state before, both directions; a lost link leaves the station services running |
| Provisioning.Orchestrator.HandleTimeout | main/provisioning/provisioning.c:562-621 | every expiry keeps all invariants and follows the table; a state that may not rest is left or has a deadline again; a successful trial ends connected exactly if the last link event was a connect; the address is lost exactly on entering the portal; failures and boot attempts are counted |
| Provisioning.RunOrchestrator | main/provisioning/provisioning.c:623-669 | over every run from any start: portal server and DNS exactly in the open portal states, the access point also after a failed stop and exactly then, station services only in the station states, at most five boot attempts, every other state with its own deadline, the credentials in use are the stored ones; without a ready store the device never leaves boot and portal; the radio is told to join exactly the pair the state is about and nothing in the resting portal, a tried pair is kept no longer than its trial, the rest of the firmware has been told what the state means, and every message is handled in order |
| Provisioning.AccessPointStaysOn | main/provisioning/provisioning.c:395-439 | a run that ends connected with the access point still on |
| WifiScan.StableSortIsStable | main/wifi_manager/wifi_manager.c:45-56 | the order is a permutation, strongest first, and keeps the old order of equal strengths |
| WifiScan.NormalizedIsBest | main/wifi_manager/wifi_manager.c:45-71 | the list is named, distinct and strongest first, and every named network of the scan is represented by an entry at least as strong unless the full list holds only stronger ones |
| WifiScan.KeptIsPrefix | main/wifi_manager/wifi_manager.c:57-71 | the bound only cuts the list |
| WifiScan.SortEntries | main/wifi_manager/wifi_manager.c:47-56 | the in-place insertion sort is the stable order |
| WifiScan.CompactEntries | main/wifi_manager/wifi_manager.c:57-71 | the in-place compaction keeps exactly the first entry of each name up to the bound |
| WifiScan.NormalizeWifiScanEntries | main/wifi_manager/wifi_manager.c:45-71 | the kept prefix is the normalised list, and nothing beyond the input is touched |
| PortalForm.UnescapeEscape | main/http_portal/portal_form.c:73-102 | a reader of JSON strings (section 7 of RFC 8259) gives back every escaped text byte for byte |
| PortalForm.EscapeIsInert | main/http_portal/portal_form.c:73-102 | escaped text holds no control or markup character and is at most six times as long |
| PortalForm.EscapedByteIs | main/http_portal/portal_form.c:73-102 | every byte is itself, except the two of JSON, the four of HTML and the control characters, each with its exact escape |
| PortalForm.HexValueIff | main/http_portal/portal_form.c:12-18 | a character has the value v exactly if it is the digit of v in lower or upper case |
| PortalForm.EscapeJsonString | main/http_portal/portal_form.c:73-102 | writes the escaped text and terminator exactly when they fit, and reports 0 otherwise |
| PortalForm.DecodesExactlyEncodings | main/http_portal/portal_form.c:12-49 | the decoder accepts exactly the form encodings of texts without a zero byte and gives back the text |
| PortalForm.DecodeFormValue | main/http_portal/portal_form.c:20-49 | succeeds exactly when the input decodes and text and terminator fit, and then holds the text |
| ScanJson.ReadPrintedObject | main/http_portal/http_portal.c:191-195 | a printed entry reads back, name byte for byte |
| ScanJson.BodyReadsBack | main/http_portal/http_portal.c:175-202 | the printed body reads back as its named entries if and only if the first entry has a name or none has |
| ScanJson.WriteScanBody | main/http_portal/http_portal.c:175-207 | the body never exceeds its buffer and ends with the bracket and terminator; it is cut at the first entry that does not fit |
| ScanJson.ServeScan | main/http_portal/http_portal.c:175-207 | a scan normalised and served: the body in the buffer reads back as exactly the first k entries of the normalised list, all of them unless the next does not fit |
| DnsServer.ScannedNameIsEncoded | main/dns_server/dns_server.c:44-56 | the label cursor accepts only encoded names of labels up to 63 bytes (sections 3.1 and 4.1.2 of RFC 1035) |
| DnsServer.EncodedNameIsScanned | main/dns_server/dns_server.c:44-56 | and it accepts all of them that lie inside the packet |
| DnsServer.AnsweredIff | main/dns_server/dns_server.c:36-56 | exactly the single-question queries with type, class and room for the reply are answered |
| DnsServer.ReplyAnswers | main/dns_server/dns_server.c:57-79 | the reply keeps identifier and question, has every header field of a response, and exactly for an address query one answer: type, class, time to live, length and address for the name its pointer leads to |
| DnsServer.BuildDnsResponse | main/dns_server/dns_server.c:36-80 | the in-place responder writes that reply, the same whether or not the buffers are one, and touches nothing otherwise |

## Left out

- FwFlash.FwFlash.BeginOta: the partition content after a begin is arbitrary; partial erasure is not described further.
- FwBoot.AppMain: whether the jump can be prepared is a parameter; the boot loader's own start of ota_0 and the partition lookup are not modelled.
- FwBoot.RunDevice: after a failed or cut operation on the control sector only the bound of the stored count is stated.
- Provisioning.RunOrchestrator: real time is a deadline value that may expire at any time; starvation by a stream of messages is not modelled.
- PulseSafety.NoLostWakeUp: that each task is scheduled is assumed; the receive running on after a failed `rmt_disable()` is outside the model.
- Button.RunButton: the idle reset by an unpressed sample needs samples with gaps below the bound of `Button.IsSafe`.
- ScanJson.WriteScanBody: an encoding error of snprintf() (negative result) is not modelled.
- TunerDelivery.DeliversSend: a run to the answer exists; that the queues have room and every task is scheduled on the way is assumed of that run, and a full queue may drop a message at any other time.
- Provisioning.Orchestrator.HandleMessage: the portal's own status text (SetHttpPortalStatus) and the healthy mark after the uptime are not modelled here; radio events arrive as messages in any order.
- Waiting for the previous frame in the LED controller: a frame is driven or skipped, without the reason.
- The wrap of sequence numbers at 2^32, and the NULL checks of pointer arguments.
- SHA-256 itself, the ESP-IDF image format beyond the checked head bytes, and the internals of FreeRTOS, RMT, NVS, Wi-Fi and httpd.
- ParseTunerForm, GetFormField and ValidateSubmission: the forms are taken as decoded.
- ParseTunerResultSeq, FormatTunerResult, the station origin check and the mDNS service.
- HTML pages, status texts, logging, socket loops, task and GPIO set-up, and the tool that generates metadata.
