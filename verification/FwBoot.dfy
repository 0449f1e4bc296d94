/**
 * Start of the device (updater/main/updater_main.c), the firmware's side of the update protocol
 * (main/fw_update/fw_update.c), and whole runs of the device over its flash.
 */
module FwBoot {
  import opened Crc32
  import opened FwMeta
  import opened FwFlash
  import opened PowerLoss
  import opened UpdaterHttp

  datatype Start = StartedFirmware | UpdaterMode(reason: BootMode, installedVersion: Bytes)

  datatype UpdateRequest = RequestSet | NoRecord | RequestFailed

  /** The record describes the image in ota_0, as far as a start checks it. */
  predicate MatchesOta(record: MetaRecord, ota: Bytes, digest: Bytes)
    requires |ota| >= IMAGE_HEAD_LEN
  {
    && ota[0] == IMAGE_MAGIC
    && EmbeddedMagic(ota) == record[0..4] && EmbeddedVersion(ota) == RecordVersion(record)
    && digest == RecordDigest(record)
  }

  lemma HeadSlices(ota: Bytes, head: Bytes)
    requires |ota| >= IMAGE_HEAD_LEN && head == ota[..IMAGE_HEAD_LEN]
    ensures head[0] == ota[0] && EmbeddedMagic(head) == EmbeddedMagic(ota)
        && EmbeddedVersion(head) == EmbeddedVersion(ota)
  {
  }

  /** An image that a valid record describes passes the check at every start. */
  lemma DescribedMatches(record: MetaRecord, ota: Bytes, otaSize: nat, isVerified: Bytes -> bool,
      digestOf: Bytes -> Bytes)
    requires IsMetaRecordValid(record, otaSize) && Describes(record, ota, isVerified, digestOf)
    ensures MatchesOta(record, ota, digestOf(ota))
  {
    HeadSlices(ota, ota[..IMAGE_HEAD_LEN]);
  }

  method IsOtaMatchingRecord(flash: FwFlash, record: MetaRecord) returns (r: Op<bool>)
    requires flash.Valid()
    modifies flash`isFaulty
    ensures flash.Valid()
    ensures old(flash.isFaulty) || r.PowerCut? ==> flash.isFaulty
    ensures r == Done(true) ==> MatchesOta(record, flash.ota, flash.digestOf(flash.ota))
    ensures r == Done(false) && MatchesOta(record, flash.ota, flash.digestOf(flash.ota)) ==> flash.isFaulty
  {
    var head :- flash.ReadOtaHead();
    if !head.0 {
      return Done(false);
    }
    HeadSlices(flash.ota, head.1);
    if head.1[0] != IMAGE_MAGIC || EmbeddedMagic(head.1) != record[0..4]
        || EmbeddedVersion(head.1) != RecordVersion(record) {
      return Done(false);
    }
    var digest :- flash.ComputeFwImageSha256();
    return Done(digest.0 && digest.1 == RecordDigest(record));
  }

  /** Writes the control record only if the count changed. */
  method SaveCrashCount(flash: FwFlash, stored: CtrlRecord, crashCount: nat) returns (r: Op<()>)
    requires flash.Valid() && crashCount < 256
    modifies flash`ctrlSector, flash`isCtrlFaulty
    ensures flash.Valid()
    ensures old(flash.isCtrlFaulty) || r.PowerCut? ==> flash.isCtrlFaulty
    ensures crashCount == CrashCount(stored) ==>
              r == Done(()) && flash.ctrlSector == old(flash.ctrlSector)
                  && flash.isCtrlFaulty == old(flash.isCtrlFaulty)
    ensures flash.StoredCount() in {old(flash.StoredCount()), 0, crashCount}
    ensures crashCount != CrashCount(stored) && !flash.isCtrlFaulty ==>
              flash.StoredCount() == crashCount && flash.StoredAttempts() == BootAttempts(stored)
  {
    if crashCount == CrashCount(stored) {
      return Done(());
    }
    BuiltCtrlRecord(crashCount, BootAttempts(stored));
    var _ :- flash.WriteFwCtrlRecord(BuildCtrlRecord(crashCount, BootAttempts(stored)));
    return Done(());
  }

  function WithForceCleared(record: MetaRecord): MetaRecord {
    record[..56] + FORCE_CLEAR
  }

  /** Erase sector 0, rewrite the same record unforced, read it back. Validity can only be lost, never gained. */
  method ClearForceFlag(flash: FwFlash, record: MetaRecord) returns (r: Op<bool>)
    requires flash.CommitSafe() && record == flash.StoredMeta()
    modifies flash`metaSector, flash`isFaulty, flash`hasEraseFailed
    ensures flash.CommitSafe()
    ensures old(flash.isFaulty) || r != Done(true) ==> flash.isFaulty
    ensures r == Done(true) ==> flash.StoredMeta() == WithForceCleared(record)
  {
    var cleared := WithForceCleared(record);
    ForceOutsideValidity(record, cleared, flash.otaSize);
    ErasedIsInvalid(flash.otaSize);
    ProgramErased(cleared);
    var erased :- flash.EraseFwMetaRecord();
    if !erased {
      return Done(false);
    }
    var written :- flash.WriteFwMetaRecord(cleared);
    if !written {
      return Done(false);
    }
    var readBack :- flash.ReadFwMetaRecord();
    return Done(readBack.0 && readBack.1 == cleared);
  }

  datatype Gathered = Gathered(inputs: BootInputs, record: MetaRecord, ctrl: CtrlRecord)

  /** Inputs of the boot decision, gathered before anything is written. */
  method GatherInputs(flash: FwFlash, reason: ResetReason)
    returns (r: Op<Gathered>)
    requires flash.CommitSafe()
    modifies flash`isFaulty, flash`isCtrlFaulty
    ensures flash.CommitSafe()
    ensures (old(flash.isFaulty) ==> flash.isFaulty) && (old(flash.isCtrlFaulty) ==> flash.isCtrlFaulty)
    ensures r.PowerCut? ==> flash.isFaulty || flash.isCtrlFaulty
    ensures r.Done? ==>
              var Gathered(inputs, record, ctrl) := r.value;
              && inputs.resetReason == reason && inputs.crashCount == CrashCount(ctrl)
              && (inputs.crashCount == flash.StoredCount() || inputs.crashCount == 0)
              && (!flash.isCtrlFaulty ==>
                    inputs.crashCount == flash.StoredCount() && BootAttempts(ctrl) == flash.StoredAttempts())
              && (!flash.isFaulty ==> record == flash.StoredMeta())
              && (inputs.isRecordValid || inputs.isForceRequested ==> record == flash.StoredMeta())
              && (inputs.isForceRequested ==> IsForceRequested(record))
              && (inputs.isOtaMatch ==> inputs.isRecordValid)
              && (inputs.isRecordValid ==>
                  flash.HasValidRecord() && inputs.isForceRequested == IsForceRequested(record))
              && (!flash.isFaulty ==>
                    && inputs.isForceRequested == IsForceRequested(flash.StoredMeta())
                    && inputs.isRecordValid == inputs.isOtaMatch == flash.HasValidRecord())
  {
    hide CheckEmbeddedMeta;
    hide IsMetaRecordValid;
    hide RecordSize;
    hide MatchesOta;
    hide IsForceRequested;
    hide StoredCrashCount;
    hide Describes; hide RecordVersion; hide RecordDigest;
    var metaRead :- flash.ReadFwMetaRecord();
    var record := metaRead.1;
    var ctrl :- flash.ReadFwCtrlRecord();
    ErasedIsInvalid(flash.otaSize);
    ErasedNotForced();
    var installed :- CheckInstalled(flash, record);
    return Done(Gathered(BootInputs(IsForceRequested(record), installed.0, installed.1, CrashCount(ctrl), reason),
        record, ctrl));
  }

  /** Validity of the record and, only for a valid one, its match with ota_0. */
  method CheckInstalled(flash: FwFlash, record: MetaRecord) returns (r: Op<(bool, bool)>)
    requires flash.CommitSafe()
    modifies flash`isFaulty
    ensures flash.CommitSafe()
    ensures old(flash.isFaulty) || r.PowerCut? ==> flash.isFaulty
    ensures r.Done? ==> r.value.0 == IsMetaRecordValid(record, flash.otaSize)
    ensures r.Done? && !flash.isFaulty && record == flash.StoredMeta() ==> r.value.1 == r.value.0
    ensures r.Done? && r.value.1 ==> r.value.0
  {
    hide CheckEmbeddedMeta;
    hide IsMetaRecordValid;
    hide MatchesOta;
    var isValid := IsMetaRecordValid(record, flash.otaSize);
    if !isValid {
      return Done((false, false));
    }
    if record == flash.StoredMeta() {
      DescribedMatches(record, flash.ota, flash.otaSize, flash.isVerified, flash.digestOf);
    }
    var isMatch :- IsOtaMatchingRecord(flash, record);
    return Done((true, isMatch));
  }

  lemma ErasedNotForced()
    ensures !IsForceRequested(MetaOf(Erased()))
  {
    assert MetaOf(Erased())[56..60] == FORCE_CLEAR;
  }

  /** Count left in the control record by an undisturbed start. */
  function CountAfterStart(inputs: BootInputs): nat {
    if DecideFwBoot(inputs).mode == UpdaterCrashLoop then 0 else DecideFwBoot(inputs).crashCount
  }

  // What GatherInputs found is consistent with the flash.
  ghost predicate IsConsistent(flash: FwFlash, g: Gathered)
    reads flash
  {
    && flash.CommitSafe() && flash.StoredCount() < CRASH_RESET_LIMIT
    && g.inputs.crashCount == CrashCount(g.ctrl) && g.inputs.crashCount <= flash.StoredCount()
    && (g.inputs.isForceRequested ==> g.record == flash.StoredMeta())
  }

  // The control sector as an undisturbed start leaves it: its own count, and the reserved byte as it was.
  twostate predicate IsCounted(flash: FwFlash, g: Gathered, isDone: bool)
    reads flash
  {
    !flash.isCtrlFaulty && g.inputs.crashCount == old(flash.StoredCount())
        && BootAttempts(g.ctrl) == old(flash.StoredAttempts()) ==>
      && flash.StoredCount() == (if isDone then CountAfterStart(g.inputs) else old(flash.StoredCount()))
      && flash.StoredAttempts() == old(flash.StoredAttempts())
  }

  /** Store the count if it changed, then jump; a jump that cannot be prepared ends in updater mode. */
  method PassThrough(flash: FwFlash, g: Gathered, isJumpPrepared: bool) returns (r: Op<Start>)
    requires IsConsistent(flash, g) && DecideFwBoot(g.inputs).mode == Firmware
    modifies flash`ctrlSector, flash`isFaulty, flash`isCtrlFaulty
    ensures flash.CommitSafe() && flash.StoredCount() < CRASH_RESET_LIMIT
    ensures (old(flash.isFaulty) ==> flash.isFaulty) && (old(flash.isCtrlFaulty) ==> flash.isCtrlFaulty)
    ensures r.PowerCut? ==> flash.isFaulty || flash.isCtrlFaulty
    ensures !IsCrashReset(g.inputs.resetReason) ==> flash.ctrlSector == old(flash.ctrlSector)
    ensures IsCounted(flash, g, r.Done?)
    ensures r.Done? ==> r.value == if isJumpPrepared then StartedFirmware
                                   else UpdaterMode(UpdaterBootSelectFailed, ShownVersion(g))
  {
    hide CheckEmbeddedMeta;
    hide IsMetaRecordValid;
    hide RecordSize;
    hide RecordVersion;
    FirmwareStartsIff(g.inputs);
    var _ :- SaveCrashCount(flash, g.ctrl, DecideFwBoot(g.inputs).crashCount);
    if isJumpPrepared {
      return Done(StartedFirmware);
    }
    return Done(UpdaterMode(UpdaterBootSelectFailed, ShownVersion(g)));
  }

  /** The version that updater mode shows: that of an installed image, or none. */
  function ShownVersion(g: Gathered): Bytes {
    if g.inputs.isOtaMatch then RecordVersion(g.record) else []
  }

  /** Clear the force flag if it was set and the count after a crash loop, then serve updater mode. */
  method EnterUpdater(flash: FwFlash, g: Gathered) returns (r: Op<Start>)
    requires IsConsistent(flash, g) && DecideFwBoot(g.inputs).mode != Firmware
    modifies flash`metaSector, flash`ctrlSector, flash`isFaulty, flash`isCtrlFaulty, flash`hasEraseFailed
    ensures flash.CommitSafe() && flash.StoredCount() < CRASH_RESET_LIMIT
    ensures (old(flash.isFaulty) ==> flash.isFaulty) && (old(flash.isCtrlFaulty) ==> flash.isCtrlFaulty)
    ensures r.PowerCut? ==> flash.isFaulty || flash.isCtrlFaulty
    ensures IsCounted(flash, g, r.Done?)
    ensures r.Done? ==> r.value == UpdaterMode(DecideFwBoot(g.inputs).mode, ShownVersion(g))
    // a served request is consumed; without one the record is left alone
    ensures g.inputs.isForceRequested && r.Done? && !flash.isFaulty ==>
              flash.StoredMeta() == WithForceCleared(g.record)
    ensures !g.inputs.isForceRequested ==> flash.metaSector == old(flash.metaSector)
  {
    hide CheckEmbeddedMeta;
    hide IsMetaRecordValid;
    hide RecordSize;
    hide RecordVersion;
    hide DecideFwBoot;
    hide Describes; hide StoredCrashCount; hide WithForceCleared;
    FirmwareStartsIff(g.inputs);
    var decision := DecideFwBoot(g.inputs);
    if g.inputs.isForceRequested {
      var _ :- ClearForceFlag(flash, g.record);
    }
    var count := if decision.mode == UpdaterCrashLoop then 0 else decision.crashCount;
    var _ :- SaveCrashCount(flash, g.ctrl, count);
    return Done(UpdaterMode(decision.mode, ShownVersion(g)));
  }

  lemma ClearedRecord(record: MetaRecord, otaSize: nat)
    ensures var cleared := WithForceCleared(record);
      && cleared[..56] == record[..56] && !IsForceRequested(cleared)
      && (IsMetaRecordValid(cleared, otaSize) <==> IsMetaRecordValid(record, otaSize))
      && RecordVersion(cleared) == RecordVersion(record)
  {
    ForceOutsideValidity(record, WithForceCleared(record), otaSize);
  }

  /**
   * Every start: decide, then pass through to the firmware or enter updater mode. `isJumpPrepared` is the answer of the
   * boot loader's retain memory and the wakeup timer.
   */
  method AppMain(flash: FwFlash, reason: ResetReason, isJumpPrepared: bool)
      returns (r: Op<Start>, ghost inputs: BootInputs)
    requires flash.CommitSafe() && flash.StoredCount() < CRASH_RESET_LIMIT
    modifies flash`metaSector, flash`ctrlSector, flash`isFaulty, flash`isCtrlFaulty, flash`hasEraseFailed
    ensures flash.CommitSafe() && flash.StoredCount() < CRASH_RESET_LIMIT
    ensures (old(flash.isFaulty) ==> flash.isFaulty) && (old(flash.isCtrlFaulty) ==> flash.isCtrlFaulty)
    ensures r.PowerCut? ==> flash.isFaulty || flash.isCtrlFaulty
    ensures inputs.resetReason == reason && inputs.crashCount <= old(flash.StoredCount())
    // the outcome is the decision on what was found
    ensures r.Done? && DecideFwBoot(inputs).mode == Firmware && isJumpPrepared ==> r.value == StartedFirmware
    ensures r.Done? && !(DecideFwBoot(inputs).mode == Firmware && isJumpPrepared) ==>
              && r.value.UpdaterMode?
              && r.value.reason == (if DecideFwBoot(inputs).mode == Firmware then UpdaterBootSelectFailed
                                    else DecideFwBoot(inputs).mode)
              && r.value.installedVersion == (if inputs.isOtaMatch then old(RecordVersion(flash.StoredMeta())) else [])
    // and an undisturbed start finds exactly what is stored
    ensures r.Done? && !flash.isFaulty ==>
              && inputs.isForceRequested == IsForceRequested(old(flash.StoredMeta()))
              && inputs.isRecordValid == inputs.isOtaMatch == old(flash.HasValidRecord())
    ensures r.Done? && !flash.isCtrlFaulty ==>
              && inputs.crashCount == old(flash.StoredCount()) && flash.StoredCount() == CountAfterStart(inputs)
              && flash.StoredAttempts() == old(flash.StoredAttempts())
    ensures r.PowerCut? && !flash.isCtrlFaulty ==> flash.StoredCount() == old(flash.StoredCount())
    // the firmware starts only from a valid record of the image in ota_0
    ensures r == Done(StartedFirmware) ==> flash.HasValidRecord() && !IsForceRequested(flash.StoredMeta())
    // a pass-through that is no crash writes no flash
    ensures r == Done(StartedFirmware) && !IsCrashReset(reason) ==>
              flash.metaSector == old(flash.metaSector) && flash.ctrlSector == old(flash.ctrlSector)
    // a served request is consumed, and everything else about the record stays
    ensures r.Done? && !flash.isFaulty ==>
              && flash.StoredMeta()[..56] == old(flash.StoredMeta()[..56]) && !IsForceRequested(flash.StoredMeta())
              && flash.HasValidRecord() == old(flash.HasValidRecord())
    ensures r.Done? && !flash.isFaulty && !IsForceRequested(old(flash.StoredMeta())) ==>
              flash.metaSector == old(flash.metaSector)
  {
    hide CheckEmbeddedMeta;
    hide IsMetaRecordValid;
    hide RecordSize;
    hide StoredCrashCount;
    hide RecordVersion; hide IsForceRequested; hide WithForceCleared; hide Describes; hide IsCtrlRecordValid;
    inputs := BootInputs(false, false, false, 0, reason);
    var gathered :- GatherInputs(flash, reason);
    inputs := gathered.inputs;
    ClearedRecord(gathered.record, flash.otaSize);
    FirmwareStartsIff(inputs);
    hide DecideFwBoot; hide CountAfterStart; hide ShownVersion;
    assert ShownVersion(gathered) == if inputs.isOtaMatch then RecordVersion(gathered.record) else [];
    if DecideFwBoot(gathered.inputs).mode == Firmware {
      r := PassThrough(flash, gathered, isJumpPrepared);
    } else {
      r := EnterUpdater(flash, gathered);
    }
  }

  /** main/fw_update/fw_update.c: force the updater at the next start. */
  method RequestFwUpdate(flash: FwFlash) returns (r: Op<UpdateRequest>)
    requires flash.CommitSafe()
    modifies flash`metaSector, flash`isFaulty
    ensures flash.CommitSafe()
    ensures old(flash.isFaulty) ==> flash.isFaulty
    ensures r == Done(RequestSet) ==> flash.HasValidRecord() && RecordForce(flash.StoredMeta()) == FORCE_SET
    ensures r == Done(NoRecord) ==> flash.metaSector == old(flash.metaSector)
    ensures r.Done? && !flash.isFaulty ==> r.value == if old(flash.HasValidRecord()) then RequestSet else NoRecord
    ensures flash.StoredMeta()[..56] == old(flash.StoredMeta()[..56])
    ensures flash.HasValidRecord() <==> old(flash.HasValidRecord())
  {
    hide CheckEmbeddedMeta;
    hide IsMetaRecordValid;
    hide RecordSize;
    hide RecordVersion;
    hide RecordDigest;
    var read :- flash.ReadFwMetaRecord();
    ErasedIsInvalid(flash.otaSize);
    if !IsMetaRecordValid(read.1, flash.otaSize) {
      return Done(NoRecord);
    }
    ghost var before := flash.metaSector;
    var programmed := flash.ProgramFwMetaForceFlag();
    SameCovered(before, flash.metaSector, flash.otaSize);
    var ok :- programmed;
    return Done(if ok then RequestSet else RequestFailed);
  }

  /** main/fw_update/fw_update.c: the firmware has run long enough; clear a non-zero crash count. */
  method MarkFirmwareHealthy(flash: FwFlash) returns (r: Op<()>)
    requires flash.Valid()
    modifies flash`ctrlSector, flash`isCtrlFaulty
    ensures flash.Valid()
    ensures old(flash.isCtrlFaulty) || r.PowerCut? ==> flash.isCtrlFaulty
    ensures flash.StoredCount() == old(flash.StoredCount()) || flash.StoredCount() == 0
    ensures !flash.isCtrlFaulty ==> flash.StoredCount() == 0 && flash.StoredAttempts() == old(flash.StoredAttempts())
  {
    var record :- flash.ReadFwCtrlRecord();
    if CrashCount(record) == 0 {
      return Done(());
    }
    BuiltCtrlRecord(0, BootAttempts(record));
    var _ :- flash.WriteFwCtrlRecord(BuildCtrlRecord(0, BootAttempts(record)));
    return Done(());
  }

  // Whole runs.

  datatype CrashEvent = CountedCrash(isStarted: bool) | Cleared

  /** Counted crash resets since the last clear; `base` of them happened before the log starts. */
  function CrashesSinceClear(base: nat, log: seq<CrashEvent>): nat {
    if log == [] then base
    else if log[|log| - 1].Cleared? then 0
    else 1 + CrashesSinceClear(base, log[..|log| - 1])
  }

  /** The firmware is never started on the third crash in a row. */
  predicate NeverStartedOnThird(base: nat, log: seq<CrashEvent>) {
    forall k :: 0 <= k < |log| && log[k] == CountedCrash(true) ==>
        CrashesSinceClear(base, log[..k + 1]) < CRASH_RESET_LIMIT
  }

  lemma LogExtends(base: nat, log: seq<CrashEvent>, event: CrashEvent)
    ensures CrashesSinceClear(base, log + [event]) == if event.Cleared? then 0 else 1 + CrashesSinceClear(base, log)
    ensures NeverStartedOnThird(base, log) && (event == CountedCrash(true) ==>
        CrashesSinceClear(base, log) + 1 < CRASH_RESET_LIMIT) ==>
              NeverStartedOnThird(base, log + [event])
  {
    var longer := log + [event];
    assert longer[..|log|] == log && longer[..|log| + 1] == longer;
    forall k | 0 <= k < |log| ensures longer[..k + 1] == log[..k + 1] && longer[k] == log[k] {
    }
  }

  /** Events that one undisturbed start adds to the log. */
  function StartEvents(inputs: BootInputs, start: Start): seq<CrashEvent> {
    if !CountsCrash(inputs) then []
    else if DecideFwBoot(inputs).mode == UpdaterCrashLoop then [CountedCrash(false), Cleared]
    else [CountedCrash(start.StartedFirmware?)]
  }

  lemma StartLogged(base: nat, log: seq<CrashEvent>, inputs: BootInputs, start: Start)
    requires inputs.crashCount == CrashesSinceClear(base, log) < CRASH_RESET_LIMIT && NeverStartedOnThird(base, log)
    ensures CrashesSinceClear(base, log + StartEvents(inputs, start)) == CountAfterStart(inputs)
    ensures NeverStartedOnThird(base, log + StartEvents(inputs, start))
  {
    FirmwareStartsIff(inputs);
    LogExtends(base, log, CountedCrash(start.StartedFirmware?));
    LogExtends(base, log, CountedCrash(false));
    LogExtends(base, log + [CountedCrash(false)], Cleared);
    assert log + [] == log;
    assert log + [CountedCrash(false)] + [Cleared] == log + [CountedCrash(false), Cleared];
  }

  /**
   * Any run: starts with any reset reason, uploads of any body, force requests and healthy marks in any order, with
   * every flash operation free to fail or to be cut. A cut ends the step; the next step finds what is left.
   */
  method RunDevice(worker: UploadWorker, steps: nat) returns (ghost log: seq<CrashEvent>)
    requires worker.Valid() && worker.flash.CommitSafe() && worker.flash.StoredCount() < CRASH_RESET_LIMIT
    modifies worker, worker.head, worker.flash
    ensures worker.Valid() && worker.flash.CommitSafe()
    ensures worker.flash.StoredCount() < CRASH_RESET_LIMIT
    ensures !worker.flash.isCtrlFaulty ==>
              && worker.flash.StoredCount() == CrashesSinceClear(old(worker.flash.StoredCount()), log)
              && NeverStartedOnThird(old(worker.flash.StoredCount()), log)
  {
    ghost var base := worker.flash.StoredCount();
    log := [];
    for step := 0 to steps
      invariant worker.Valid() && worker.flash.CommitSafe()
      invariant worker.flash.StoredCount() < CRASH_RESET_LIMIT
      invariant !worker.flash.isCtrlFaulty ==>
                  worker.flash.StoredCount() == CrashesSinceClear(base, log) && NeverStartedOnThird(base, log)
    {
      var events := RunStep(worker, base, log);
      log := log + events;
    }
  }

  method RunStep(worker: UploadWorker, ghost base: nat, ghost log: seq<CrashEvent>)
      returns (ghost events: seq<CrashEvent>)
    requires worker.Valid() && worker.flash.CommitSafe() && worker.flash.StoredCount() < CRASH_RESET_LIMIT
    requires !worker.flash.isCtrlFaulty ==>
               worker.flash.StoredCount() == CrashesSinceClear(base, log) && NeverStartedOnThird(base, log)
    modifies worker, worker.head, worker.flash
    ensures worker.Valid() && worker.flash.CommitSafe() && worker.flash.StoredCount() < CRASH_RESET_LIMIT
    ensures !worker.flash.isCtrlFaulty ==>
              worker.flash.StoredCount() == CrashesSinceClear(base, log + events)
                  && NeverStartedOnThird(base, log + events)
    ensures old(worker.flash.isCtrlFaulty) ==> worker.flash.isCtrlFaulty
  {
    hide CheckEmbeddedMeta;
    hide IsMetaRecordValid;
    hide RecordSize;
    hide StoredCrashCount;
    events := [];
    assert log + [] == log;
    LogExtends(base, log, Cleared);
    var choice: int := *;
    if choice == 0 {
      var reason: ResetReason := *;
      var isJumpPrepared: bool := *;
      var start, inputs := AppMain(worker.flash, reason, isJumpPrepared);
      worker.state := Idle;   // RAM is lost
      if start.Done? && !worker.flash.isCtrlFaulty {
        StartLogged(base, log, inputs, start.value);
        events := StartEvents(inputs, start.value);
      }
    } else if choice == 1 && (worker.state.Idle? || worker.state.Error?) {
      var body: Bytes := *;
      worker.state := Uploading;
      var reply, history := worker.ProcessUpload(body);
      events := if reply == Done(UploadOk) then [Cleared] else [];
      assert !worker.flash.isCtrlFaulty ==> worker.flash.StoredCount() == CrashesSinceClear(base, log + events);
    } else if choice == 2 {
      var _ := RequestFwUpdate(worker.flash);
      assert !worker.flash.isCtrlFaulty ==> worker.flash.StoredCount() == CrashesSinceClear(base, log + events);
    } else {
      var _ := MarkFirmwareHealthy(worker.flash);
      events := [Cleared];
      assert !worker.flash.isCtrlFaulty ==> worker.flash.StoredCount() == CrashesSinceClear(base, log + events);
    }
  }

  /**
   * A 200 reply means that an undisturbed software restart starts the firmware just uploaded if it can jump at all,
   * whatever failed during the upload: the flag for failures is cleared before the restart.
   */
  method UploadThenRestart(worker: UploadWorker, body: Bytes, isJumpPrepared: bool)
      returns (r: Op<(UploadResult, Start)>, ghost inputs: BootInputs)
    requires worker.Valid() && worker.flash.CommitSafe() && worker.state == Uploading
    requires worker.flash.StoredCount() < CRASH_RESET_LIMIT
    modifies worker, worker.head, worker.flash
    ensures r.Done? && r.value.0 == UploadOk && !worker.flash.isFaulty ==>
              && DecideFwBoot(inputs).mode == Firmware && worker.flash.BootReady()
              && RecordSize(worker.flash.StoredMeta()) == |body| <= worker.flash.otaSize
              && worker.flash.ota[..|body|] == body && worker.flash.isVerified(body)
              && r.value.1 == if isJumpPrepared then StartedFirmware
                              else UpdaterMode(UpdaterBootSelectFailed, RecordVersion(worker.flash.StoredMeta()))
  {
    hide CheckEmbeddedMeta;
    hide IsMetaRecordValid;
    hide RecordSize;
    hide StoredCrashCount;
    hide IsCtrlRecordValid; hide UploadVerdict; hide IsLinkHealthy;
    inputs := BootInputs(false, false, false, 0, Software);
    var reply, history := worker.ProcessUpload(body);
    if reply.PowerCut? {
      return PowerCut, inputs;
    }
    worker.flash.isFaulty := false;
    var start;
    start, inputs := AppMain(worker.flash, Software, isJumpPrepared);
    if start.PowerCut? {
      return PowerCut, inputs;
    }
    return Done((reply.value, start.value)), inputs;
  }

  /**
   * The firmware asks for the updater and restarts: the updater serves exactly that start, and the next one is back in
   * the firmware unless it is itself a deep-sleep wakeup or the third crash.
   */
  method RequestThenRestarts(flash: FwFlash, reason: ResetReason, isJumpPrepared: bool)
      returns (r: Op<(UpdateRequest, Start, Start)>)
    requires flash.CommitSafe() && flash.StoredCount() < CRASH_RESET_LIMIT
    modifies flash`metaSector, flash`ctrlSector, flash`isFaulty, flash`isCtrlFaulty, flash`hasEraseFailed
    ensures r.Done? && !flash.isFaulty && !flash.isCtrlFaulty && old(flash.BootReady()) ==>
              && r.value.0 == RequestSet
              && r.value.1 == UpdaterMode(UpdaterRequested, RecordVersion(old(flash.StoredMeta())))
              && (isJumpPrepared && reason != DeepSleep && (IsCrashReset(reason) ==> old(flash.StoredCount()) < 2) ==>
                    r.value.2 == StartedFirmware)
              && flash.StoredMeta() == old(flash.StoredMeta()) && flash.BootReady()
  {
    hide CheckEmbeddedMeta;
    hide IsMetaRecordValid;
    hide RecordSize; hide RecordVersion; hide Describes;
    hide StoredCrashCount; hide IsCtrlRecordValid;
    ghost var record := flash.StoredMeta();
    var request :- RequestFwUpdate(flash);
    assert request == RequestSet ==> IsForceRequested(flash.StoredMeta());
    ghost var forced := flash.StoredMeta();
    assert RecordVersion(forced) == RecordVersion(record) by {
      ForceOutsideValidity(record, forced, flash.otaSize);
    }
    var first, before := AppMain(flash, Software, isJumpPrepared);
    var started :- first;
    var second, inputs := AppMain(flash, reason, isJumpPrepared);
    var restarted :- second;
    FirmwareStartsIff(inputs);
    SameRecord(record, flash.StoredMeta());
    return Done((request, started, restarted));
  }

  lemma SameRecord(record: MetaRecord, other: MetaRecord)
    ensures record[..56] == other[..56] && !IsForceRequested(record) && !IsForceRequested(other) ==> record == other
  {
    assert record == record[..56] + record[56..60] && other == other[..56] + other[56..60];
  }
}
