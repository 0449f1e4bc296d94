/** Invariant of the pulse-capture protocol, kept by every step of every interleaving, and what follows from it. */
module PulseSafety {
  import opened Ws2812
  import opened PulseDecode
  import opened PulseMonitor

  // Where the tasks are.

  predicate DecodeHolds(d: DecodePc) {
    d.ReadingSeq? || d.Comparing? || d.Restarting? || d.Disabling? || d.Enabling? || d.Freeing?
  }

  /** The ISR tag is ahead of the last successful arm. */
  predicate IsTagAhead(p: Section) {
    p.Marking? || p.Starting? || p.Reenabling? || p.Retrying? || p.Untagging? || p.Armed?
  }

  /** The pending flag is raised although no receive runs yet, or no longer. */
  predicate IsFlagAhead(p: Section) {
    p.Starting? || p.Reenabling? || p.Retrying? || p.Untagging? || p.Unmarking?
  }

  predicate HasWait(d: DecodePc) {
    !d.Blocked? && !d.Woken? && !d.ReadingSeq? && !d.PublishingCapture?
  }

  /** The arm whose outcome the decode task is responsible for. */
  function Owed(d: DecodePc): nat {
    if HasWait(d) then d.wait.arm else if d.PublishingCapture? then d.arm else 0
  }

  function LastSettled(outcomes: seq<Outcome>): nat {
    if outcomes == [] then 0 else outcomes[|outcomes| - 1].arm
  }

  // The conjuncts of the invariant.

  ghost predicate LockInv(s: State) {
    && (s.led.Inside? <==> s.lock == Caller(Led))
    && (s.orchestrator.Inside? <==> s.lock == Caller(Orchestrator))
    && (s.section.Outside? <==> !s.lock.Caller?)
    && (DecodeHolds(s.decode) <==> s.lock.DecodeTask?)
  }

  ghost predicate Fits(r: Request) { r.SendRequest? ==> |r.pixels| <= PIXEL_BYTES }

  ghost predicate SnapshotShape(d: Snapshot) {
    |d.pixelBuffer| == PIXEL_BYTES && d.pixelLen <= PIXEL_BYTES
  }

  /** The snapshot belongs to request `r`. */
  ghost predicate Reflects(d: Snapshot, r: Request) {
    && d.submit == r.submit && d.mode.Send? == r.SendRequest?
    && (r.SendRequest? ==> d.timing == r.timing && d.pixelLen == |r.pixels| && r.pixels <= d.pixelBuffer)
  }

  ghost predicate ArmInv(s: State) {
    && |s.history.arms| == s.armedSeq && SnapshotShape(s.armed)
    && (s.armedSeq > 0 ==> Reflects(s.armed, s.history.arms[s.armedSeq - 1]))
    && (s.led.Entered? ==> Fits(s.led.req)) && (s.orchestrator.Entered? ==> Fits(s.orchestrator.req))
    && (!s.section.Outside? && !s.section.Signalling? && !s.section.Releasing? ==> Fits(s.section.req))
  }

  ghost predicate ChannelInv(s: State) {
    && s.rx.captureSeq == s.armedSeq + (if IsTagAhead(s.section) then 1 else 0)
    && (s.rx.inFlight.Some? ==> s.rx.inFlight.value == s.rx.captureSeq > 0 && s.rx.isReceivePending)
    && (IsTagAhead(s.section) && !s.section.Armed? ==> s.rx.inFlight.None?)
    && (s.section.Tagging? || s.section.Marking? ==> !s.rx.isReceivePending)
    && (IsFlagAhead(s.section) ==> s.rx.isReceivePending && s.rx.inFlight.None?)
    && (s.rx.isReceivePending ==>
        s.rx.inFlight.Some? || IsFlagAhead(s.section) || s.decode.Enabling? || s.decode.Freeing?)
    && (s.decode.Enabling? || s.decode.Freeing? ==> s.rx.inFlight.None?)
  }

  /** Arm number of the latest receive that was started. */
  function LatestReceive(s: State): nat { if s.section.Armed? then s.armedSeq + 1 else s.armedSeq }

  ghost predicate IsFrameOf(f: Frame, buffer: Frame) { |f| <= DATA_SYMBOLS == |buffer| && f <= buffer }

  /** A receive delivers one frame; with none running, the buffer still starts with the latest one. */
  ghost predicate FrameInv(s: State) {
    && |s.buffer| == DATA_SYMBOLS
    && (forall n <- s.history.frames :: 0 < n <= LatestReceive(s))
    && (s.rx.inFlight.Some? ==> s.rx.inFlight.value !in s.history.frames)
    && (s.section.Armed? && s.rx.inFlight.None? ==> s.armedSeq + 1 in s.history.frames)
    && (s.rx.inFlight.None? && LatestReceive(s) in s.history.frames ==>
          IsFrameOf(s.history.frames[LatestReceive(s)], s.buffer))
  }

  ghost predicate IsEventOf(frames: map<nat, Frame>, e: DoneEvent) {
    e.tag in frames && e.count == |frames[e.tag]|
  }

  ghost predicate EventInv(s: State) {
    && (s.queue.Some? ==> IsEventOf(s.history.frames, s.queue.value))
    && (s.decode.GotEvent? || s.decode.Comparing? ==> IsEventOf(s.history.frames, s.decode.event))
  }

  /** The decode task only owes outcomes of unsettled arms, and a raised signal stands for an unsettled latest arm. */
  ghost predicate ClaimInv(s: State) {
    var last := LastSettled(s.history.outcomes);
    && last <= s.armedSeq == |s.history.arms|
    && (s.decode.Woken? || s.decode.ReadingSeq? || s.isSignalled || s.section.Signalling? ==> last < s.armedSeq)
    && (HasWait(s.decode) || s.decode.PublishingCapture? ==> last < Owed(s.decode) <= s.armedSeq)
    && (HasWait(s.decode) ==> s.decode.wait.submit == s.history.arms[s.decode.wait.arm - 1].submit)
    && (s.decode.Disabling? || s.decode.Enabling? || s.decode.Freeing? ==>
        s.decode.wait.arm == s.armedSeq && !s.isSignalled)
    && ((s.isSignalled || s.section.Signalling?) && (s.decode.PublishingTimeout? || s.decode.PublishingCapture?) ==>
        Owed(s.decode) < s.armedSeq)
  }

  /** No wake-up is lost: an unsettled latest arm is signalled, or the decode task is committed to it. */
  ghost predicate WakeInv(s: State) {
    LastSettled(s.history.outcomes) < s.armedSeq ==>
      || s.isSignalled || s.section.Signalling? || s.decode.Woken? || s.decode.ReadingSeq?
          || Owed(s.decode) == s.armedSeq
  }

  /** An arm that is settled, or about to be, has no receive running. */
  ghost predicate QuietInv(s: State) {
    s.rx.inFlight.Some? ==>
      && LastSettled(s.history.outcomes) < s.rx.inFlight.value
      && (s.decode.PublishingTimeout? || s.decode.PublishingCapture? ==> Owed(s.decode) < s.rx.inFlight.value)
  }

  /** The private copies all come from the one arm the decode task is about to publish. */
  ghost predicate CopyInv(s: State) {
    && |s.copies.symbols| == DATA_SYMBOLS && SnapshotShape(s.copies.snapshot)
    && (s.decode.PublishingCapture? ==>
          && 0 < s.decode.arm <= |s.history.arms| && s.decode.arm in s.history.frames
          && Reflects(s.copies.snapshot, s.history.arms[s.decode.arm - 1])
          && s.decode.count == |s.history.frames[s.decode.arm]|
          && IsFrameOf(s.history.frames[s.decode.arm], s.copies.symbols))
  }

  /** What may be published for an arm: its timeout, or the measurement of its own frame for its own request. */
  ghost predicate IsOutcomeOf(o: Outcome, arms: seq<Request>, frames: map<nat, Frame>) {
    && 0 < o.arm <= |arms|
    && (|| o.m == Blank(arms[o.arm - 1].submit, TimedOut)
        || (o.arm in frames && o.m == MeasurementOf(arms[o.arm - 1], frames[o.arm])))
  }

  ghost predicate LogInv(h: History) {
    && (forall k :: 0 <= k < |h.outcomes| ==> IsOutcomeOf(h.outcomes[k], h.arms, h.frames))
    && (forall j, k :: 0 <= j < k < |h.outcomes| ==> h.outcomes[j].arm < h.outcomes[k].arm)
  }

  ghost predicate Inv(s: State) {
    && LockInv(s) && ArmInv(s) && ChannelInv(s) && FrameInv(s) && EventInv(s)
    && ClaimInv(s) && WakeInv(s) && QuietInv(s) && CopyInv(s) && LogInv(s.history)
  }

  lemma InitInv(s: State)
    requires Init(s)
    ensures Inv(s)
  {
  }

  lemma CheckPendingInv(s: State, s': State)
    requires Inv(s) && CheckPending(s, s')
    ensures Inv(s')
  {
  }

  lemma WriteTagInv(s: State, s': State)
    requires Inv(s) && WriteTag(s, s')
    ensures Inv(s')
  {
  }

  lemma MarkPendingInv(s: State, s': State)
    requires Inv(s) && MarkPending(s, s')
    ensures Inv(s')
  {
  }

  lemma ReceiveStartsInv(s: State, s': State)
    requires Inv(s) && ReceiveStarts(s, s')
    ensures Inv(s')
  {
  }

  lemma RestoreTagInv(s: State, s': State)
    requires Inv(s) && RestoreTag(s, s')
    ensures Inv(s')
  {
  }

  lemma ClearPendingInv(s: State, s': State)
    requires Inv(s) && ClearPending(s, s')
    ensures Inv(s')
  {
  }

  lemma GiveSignalInv(s: State, s': State)
    requires Inv(s) && GiveSignal(s, s')
    ensures Inv(s')
  {
  }

  lemma TakeSignalInv(s: State, s': State)
    requires Inv(s) && TakeSignal(s, s')
    ensures Inv(s')
  {
  }

  lemma LockForSeqInv(s: State, s': State)
    requires Inv(s) && LockForSeq(s, s')
    ensures Inv(s')
  {
  }

  lemma ReadSeqInv(s: State, s': State)
    requires Inv(s) && ReadSeq(s, s')
    ensures Inv(s')
  {
  }

  lemma ReceiveEventInv(s: State, s': State)
    requires Inv(s) && ReceiveEvent(s, s')
    ensures Inv(s')
  {
  }

  lemma ExpireWaitInv(s: State, s': State)
    requires Inv(s) && ExpireWait(s, s')
    ensures Inv(s')
  {
  }

  lemma LockForCompareInv(s: State, s': State)
    requires Inv(s) && LockForCompare(s, s')
    ensures Inv(s')
  {
  }

  lemma DropStaleInv(s: State, s': State)
    requires Inv(s) && DropStale(s, s')
    ensures Inv(s')
  {
  }

  lemma LockForRestartInv(s: State, s': State)
    requires Inv(s) && LockForRestart(s, s')
    ensures Inv(s')
  {
  }

  lemma SkipRestartInv(s: State, s': State)
    requires Inv(s) && SkipRestart(s, s')
    ensures Inv(s')
  {
  }

  lemma BeginRestartInv(s: State, s': State)
    requires Inv(s) && BeginRestart(s, s')
    ensures Inv(s')
  {
  }

  lemma FreeChannelInv(s: State, s': State)
    requires Inv(s) && FreeChannel(s, s')
    ensures Inv(s')
  {
  }

  lemma ReceiveFailsInv(s: State, isInvalidState: bool, s': State)
    requires Inv(s) && ReceiveFails(s, isInvalidState, s')
    ensures Inv(s')
  {
  }

  lemma ReenableInv(s: State, ok: bool, s': State)
    requires Inv(s) && Reenable(s, ok, s')
    ensures Inv(s')
  {
  }

  lemma DisableInv(s: State, ok: bool, s': State)
    requires Inv(s) && Disable(s, ok, s')
    ensures Inv(s')
  {
  }

  lemma EnableInv(s: State, ok: bool, s': State)
    requires Inv(s) && Enable(s, ok, s')
    ensures Inv(s')
  {
  }

  /** Points of the section where the channel is as outside. */
  predicate IsPlain(p: Section) { p.Outside? || p.Locked? || p.Failing? || p.Releasing? }

  /** Entering, leaving and waiting outside the lock touch nothing but the callers' places and the lock. */
  lemma CallersKeep(s: State, s': State)
    requires Inv(s)
    requires s' == s.(led := s'.led, orchestrator := s'.orchestrator, lock := s'.lock, section := s'.section)
    requires s'.section == s.section || (IsPlain(s.section) && IsPlain(s'.section))
    ensures ChannelInv(s') && FrameInv(s') && EventInv(s') && ClaimInv(s') && WakeInv(s') && QuietInv(s') && CopyInv(s')
    ensures LogInv(s'.history)
  {
    hide LockInv; hide ArmInv; hide LogInv;
  }

  lemma GiveUpInv(s: State, who: Who, s': State)
    requires Inv(s) && GiveUp(s, who, s')
    ensures Inv(s')
  {
    CallersKeep(s, s');
    hide ChannelInv; hide FrameInv; hide EventInv; hide ClaimInv; hide WakeInv; hide QuietInv; hide CopyInv;
    hide LogInv;
  }

  lemma GiveLockInv(s: State, who: Who, s': State)
    requires Inv(s) && GiveLock(s, who, s')
    ensures Inv(s')
  {
    CallersKeep(s, s');
    hide ChannelInv; hide FrameInv; hide EventInv; hide ClaimInv; hide WakeInv; hide QuietInv; hide CopyInv;
    hide LogInv;
  }

  lemma TakeLockInv(s: State, who: Who, s': State)
    requires Inv(s) && TakeLock(s, who, s')
    ensures Inv(s')
  {
    CallersKeep(s, s');
    hide ChannelInv; hide FrameInv; hide EventInv; hide ClaimInv; hide WakeInv; hide QuietInv; hide CopyInv;
    hide LogInv;
  }

  lemma FindLockBusyInv(s: State, who: Who, s': State)
    requires Inv(s) && FindLockBusy(s, who, s')
    ensures Inv(s')
  {
    CallersKeep(s, s');
    hide ChannelInv; hide FrameInv; hide EventInv; hide ClaimInv; hide WakeInv; hide QuietInv; hide CopyInv;
    hide LogInv;
  }

  lemma EnterInv(s: State, who: Who, r: Request, s': State)
    requires Inv(s) && Enter(s, who, r, s')
    ensures Inv(s')
  {
    CallersKeep(s, s');
    hide ChannelInv; hide FrameInv; hide EventInv; hide ClaimInv; hide WakeInv; hide QuietInv; hide CopyInv;
    hide LogInv;
  }

  lemma PublishRejectionInv(s: State, who: Who, m: Measurement, s': State)
    requires Inv(s) && PublishRejection(s, who, m, s')
    ensures Inv(s')
  {
    CallersKeep(s, s');
    hide ChannelInv; hide FrameInv; hide EventInv; hide ClaimInv; hide WakeInv; hide QuietInv; hide CopyInv;
    hide LogInv;
  }

  lemma FillBufferInv(s: State, content: Frame, s': State)
    requires Inv(s) && FillBuffer(s, content, s')
    ensures Inv(s')
  {
  }

  lemma StoreSnapshotInv(s: State, s': State)
    requires Inv(s) && StoreSnapshot(s, s')
    ensures Inv(s')
  {
    assert s'.history.arms[s'.armedSeq - 1] == s.section.req;
    assert forall k :: 0 <= k < |s.history.outcomes| ==>
        IsOutcomeOf(s.history.outcomes[k], s.history.arms, s.history.frames);
  }

  lemma FinishReceiveInv(s: State, frame: Frame, content: Frame, s': State)
    requires Inv(s) && FinishReceive(s, frame, content, s')
    ensures Inv(s')
  {
  }

  lemma TakeCaptureInv(s: State, s': State)
    requires Inv(s) && TakeCapture(s, s')
    ensures Inv(s')
  {
  }

  lemma PublishTimeoutInv(s: State, m: Measurement, s': State)
    requires Inv(s) && PublishTimeout(s, m, s')
    ensures Inv(s')
  {
  }

  lemma PublishCaptureInv(s: State, m: Measurement, s': State)
    requires Inv(s) && PublishCapture(s, m, s')
    ensures m == MeasurementOf(s.history.arms[s.decode.arm - 1], s.history.frames[s.decode.arm])
    ensures Inv(s')
  {
    hide MeasurementOf; hide MeasureCopy;
    CopyMeasures(s.copies, s.decode.count, s.history.arms[s.decode.arm - 1], s.history.frames[s.decode.arm]);
  }

  /** Measuring the private copies is measuring the one arm they reflect. */
  lemma CopyMeasures(c: Copies, count: nat, r: Request, f: Frame)
    requires SnapshotShape(c.snapshot) && Reflects(c.snapshot, r) && IsFrameOf(f, c.symbols) && count == |f|
    ensures MeasureCopy(c, count) == MeasurementOf(r, f)
  {
    hide SpecStats;
    hide SpecRead;
    assert c.symbols[..count] == f;
    if count == DATA_SYMBOLS {
      assert c.symbols == f;
    }
    if r.SendRequest? {
      assert c.snapshot.pixelBuffer[..c.snapshot.pixelLen] == r.pixels;
    }
  }

  // Every step, every run.

  lemma StartInv(s: State, s': State)
    requires Inv(s) && StartStep(s, s')
    ensures Inv(s')
  {
    hide Inv;
    if CheckPending(s, s') {
      CheckPendingInv(s, s');
    } else if WriteTag(s, s') {
      WriteTagInv(s, s');
    } else if MarkPending(s, s') {
      MarkPendingInv(s, s');
    } else if ReceiveStarts(s, s') {
      ReceiveStartsInv(s, s');
    } else if ReceiveFails(s, false, s') {
      ReceiveFailsInv(s, false, s');
    } else {
      ReceiveFailsInv(s, true, s');
    }
  }

  lemma FinishInv(s: State, s': State)
    requires Inv(s) && FinishStep(s, s')
    ensures Inv(s')
  {
    hide Inv;
    if Reenable(s, false, s') {
      ReenableInv(s, false, s');
    } else if Reenable(s, true, s') {
      ReenableInv(s, true, s');
    } else if RestoreTag(s, s') {
      RestoreTagInv(s, s');
    } else if ClearPending(s, s') {
      ClearPendingInv(s, s');
    } else {
      GiveSignalInv(s, s');
    }
  }

  lemma LockStepInv(s: State, who: Who, s': State)
    requires Inv(s) && LockStep(s, who, s')
    ensures Inv(s')
  {
    hide Inv;
    if GiveUp(s, who, s') {
      GiveUpInv(s, who, s');
    } else if GiveLock(s, who, s') {
      GiveLockInv(s, who, s');
    } else if TakeLock(s, who, s') {
      TakeLockInv(s, who, s');
    } else {
      FindLockBusyInv(s, who, s');
    }
  }

  lemma HardwareInv(s: State, s': State)
    requires Inv(s) && HardwareStep(s, s')
    ensures Inv(s')
  {
    hide Inv;
    if content :| FillBuffer(s, content, s') {
      FillBufferInv(s, content, s');
    } else {
      var frame, content :| FinishReceive(s, frame, content, s');
      FinishReceiveInv(s, frame, content, s');
    }
  }

  lemma WaitInv(s: State, s': State)
    requires Inv(s) && WaitStep(s, s')
    ensures Inv(s')
  {
    hide Inv;
    if TakeSignal(s, s') {
      TakeSignalInv(s, s');
    } else if LockForSeq(s, s') {
      LockForSeqInv(s, s');
    } else if ReadSeq(s, s') {
      ReadSeqInv(s, s');
    } else if ReceiveEvent(s, s') {
      ReceiveEventInv(s, s');
    } else if ExpireWait(s, s') {
      ExpireWaitInv(s, s');
    } else if LockForCompare(s, s') {
      LockForCompareInv(s, s');
    } else if TakeCapture(s, s') {
      TakeCaptureInv(s, s');
    } else {
      DropStaleInv(s, s');
    }
  }

  lemma RestartInv(s: State, s': State)
    requires Inv(s) && RestartStep(s, s')
    ensures Inv(s')
  {
    hide Inv;
    if LockForRestart(s, s') {
      LockForRestartInv(s, s');
    } else if SkipRestart(s, s') {
      SkipRestartInv(s, s');
    } else if BeginRestart(s, s') {
      BeginRestartInv(s, s');
    } else if Disable(s, false, s') {
      DisableInv(s, false, s');
    } else if Disable(s, true, s') {
      DisableInv(s, true, s');
    } else if Enable(s, false, s') {
      EnableInv(s, false, s');
    } else if Enable(s, true, s') {
      EnableInv(s, true, s');
    } else {
      FreeChannelInv(s, s');
    }
  }

  lemma PublishInv(s: State, m: Measurement, s': State)
    requires Inv(s) && PublishStep(s, m, s')
    ensures Inv(s')
  {
    hide Inv;
    if PublishRejection(s, Led, m, s') {
      PublishRejectionInv(s, Led, m, s');
    } else if PublishRejection(s, Orchestrator, m, s') {
      PublishRejectionInv(s, Orchestrator, m, s');
    } else if PublishTimeout(s, m, s') {
      PublishTimeoutInv(s, m, s');
    } else {
      PublishCaptureInv(s, m, s');
    }
  }

  /** Every step of any task, of the interrupt or of the hardware keeps the invariant. */
  lemma StepInv(s: State, e: Event, s': State)
    requires Inv(s) && Next(s, e, s')
    ensures Inv(s')
  {
    hide Inv;
    hide StartStep; hide FinishStep; hide StoreSnapshot; hide LockStep; hide HardwareStep; hide WaitStep;
    hide RestartStep;
    hide PublishStep; hide Enter;
    match e
    case Call(who, r) => EnterInv(s, who, r, s');
    case Publish(m) => PublishInv(s, m, s');
    case Internal =>
      if LockStep(s, Led, s') {
        LockStepInv(s, Led, s');
      } else if LockStep(s, Orchestrator, s') {
        LockStepInv(s, Orchestrator, s');
      } else if StartStep(s, s') {
        StartInv(s, s');
      } else if StoreSnapshot(s, s') {
        StoreSnapshotInv(s, s');
      } else if FinishStep(s, s') {
        FinishInv(s, s');
      } else if HardwareStep(s, s') {
        HardwareInv(s, s');
      } else if WaitStep(s, s') {
        WaitInv(s, s');
      } else {
        RestartInv(s, s');
      }
  }

  ghost predicate IsRun(states: seq<State>, events: seq<Event>) {
    && |states| == |events| + 1 && Init(states[0])
    && forall i :: 0 <= i < |events| ==> Next(states[i], events[i], states[i + 1])
  }

  lemma {:induction false} RunInv(states: seq<State>, events: seq<Event>, i: nat)
    requires IsRun(states, events) && i < |states|
    ensures Inv(states[i])
  {
    hide Inv; hide Init; hide Next;
    if i == 0 {
      InitInv(states[0]);
    } else {
      RunInv(states, events, i - 1);
      StepInv(states[i - 1], events[i - 1], states[i]);
    }
  }

  // What holds in every state of every run.

  /**
   * Pairing: everything published for an arm is its timeout, or the measurement of its own frame for its own request.
   */
  lemma CapturesArePaired(states: seq<State>, events: seq<Event>, i: nat, k: nat)
    requires IsRun(states, events) && i < |states| && k < |states[i].history.outcomes|
    ensures IsOutcomeOf(states[i].history.outcomes[k], states[i].history.arms, states[i].history.frames)
  {
    RunInv(states, events, i);
  }

  /** No arm ever gets two outcomes. */
  lemma SingleOutcome(states: seq<State>, events: seq<Event>, i: nat, j: nat, k: nat)
    requires IsRun(states, events) && i < |states| && j < k < |states[i].history.outcomes|
    ensures states[i].history.outcomes[j].arm < states[i].history.outcomes[k].arm
  {
    RunInv(states, events, i);
  }

  /**
   * No lost wake-up: with the lock free and the decode task blocked on an empty semaphore, the latest successful arm
   * has its outcome and no receive is pending, so nothing keeps the next arm from succeeding.
   */
  lemma NoLostWakeUp(states: seq<State>, events: seq<Event>, i: nat)
    requires IsRun(states, events) && i < |states|
    requires states[i].lock.Free? && states[i].decode.Blocked? && !states[i].isSignalled
    ensures !states[i].rx.isReceivePending
    ensures states[i].armedSeq > 0 ==>
              && states[i].history.outcomes != []
              && states[i].history.outcomes[|states[i].history.outcomes| - 1].arm == states[i].armedSeq
  {
    RunInv(states, events, i);
  }

  /** The history only grows: arms are appended, a frame is delivered once per arm, outcomes are appended. */
  ghost predicate Grows(h: History, h': History) {
    h.arms <= h'.arms && h.outcomes <= h'.outcomes && h.frames.Keys <= h'.frames.Keys
    && forall n <- h.frames :: h'.frames[n] == h.frames[n]
  }

  // What one step does to the requests, arms and outcomes; everything else is internal to the protocol.

  /** The request an arming task is working on, until it is armed or rejected. */
  function Active(s: State, who: Who): Option<Request> {
    match Pc(s, who)
    case CallerIdle => None
    case Entered(r) => Some(r)
    case Rejecting(r) => Some(r)
    case Inside =>
      if s.section.Outside? || s.section.Signalling? || s.section.Releasing? then None else Some(s.section.req)
  }

  function Other(who: Who): Who { if who.Led? then Orchestrator else Led }

  /** The successful arm of `who`: its request leaves the task and becomes the latest arm. */
  predicate ArmsRequest(s: State, who: Who, s': State) {
    && Active(s, who).Some? && Active(s', who).None? && Active(s', Other(who)) == Active(s, Other(who))
    && s'.history.arms == s.history.arms + [Active(s, who).value]
  }

  predicate KeepsRequests(s: State, s': State) {
    Active(s', Led) == Active(s, Led) && Active(s', Orchestrator) == Active(s, Orchestrator)
        && s'.history.arms == s.history.arms
  }

  lemma StoreEffect(s: State, s': State)
    requires LockInv(s) && StoreSnapshot(s, s')
    ensures ArmsRequest(s, Led, s') || ArmsRequest(s, Orchestrator, s')
    ensures Grows(s.history, s'.history) && s'.history.outcomes == s.history.outcomes
  {
  }

  lemma StartEffect(s: State, s': State)
    requires StartStep(s, s')
    ensures KeepsRequests(s, s') && s'.history == s.history
  {
    StartKeepsSection(s, s');
    hide StartStep;
  }

  /** A section that has not armed yet keeps working on its request. */
  predicate KeepsSection(s: State, s': State) {
    && s'.led == s.led && s'.orchestrator == s.orchestrator && s'.history == s.history
    && !s.section.Outside? && !s.section.Signalling? && !s.section.Releasing?
    && !s'.section.Outside? && !s'.section.Signalling? && !s'.section.Releasing?
    && s'.section.req == s.section.req
  }

  lemma StartKeepsSection(s: State, s': State)
    requires StartStep(s, s')
    ensures KeepsSection(s, s')
  {
  }

  lemma FinishEffect(s: State, s': State)
    requires FinishStep(s, s')
    ensures KeepsRequests(s, s') && s'.history == s.history
  {
  }

  lemma LockEffect(s: State, who: Who, s': State)
    requires LockInv(s) && LockStep(s, who, s')
    ensures KeepsRequests(s, s') && s'.history == s.history
  {
  }

  /** The decode task leaves the callers, the section and the history alone until it publishes. */
  predicate LeavesCallers(s: State, s': State) {
    s'.led == s.led && s'.orchestrator == s.orchestrator && s'.section == s.section && s'.history == s.history
  }

  lemma CallersLeft(s: State, s': State)
    requires LeavesCallers(s, s')
    ensures KeepsRequests(s, s')
  {
  }

  lemma WaitLeaves(s: State, s': State)
    requires WaitStep(s, s')
    ensures LeavesCallers(s, s')
  {
  }

  lemma RestartLeaves(s: State, s': State)
    requires RestartStep(s, s')
    ensures LeavesCallers(s, s')
  {
  }

  lemma WaitEffect(s: State, s': State)
    requires WaitStep(s, s')
    ensures KeepsRequests(s, s') && s'.history == s.history
  {
    hide WaitStep; hide KeepsRequests;
    WaitLeaves(s, s');
    CallersLeft(s, s');
  }

  lemma RestartEffect(s: State, s': State)
    requires RestartStep(s, s')
    ensures KeepsRequests(s, s') && s'.history == s.history
  {
    hide RestartStep; hide KeepsRequests;
    RestartLeaves(s, s');
    CallersLeft(s, s');
  }

  lemma HardwareEffect(s: State, s': State)
    requires FrameInv(s) && HardwareStep(s, s')
    ensures KeepsRequests(s, s') && Grows(s.history, s'.history) && s'.history.outcomes == s.history.outcomes
  {
  }

  lemma InternalEffect(s: State, s': State)
    requires Inv(s) && Next(s, Internal, s')
    ensures KeepsRequests(s, s') || ArmsRequest(s, Led, s') || ArmsRequest(s, Orchestrator, s')
    ensures Grows(s.history, s'.history) && s'.history.outcomes == s.history.outcomes
  {
    assert LockInv(s) && FrameInv(s);
    hide Inv; hide LockInv; hide FrameInv; hide KeepsRequests; hide ArmsRequest;
    hide StartStep; hide FinishStep; hide StoreSnapshot; hide LockStep; hide HardwareStep; hide WaitStep;
    hide RestartStep;
    if LockStep(s, Led, s') {
      LockEffect(s, Led, s');
    } else if LockStep(s, Orchestrator, s') {
      LockEffect(s, Orchestrator, s');
    } else if StartStep(s, s') {
      StartEffect(s, s');
    } else if StoreSnapshot(s, s') {
      StoreEffect(s, s');
    } else if FinishStep(s, s') {
      FinishEffect(s, s');
    } else if HardwareStep(s, s') {
      HardwareEffect(s, s');
    } else if WaitStep(s, s') {
      WaitEffect(s, s');
    } else {
      RestartEffect(s, s');
    }
  }

  /** A publication ends the request of a rejected caller, or settles one arm that had no outcome. */
  predicate Rejects(s: State, who: Who, m: Measurement, s': State) {
    && Active(s, who).Some? && Active(s', who).None? && Active(s', Other(who)) == Active(s, Other(who))
    && m == Blank(Active(s, who).value.submit, NotMeasured) && s'.history == s.history
  }

  ghost predicate Settles(s: State, m: Measurement, s': State) {
    && KeepsRequests(s, s') && s'.history.frames == s.history.frames
    && |s'.history.outcomes| == |s.history.outcomes| + 1
    && var o := Outcome(LastSettled(s'.history.outcomes), m);
    && s'.history.outcomes == s.history.outcomes + [o]
    && LastSettled(s.history.outcomes) < o.arm && IsOutcomeOf(o, s.history.arms, s.history.frames)
  }

  lemma PublishEffect(s: State, m: Measurement, s': State)
    requires Inv(s) && PublishStep(s, m, s')
    ensures Rejects(s, Led, m, s') || Rejects(s, Orchestrator, m, s') || Settles(s, m, s')
  {
    hide MeasurementOf; hide MeasureCopy;
    if PublishTimeout(s, m, s') {
      TimeoutEffect(s, m, s');
    } else if PublishCapture(s, m, s') {
      CaptureEffect(s, m, s');
    }
  }

  lemma TimeoutEffect(s: State, m: Measurement, s': State)
    requires ClaimInv(s) && PublishTimeout(s, m, s')
    ensures Settles(s, m, s')
  {
  }

  lemma CaptureEffect(s: State, m: Measurement, s': State)
    requires Inv(s) && PublishCapture(s, m, s')
    ensures Settles(s, m, s')
  {
    hide MeasurementOf; hide MeasureCopy;
    PublishCaptureInv(s, m, s');
  }

  lemma CallEffect(s: State, who: Who, r: Request, s': State)
    requires Enter(s, who, r, s')
    ensures Active(s, who).None? && Active(s', who) == Some(r) && Active(s', Other(who)) == Active(s, Other(who))
    ensures s'.history == s.history
  {
  }

  lemma OutcomeSubmit(o: Outcome, arms: seq<Request>, frames: map<nat, Frame>)
    requires IsOutcomeOf(o, arms, frames)
    ensures o.m.submit == arms[o.arm - 1].submit
  {
    hide SpecStats;
    hide SpecRead;
  }
}
